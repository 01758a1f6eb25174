/**
 * Reordering the body rows: Array.prototype.sort run with a comparator on
 * an array, in place.  The host's sort algorithm is modelled by an
 * insertion sort, which gives every guarantee the widget relies on.
 */
module RowOrder {

  /** A comparator callback: negative, zero or positive. */
  type Comparison<-T> = (T, T) -> real

  /** Swapping the operands negates the result. */
  ghost predicate AntisymmetricCmp<T(!new)>(cmp: Comparison<T>) {
    forall x, y :: cmp(x, y) == -cmp(y, x)
  }

  /** The comparison is transitive on the elements of `s`. */
  ghost predicate TransitiveOn<T>(s: seq<T>, cmp: Comparison<T>) {
    forall x, y, z :: x in s && y in s && z in s && cmp(x, y) <= 0.0 && cmp(y, z) <= 0.0
      ==> cmp(x, z) <= 0.0
  }

  /** Each element compares at most equal to the one after it. */
  ghost predicate Ordered<T>(s: seq<T>, cmp: Comparison<T>) {
    forall k :: 0 < k < |s| ==> cmp(s[k - 1], s[k]) <= 0.0
  }

  /** Every element compares at most equal to every later one. */
  ghost predicate Sorted<T>(s: seq<T>, cmp: Comparison<T>) {
    forall i, j :: 0 <= i < j < |s| ==> cmp(s[i], s[j]) <= 0.0
  }

  /** Sorts `a` in place: afterwards it holds a permutation of what it held,
      and each element compares at most equal to its successor. */
  method SortInPlace<T(!new)>(a: array<T>, cmp: Comparison<T>)
    requires AntisymmetricCmp(cmp)
    modifies a
    ensures multiset(a[..]) == multiset(old(a[..]))
    ensures Ordered(a[..], cmp)
  {
    var i := 0;
    while i < a.Length
      invariant 0 <= i <= a.Length
      invariant multiset(a[..]) == multiset(old(a[..]))
      invariant Ordered(a[..i], cmp)
    {
      InsertLast(a, i, cmp);
      i := i + 1;
    }
    assert a[..] == a[..a.Length];
  }

  /** Given a[..i] ordered, moves a[i] down to its place, so that a[..i + 1]
      is ordered; nothing after position i moves. */
  method InsertLast<T(!new)>(a: array<T>, i: nat, cmp: Comparison<T>)
    requires AntisymmetricCmp(cmp)
    requires i < a.Length && Ordered(a[..i], cmp)
    modifies a
    ensures multiset(a[..]) == multiset(old(a[..]))
    ensures Ordered(a[..i + 1], cmp)
    ensures forall k :: i < k < a.Length ==> a[k] == old(a[k])
  {
    InsertingStarts(a[..], i, cmp);
    var j := i;
    while j > 0 && cmp(a[j - 1], a[j]) > 0.0
      invariant 0 <= j <= i
      invariant multiset(a[..]) == multiset(old(a[..]))
      invariant forall k :: i < k < a.Length ==> a[k] == old(a[k])
      invariant Inserting(a[..], i, j, cmp)
    {
      InsertingStep(a[..], i, j, cmp);
      SwapDown(a, j);
      j := j - 1;
    }
    OrderedPrefix(a[..], i + 1, cmp);
  }

  /** The state of insertion while a[j] moves down: every adjacent pair in
      s[..i + 1] is in order, except possibly the one that ends at j, and
      the two neighbours of j are in order with each other. */
  ghost predicate Inserting<T>(s: seq<T>, i: nat, j: nat, cmp: Comparison<T>)
    requires j <= i < |s|
  {
    && (forall k :: 0 < k <= i && k != j ==> cmp(s[k - 1], s[k]) <= 0.0)
    && (0 < j < i ==> cmp(s[j - 1], s[j + 1]) <= 0.0)
  }

  lemma InsertingStarts<T>(s: seq<T>, i: nat, cmp: Comparison<T>)
    requires i < |s| && Ordered(s[..i], cmp)
    ensures Inserting(s, i, i, cmp)
  {
    forall k | 0 < k < i
      ensures cmp(s[k - 1], s[k]) <= 0.0
    {
      assert s[..i][k - 1] == s[k - 1] && s[..i][k] == s[k];
    }
  }

  /** Moving s[j] one place down, past a larger predecessor, keeps the
      insertion state. */
  lemma InsertingStep<T(!new)>(s: seq<T>, i: nat, j: nat, cmp: Comparison<T>)
    requires AntisymmetricCmp(cmp)
    requires 0 < j <= i < |s| && Inserting(s, i, j, cmp) && cmp(s[j - 1], s[j]) > 0.0
    ensures Inserting(s[j - 1 := s[j]][j := s[j - 1]], i, j - 1, cmp)
  {
    assert cmp(s[j], s[j - 1]) < 0.0;
  }

  /** A prefix whose adjacent pairs are in order is ordered. */
  lemma OrderedPrefix<T>(s: seq<T>, n: nat, cmp: Comparison<T>)
    requires n <= |s| && forall k :: 0 < k < n ==> cmp(s[k - 1], s[k]) <= 0.0
    ensures Ordered(s[..n], cmp)
  {
    assert forall k :: 0 <= k < n ==> s[..n][k] == s[k];
  }

  /** Exchanges a[j - 1] and a[j]. */
  method SwapDown<T>(a: array<T>, j: nat)
    requires 0 < j < a.Length
    modifies a
    ensures a[..] == old(a[..])[j - 1 := old(a[j])][j := old(a[j - 1])]
    ensures multiset(a[..]) == multiset(old(a[..]))
    ensures forall k :: j < k < a.Length ==> a[k] == old(a[k])
  {
    a[j - 1], a[j] := a[j], a[j - 1];
  }

  /** An ordered permutation of rows on which the comparison is transitive
      is sorted. */
  lemma OrderedPermutationSorted<T>(s: seq<T>, t: seq<T>, cmp: Comparison<T>)
    requires multiset(s) == multiset(t) && Ordered(t, cmp)
    ensures TransitiveOn(s, cmp) ==> Sorted(t, cmp)
  {
    if TransitiveOn(s, cmp) {
      TransitiveOnPermutation(s, t, cmp);
      OrderedIsSorted(t, cmp);
    }
  }

  /** Transitivity on the elements survives a permutation. */
  lemma TransitiveOnPermutation<T>(s: seq<T>, t: seq<T>, cmp: Comparison<T>)
    requires multiset(s) == multiset(t) && TransitiveOn(s, cmp)
    ensures TransitiveOn(t, cmp)
  {
    forall x | x in t
      ensures x in s
    {
      assert x in multiset(t);
    }
  }

  /** Where the comparison is transitive on the elements, ordered means sorted. */
  lemma OrderedIsSorted<T>(s: seq<T>, cmp: Comparison<T>)
    requires Ordered(s, cmp) && TransitiveOn(s, cmp)
    ensures Sorted(s, cmp)
  {
    forall i, j | 0 <= i < j < |s|
      ensures cmp(s[i], s[j]) <= 0.0
    {
      var k := i + 1;
      while k < j
        invariant i < k <= j
        invariant cmp(s[i], s[k]) <= 0.0
      {
        assert cmp(s[k], s[k + 1]) <= 0.0;
        k := k + 1;
      }
    }
  }
}
