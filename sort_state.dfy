/**
 * The sort state of one table: an ordered list of criteria, the first one
 * the primary key, and the way a click on a header changes it.
 */
module SortState {

  /** One entry of the sort state: a column index and its direction. */
  datatype Criterion = Criterion(index: int, asc: bool)

  /** A click on the header of `column`, with or without Shift held. */
  datatype Click = Click(column: int, shift: bool)

  /** The column indices of the state, in priority order. */
  function Columns(orders: seq<Criterion>): (cols: seq<int>)
    ensures |cols| == |orders|
    ensures forall k :: 0 <= k < |orders| ==> cols[k] == orders[k].index
  {
    seq(|orders|, k requires 0 <= k < |orders| => orders[k].index)
  }

  /** No column occurs twice in the state. */
  predicate DistinctColumns(orders: seq<Criterion>) {
    forall i, j :: 0 <= i < j < |orders| ==> orders[i].index != orders[j].index
  }

  /** `k` is the position of the first entry for `col`. */
  predicate FirstFor(orders: seq<Criterion>, col: int, k: int) {
    && 0 <= k < |orders|
    && orders[k].index == col
    && forall j :: 0 <= j < k ==> orders[j].index != col
  }

  function Flip(c: Criterion): Criterion {
    c.(asc := !c.asc)
  }

  /** Array.prototype.findIndex on the state with `o => o.index === col`. */
  function FindIndex(orders: seq<Criterion>, col: int): (r: int)
    ensures r == -1 <==> col !in Columns(orders)
    ensures r != -1 ==> FirstFor(orders, col, r)
    decreases |orders|
  {
    if |orders| == 0 then -1
    else if orders[0].index == col then 0
    else
      var k := FindIndex(orders[1..], col);
      assert Columns(orders) == [orders[0].index] + Columns(orders[1..]);
      if k == -1 then -1 else k + 1
  }

  /** The new state after a click on `col`: the four branches of sort(). */
  function Next(orders: seq<Criterion>, col: int, shift: bool): (r: seq<Criterion>)
    // Shift on a new column: appended, ascending, after the unchanged entries.
    ensures shift && col !in Columns(orders) ==> r == orders + [Criterion(col, true)]
    // Shift on a present column: only its first entry flips, in place.
    ensures shift && col in Columns(orders) ==>
      && Columns(r) == Columns(orders)
      && exists k :: FirstFor(orders, col, k) && r == orders[k := Flip(orders[k])]
    // Plain click on the only entry, for this column: it flips.
    ensures !shift && |orders| == 1 && orders[0].index == col ==> r == [Flip(orders[0])]
    // Any other plain click: the state becomes this column alone, ascending.
    ensures !shift && !(|orders| == 1 && orders[0].index == col) ==> r == [Criterion(col, true)]
    ensures col in Columns(r)
    ensures DistinctColumns(orders) ==> DistinctColumns(r)
  {
    var k := FindIndex(orders, col);
    if shift then
      if k == -1 then
        var r := orders + [Criterion(col, true)];
        assert r[|orders|].index == col;
        r
      else
        var r := orders[k := Flip(orders[k])];
        assert Columns(r) == Columns(orders);
        r
    else
      var r := if k != -1 && |orders| == 1 && orders[0].index == col then [Flip(orders[0])]
               else [Criterion(col, true)];
      assert Columns(r)[0] == col;
      r
  }

  /** The state after a sequence of clicks on a fresh sorter (state []). */
  function Run(clicks: seq<Click>): seq<Criterion> {
    if clicks == [] then []
    else
      var last := clicks[|clicks| - 1];
      Next(Run(clicks[..|clicks| - 1]), last.column, last.shift)
  }

  /** However the headers are clicked, no column ever occurs twice in the state. */
  lemma {:induction false} RunDistinct(clicks: seq<Click>)
    ensures DistinctColumns(Run(clicks))
  {
    if clicks != [] {
      RunDistinct(clicks[..|clicks| - 1]);
    }
  }

  /** Two plain clicks on one column: back where it was when the state was
      that column alone; otherwise that column alone, descending. */
  lemma PlainClickTwice(orders: seq<Criterion>, col: int)
    ensures Next(Next(orders, col, false), col, false) ==
      if |orders| == 1 && orders[0].index == col then orders else [Criterion(col, false)]
  {
    var once := Next(orders, col, false);
    assert |once| == 1 && once[0].index == col;
  }

  /** Two Shift-clicks on one column: nothing changed when it was already in
      the state; otherwise it ends up appended, descending. */
  lemma ShiftClickTwice(orders: seq<Criterion>, col: int)
    ensures Next(Next(orders, col, true), col, true) ==
      if col in Columns(orders) then orders else orders + [Criterion(col, false)]
  {
    var once := Next(orders, col, true);
    if col in Columns(orders) {
      var k := FindIndex(orders, col);
      assert FirstFor(once, col, k);
      assert FindIndex(once, col) == k;
    } else {
      var k := |orders|;
      assert FirstFor(once, col, k);
      assert FindIndex(once, col) == k;
    }
  }
}
