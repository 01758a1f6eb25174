/**
 * The sorter object tableSorter(tableId) returns, bound to a table that
 * has been found: its sort state, the click handlers init attaches, and
 * the table's body rows and sortable headers, which it updates in place.
 */
module Widget {
  import opened Wrappers
  import opened Text
  import opened SortState
  import opened Comparator
  import opened RowOrder
  import opened Headers

  class TableSorter {
    /** sortOrders: the criteria, primary first. */
    var sortOrders: seq<Criterion>
    /** For each header, the column its click handler sorts by; None where
        init attached no handler. */
    var handlers: seq<Option<int>>
    /** The rows of the table's first body, in document order. */
    const body: array<Row>
    /** The header cells carrying data-sort, in document order. */
    const headers: array<Header>
    /** parseFloat and localeCompare. */
    const host: Host

    ghost predicate Valid()
      reads this, headers
    {
      && |handlers| == headers.Length
      && Antisymmetric(host)
      // A header's handler sorts by the column its data-sort value reads back as.
      && forall i :: 0 <= i < headers.Length && handlers[i].Some? ==> ParseInt(headers[i].sortAttr) == handlers[i]
    }

    /** tableSorter(tableId), once the table is found: an empty state and no handlers. */
    constructor (body: array<Row>, headers: array<Header>, localeCompare: (string, string) -> real)
      requires Antisymmetric(Host(ParseFloat, localeCompare))
      ensures Valid()
      ensures this.body == body && this.headers == headers && host == Host(ParseFloat, localeCompare)
      ensures sortOrders == [] && handlers == seq(headers.Length, _ => None)
    {
      this.body := body;
      this.headers := headers;
      this.host := Host(ParseFloat, localeCompare);
      sortOrders := [];
      handlers := seq(headers.Length, _ => None);
    }

    /** init(): registers every header whose index resolves and attaches its
        click handler; then, when a well-formed state was saved, adopts it
        and applies it at once. */
    method Init(saved: Option<seq<Criterion>>)
      requires Valid()
      requires forall i :: 0 <= i < |handlers| ==> handlers[i].None?
      modifies this, headers, body
      ensures Valid()
      ensures forall i :: 0 <= i < headers.Length ==> handlers[i] == ResolveIndex(old(headers[i]).sortAttr, i)
      ensures saved.None? ==>
        && sortOrders == old(sortOrders) && body[..] == old(body[..])
        && forall i :: 0 <= i < headers.Length ==> headers[i] == Register(old(headers[i]), i)
      ensures saved.Some? ==>
        && sortOrders == saved.value
        && multiset(body[..]) == multiset(old(body[..]))
        && Ordered(body[..], RowComparison(sortOrders, host))
        && (TransitiveOn(old(body[..]), RowComparison(sortOrders, host)) ==> Sorted(body[..], RowComparison(sortOrders, host)))
        && forall i :: 0 <= i < headers.Length ==> headers[i] == Refresh(Register(old(headers[i]), i), sortOrders)
    {
      RegisterHeaders();
      if saved.Some? {
        sortOrders := saved.value;
        ApplySort();
        UpdateHeaderClasses();
      }
    }

    /** The forEach over the headers in init: each header whose index
        resolves is rewritten and gets the handler for that index. */
    method RegisterHeaders()
      requires Valid()
      requires forall i :: 0 <= i < |handlers| ==> handlers[i].None?
      modifies this, headers
      ensures Valid() && sortOrders == old(sortOrders)
      ensures forall i :: 0 <= i < headers.Length ==>
        headers[i] == Register(old(headers[i]), i) && handlers[i] == ResolveIndex(old(headers[i]).sortAttr, i)
    {
      for i := 0 to headers.Length
        invariant Valid() && sortOrders == old(sortOrders)
        invariant forall k :: 0 <= k < i ==>
          headers[k] == Register(old(headers[k]), k) && handlers[k] == ResolveIndex(old(headers[k]).sortAttr, k)
        invariant forall k :: i <= k < headers.Length ==> headers[k] == old(headers[k]) && handlers[k].None?
      {
        var th := headers[i];
        var index := ResolveIndex(th.sortAttr, i);
        if index.Some? {
          th := th.(sortAttr := IntToString(index.value));
          th := th.(sortable := true);
          if th.icon.None? {
            th := th.(icon := Some(Icon(false)));
          }
          headers[i] := th;
          handlers := handlers[i := index];
        }
        assert headers[i] == Register(old(headers[i]), i);
        RegisterReadsBack(old(headers[i]), i);
      }
    }

    /** A click on header `i`: its handler, if init attached one, sorts by
        its column. */
    method Click(i: nat, shift: bool)
      requires Valid() && i < headers.Length
      modifies this, body, headers
      ensures Valid() && handlers == old(handlers)
      ensures old(handlers[i]).None? ==>
        sortOrders == old(sortOrders) && body[..] == old(body[..]) && headers[..] == old(headers[..])
      ensures old(handlers[i]).Some? ==>
        && sortOrders == Next(old(sortOrders), old(handlers[i]).value, shift)
        && multiset(body[..]) == multiset(old(body[..]))
        && Ordered(body[..], RowComparison(sortOrders, host))
        && (TransitiveOn(old(body[..]), RowComparison(sortOrders, host)) ==> Sorted(body[..], RowComparison(sortOrders, host)))
        && (forall k :: 0 <= k < headers.Length ==> headers[k] == Refresh(old(headers[k]), sortOrders))
        && headers[i].active
    {
      if handlers[i].Some? {
        Sort(handlers[i].value, shift);
      }
    }

    /** sort(colIndex, event): updates the state, reorders the rows and
        refreshes the header markers. */
    method Sort(col: int, shift: bool)
      requires Valid()
      modifies this, body, headers
      ensures Valid() && handlers == old(handlers)
      ensures sortOrders == Next(old(sortOrders), col, shift)
      ensures DistinctColumns(old(sortOrders)) ==> DistinctColumns(sortOrders)
      ensures multiset(body[..]) == multiset(old(body[..]))
      ensures Ordered(body[..], RowComparison(sortOrders, host))
      ensures TransitiveOn(old(body[..]), RowComparison(sortOrders, host)) ==> Sorted(body[..], RowComparison(sortOrders, host))
      ensures forall i :: 0 <= i < headers.Length ==> headers[i] == Refresh(old(headers[i]), sortOrders)
    {
      var existingIndex := FindIndex(sortOrders, col);
      if shift {
        if existingIndex == -1 {
          sortOrders := sortOrders + [Criterion(col, true)];
        } else {
          sortOrders := sortOrders[existingIndex := sortOrders[existingIndex].(asc := !sortOrders[existingIndex].asc)];
        }
      } else {
        if existingIndex != -1 && |sortOrders| == 1 && sortOrders[0].index == col {
          sortOrders := [sortOrders[0].(asc := !sortOrders[0].asc)];
        } else {
          sortOrders := [Criterion(col, true)];
        }
      }
      ApplySort();
      UpdateHeaderClasses();
    }

    /** applySort(): sorts a copy of the body rows under the comparator and
        puts them back in that order. */
    method ApplySort()
      requires Valid()
      modifies body
      ensures multiset(body[..]) == multiset(old(body[..]))
      ensures Ordered(body[..], RowComparison(sortOrders, host))
      ensures TransitiveOn(old(body[..]), RowComparison(sortOrders, host)) ==> Sorted(body[..], RowComparison(sortOrders, host))
    {
      ghost var original := body[..];
      var rows := new Row[body.Length](k reads body => if 0 <= k < body.Length then body[k] else []);
      assert rows[..] == original;
      var cmp := RowComparison(sortOrders, host);
      RowComparisonAntisymmetric(sortOrders, host);
      SortInPlace(rows, cmp);
      OrderedPermutationSorted(original, rows[..], cmp);
      WriteBack(rows);
    }

    /** rows.forEach(row => tbody.appendChild(row)): the body takes the
        order of `rows`. */
    method WriteBack(rows: array<Row>)
      requires rows.Length == body.Length
      modifies body
      ensures body[..] == rows[..]
    {
      for i := 0 to rows.Length
        invariant body[..i] == rows[..i]
      {
        body[i] := rows[i];
      }
      assert body[..] == body[..rows.Length];
      assert rows[..] == rows[..rows.Length];
    }

    /** updateHeaderClasses(): refreshes the markers of every header. */
    method UpdateHeaderClasses()
      requires Valid()
      modifies headers
      ensures Valid()
      ensures forall i :: 0 <= i < headers.Length ==> headers[i] == Refresh(old(headers[i]), sortOrders)
    {
      for i := 0 to headers.Length
        invariant forall k :: 0 <= k < i ==> headers[k] == Refresh(old(headers[k]), sortOrders)
        invariant forall k :: i <= k < headers.Length ==> headers[k] == old(headers[k])
      {
        headers[i] := Refresh(headers[i], sortOrders);
      }
    }
  }
}
