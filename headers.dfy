/**
 * The sortable header cells: how init resolves each one's column index and
 * how the active and descending markers follow the sort state.
 */
module Headers {
  import opened Wrappers
  import opened Text
  import opened SortState

  /** The direction icon (an svg element) of a header; `desc` is its "desc" class. */
  datatype Icon = Icon(desc: bool)

  /** A header cell carrying a data-sort attribute: the attribute's value,
      its "sortable" and "sort-active" classes, and its icon if it has one. */
  datatype Header = Header(sortAttr: string, sortable: bool, active: bool, icon: Option<Icon>)

  /** The column index of the header at `position` among the headers that
      carry data-sort: the attribute's value read by parseInt, or the
      position itself when the attribute is empty.  None (NaN) means the
      header is skipped. */
  function ResolveIndex(attr: string, position: nat): (r: Option<int>)
    ensures attr == "" ==> r == Some(position)
    ensures attr != "" ==> (r.None? <==> DigitRun(StripSign(TrimStart(attr))) == 0)
  {
    if attr != "" then ParseInt(attr) else Some(position)
  }

  /** An explicit attribute gives the integer it starts with: "2", "2px"
      and "-1" give 2, 2 and -1. */
  lemma ResolveExplicit(n: int, rest: string, position: nat)
    requires rest == [] || !IsDigit(rest[0])
    ensures ResolveIndex(IntToString(n) + rest, position) == Some(n)
  {
    ParseIntOfInt(n, rest);
    IntToStringShape(n);
  }

  /** What init leaves of a header: a resolved index is written back as its
      data-sort value, the header gets the "sortable" class and an icon if
      it has none; a skipped header stays as it is. */
  function Register(h: Header, position: nat): (r: Header)
    ensures ResolveIndex(h.sortAttr, position).None? ==> r == h
    ensures ResolveIndex(h.sortAttr, position).Some? ==>
      && r.sortAttr == IntToString(ResolveIndex(h.sortAttr, position).value)
      && r.sortable && r.active == h.active
      && r.icon == (if h.icon.Some? then h.icon else Some(Icon(false)))
  {
    match ResolveIndex(h.sortAttr, position)
    case None => h
    case Some(n) =>
      h.(sortAttr := IntToString(n), sortable := true, icon := if h.icon.Some? then h.icon else Some(Icon(false)))
  }

  /** The data-sort value init leaves reads back, under parseInt, as the
      index init resolved: the index the header's click handler sorts by is
      the one updateHeaderClasses later marks. */
  lemma RegisterReadsBack(h: Header, position: nat)
    ensures ParseInt(Register(h, position).sortAttr) == ResolveIndex(h.sortAttr, position)
  {
    match ResolveIndex(h.sortAttr, position)
    case None =>
    case Some(n) =>
      ParseIntOfInt(n, "");
      assert IntToString(n) + "" == IntToString(n);
  }

  /** What updateHeaderClasses does to one header: it is active exactly
      when its index is in the state, and its icon says "desc" exactly when
      the first entry for that index is descending. */
  function Refresh(h: Header, orders: seq<Criterion>): (r: Header)
    ensures r.sortAttr == h.sortAttr && r.sortable == h.sortable && r.icon.Some? == h.icon.Some?
    ensures r.active <==> ParseInt(h.sortAttr).Some? && ParseInt(h.sortAttr).value in Columns(orders)
    ensures r.icon.Some? ==>
      (r.icon.value.desc <==>
        ParseInt(h.sortAttr).Some? && exists k :: FirstFor(orders, ParseInt(h.sortAttr).value, k) && !orders[k].asc)
  {
    var index := ParseInt(h.sortAttr);
    var k := if index.Some? then FindIndex(orders, index.value) else -1;
    var found := k != -1;
    h.(active := found, icon := if h.icon.Some? then Some(Icon(found && !orders[k].asc)) else None)
  }
}
