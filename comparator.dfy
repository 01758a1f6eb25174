/**
 * The comparator applySort hands to Array.prototype.sort: rows are compared
 * criterion by criterion, in priority order, and the first criterion on
 * which they differ decides.
 */
module Comparator {
  import opened Wrappers
  import opened Text
  import opened SortState
  import opened RowOrder

  /** A body row: the text content of each of its cells, in column order. */
  type Row = seq<string>

  /** The two host functions the comparator calls: parseFloat, with None
      for NaN (the model's parseFloat is Text.ParseFloat), and
      String.prototype.localeCompare, negative, zero or positive. */
  datatype Host = Host(number: string -> Option<real>, collate: (string, string) -> real)

  /** What ECMAScript asks of localeCompare: swapping the operands negates
      the result (so every string compares equal to itself). */
  ghost predicate Antisymmetric(host: Host) {
    forall x, y :: host.collate(x, y) == -host.collate(y, x)
  }

  /** `a.cells[index]?.textContent.trim() ?? ''`. */
  function CellText(row: Row, index: int): string {
    if 0 <= index < |row| then Trim(row[index]) else ""
  }

  /** Two cell values: numerically when both parse as numbers, as text otherwise. */
  function CompareValues(x: string, y: string, host: Host): (r: real)
    ensures host.number(x).Some? && host.number(y).Some? ==>
      && (r < 0.0 <==> host.number(x).value < host.number(y).value)
      && (r == 0.0 <==> host.number(x).value == host.number(y).value)
    ensures !(host.number(x).Some? && host.number(y).Some?) ==> r == host.collate(x, y)
  {
    var nx := host.number(x);
    var ny := host.number(y);
    if nx.Some? && ny.Some? then nx.value - ny.value else host.collate(x, y)
  }

  /** The comparison of two rows under one criterion, negated when it is descending. */
  function KeyCompare(c: Criterion, a: Row, b: Row, host: Host): real {
    var cmp := CompareValues(CellText(a, c.index), CellText(b, c.index), host);
    if c.asc then cmp else -cmp
  }

  /** The comparator: lexicographic over the criteria. */
  function Compare(orders: seq<Criterion>, a: Row, b: Row, host: Host): (r: real)
    // All criteria tie (in particular, there are none): the rows are equal.
    ensures (forall k :: 0 <= k < |orders| ==> KeyCompare(orders[k], a, b, host) == 0.0) ==> r == 0.0
    // Otherwise the first criterion on which they differ decides.
    ensures forall k ::
      && 0 <= k < |orders|
      && KeyCompare(orders[k], a, b, host) != 0.0
      && (forall j :: 0 <= j < k ==> KeyCompare(orders[j], a, b, host) == 0.0)
      ==> r == KeyCompare(orders[k], a, b, host)
    decreases |orders|
  {
    if |orders| == 0 then 0.0
    else
      var cmp := KeyCompare(orders[0], a, b, host);
      if cmp != 0.0 then cmp
      else
        var rest := Compare(orders[1..], a, b, host);
        assert forall k :: 1 <= k < |orders| ==> orders[1..][k - 1] == orders[k];
        rest
  }

  /** The comparator callback as the source writes it: a loop over the
      criteria that returns at the first non-zero comparison. */
  method CompareRows(orders: seq<Criterion>, a: Row, b: Row, host: Host) returns (r: real)
    ensures r == Compare(orders, a, b, host)
  {
    var i := 0;
    while i < |orders|
      invariant 0 <= i <= |orders|
      invariant forall j :: 0 <= j < i ==> KeyCompare(orders[j], a, b, host) == 0.0
    {
      var index, asc := orders[i].index, orders[i].asc;
      var valA := CellText(a, index);
      var valB := CellText(b, index);
      var numA := host.number(valA);
      var numB := host.number(valB);
      var isNumeric := numA.Some? && numB.Some?;
      var cmp := if isNumeric then numA.value - numB.value else host.collate(valA, valB);
      assert KeyCompare(orders[i], a, b, host) == if asc then cmp else -cmp;
      if cmp != 0.0 {
        return if asc then cmp else -cmp;
      }
      i := i + 1;
    }
    return 0.0;
  }

  /** The comparator as the callback value handed to the sort. */
  function RowComparison(orders: seq<Criterion>, host: Host): Comparison<Row> {
    (a, b) => Compare(orders, a, b, host)
  }

  /** Swapping the rows negates the comparison, given a collation that is
      antisymmetric: the numeric-or-text choice is the same both ways. */
  lemma {:induction false} CompareAntisymmetric(orders: seq<Criterion>, a: Row, b: Row, host: Host)
    requires Antisymmetric(host)
    ensures Compare(orders, a, b, host) == -Compare(orders, b, a, host)
    decreases |orders|
  {
    if |orders| > 0 {
      CompareAntisymmetric(orders[1..], a, b, host);
    }
  }

  /** The callback handed to the sort is antisymmetric, as the sort requires. */
  lemma RowComparisonAntisymmetric(orders: seq<Criterion>, host: Host)
    requires Antisymmetric(host)
    ensures AntisymmetricCmp(RowComparison(orders, host))
  {
    forall a, b ensures Compare(orders, a, b, host) == -Compare(orders, b, a, host) {
      CompareAntisymmetric(orders, a, b, host);
    }
  }

  /** A row is equal to itself under every state. */
  lemma CompareReflexive(orders: seq<Criterion>, a: Row, host: Host)
    requires Antisymmetric(host)
    ensures Compare(orders, a, a, host) == 0.0
  {
    CompareAntisymmetric(orders, a, a, host);
  }

  /** A missing cell reads as "", which parseFloat never reads as a number:
      the key is then compared as text against the other row's value, and
      two rows that both lack the cell tie on it. */
  lemma MissingCellIsEmptyText(c: Criterion, a: Row, b: Row, host: Host)
    requires host.number == ParseFloat
    requires !(0 <= c.index < |a|)
    ensures KeyCompare(c, a, b, host) ==
      (if c.asc then host.collate("", CellText(b, c.index)) else -host.collate("", CellText(b, c.index)))
    ensures Antisymmetric(host) && !(0 <= c.index < |b|) ==> KeyCompare(c, a, b, host) == 0.0
  {
    assert StripSign(TrimStart("")) == "";
    assert host.number("") == None;
  }

  /** Under parseFloat, the text of a cell holding a printed integer is that
      integer. */
  lemma IntegerCell(host: Host, n: int)
    requires host.number == ParseFloat
    ensures Trim(IntToString(n)) == IntToString(n)
    ensures host.number(IntToString(n)) == Some(n as real)
  {
    ParseFloatOfInt(n);
    IntToStringShape(n);
    var s := IntToString(n);
    var m: nat := if n < 0 then -n else n;
    NatToStringDigits(m);
    assert !IsSpace(s[|s| - 1]) by {
      assert s[|s| - 1] == NatToString(m)[|NatToString(m)| - 1];
    }
  }

  /** Under parseFloat, a one-letter cell is text. */
  lemma LetterCell(host: Host, c: char)
    requires host.number == ParseFloat
    requires 'a' <= c <= 'z'
    ensures Trim([c]) == [c] && host.number([c]) == None
  {
    assert TrimStart([c]) == [c];
  }

  /** Cells holding numbers compare by value, not as text: "10" sorts after "2". */
  lemma NumericCellsCompareByValue(host: Host)
    requires host.number == ParseFloat
    ensures Compare([Criterion(0, true)], ["10"], ["2"], host) > 0.0
    ensures Compare([Criterion(0, false)], ["10"], ["2"], host) < 0.0
  {
    IntegerCell(host, 10);
    IntegerCell(host, 2);
    assert IntToString(10) == "10" && IntToString(2) == "2";
    assert KeyCompare(Criterion(0, true), ["10"], ["2"], host) == 8.0;
    assert KeyCompare(Criterion(0, false), ["10"], ["2"], host) == -8.0;
  }

  /** Two keys: rows that tie on the primary column are ordered by the
      secondary one, as in ("a",1) before ("a",2) before ("b",2). */
  lemma TwoKeyExample(host: Host)
    requires host.number == ParseFloat
    requires Antisymmetric(host) && host.collate("a", "b") < 0.0
    ensures var orders := [Criterion(0, true), Criterion(1, true)];
      && Compare(orders, ["a", "1"], ["a", "2"], host) < 0.0
      && Compare(orders, ["a", "2"], ["b", "2"], host) < 0.0
      && Compare(orders, ["b", "2"], ["a", "1"], host) > 0.0
  {
    var primary, secondary := Criterion(0, true), Criterion(1, true);
    IntegerCell(host, 1);
    IntegerCell(host, 2);
    assert IntToString(1) == "1" && IntToString(2) == "2";
    LetterCell(host, 'a');
    LetterCell(host, 'b');
    assert host.collate("a", "a") == 0.0 && host.collate("b", "a") > 0.0;
    assert KeyCompare(primary, ["a", "1"], ["a", "2"], host) == 0.0;
    assert KeyCompare(secondary, ["a", "1"], ["a", "2"], host) == -1.0;
    assert KeyCompare(primary, ["a", "2"], ["b", "2"], host) < 0.0;
    assert KeyCompare(primary, ["b", "2"], ["a", "1"], host) > 0.0;
  }
}
