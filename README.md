# vanilla-table-sorter, modelled in Dafny

This is a model of the table sorter widget in `src/table-sorter.js`. The
widget makes the header cells of an HTML table clickable:

- A click sorts the body rows by that column.
- A Shift-click adds the column as a further key, or flips its direction.
- The headers show which columns are active and which are descending.

The model covers four parts of the widget:

- **The sort state machine** (`sort`), in `sort_state.dfy` and `TableSorter.Sort`.
  The state is the list of criteria `sortOrders`, each a column index and a
  direction, with the primary key first.
- **The multi-key comparator** (the callback of `applySort`), in `comparator.dfy`.
  It also covers the JavaScript string functions the comparator relies on:
  `trim`, `parseFloat`, `parseInt` and `String(n)`. These are in `text.dfy`.
- **The reordering of the body rows** (`applySort`), in `row_order.dfy` and
  `TableSorter.ApplySort`.
- **The headers.**
  - How `init` resolves each header's column index, writes it back and
    attaches its handler: `headers.dfy`, `TableSorter.RegisterHeaders` and
    `TableSorter.Init`.
  - How `updateHeaderClasses` sets the "sort-active" and "desc" markers:
    `Headers.Refresh` and `TableSorter.UpdateHeaderClasses`.

The object `tableSorter(tableId)` returns is the class `Widget.TableSorter`.
Its fields are:

- `sortOrders`, the sort state;
- `handlers`, the column each header's click handler sorts by;
- `body`, the rows of the table's first body, as an array updated in place;
- `headers`, the header cells that carry `data-sort`, as an array updated in place.

A row is the sequence of its cells' text contents. A header is its
`data-sort` value, its "sortable" and "sort-active" classes and its optional
icon, whose one class of interest is "desc".

Where the code and the usage note at the top of the file
(src/table-sorter.js:49-51, an empty `data-sort` for an automatic index, a
number for an explicit one) leave room, the model follows the code:

- `init` rejects only an index that is NaN, so `data-sort="-1"` registers
  the column -1, which the comparator then reads as missing cells. Indices
  are therefore `int` throughout, not natural numbers.
- Two plain clicks on a column return it to ascending only when the state
  was that column alone and ascending. From any other state the two clicks
  leave it alone and descending. `SortState.PlainClickTwice` states both
  cases.

`Array.prototype.sort` calls the comparator on the rows. The host's
algorithm is out of reach, so the model sorts with an insertion sort, and
the contracts of `ApplySort`, `Sort`, `Click` and `Init` say what that sort
gives:

- the rows are a permutation of the original rows;
- each row compares at most equal to the next one;
- where the comparator is transitive on the rows, every row compares at most
  equal to every later one (`RowOrder.OrderedPermutationSorted`).

The first and third are what ECMAScript promises for a consistent
comparator, and consistency includes transitivity. The second, for a
comparator that is not transitive, is a property of insertion sort only:
the host sort then gives an implementation-defined order. The widget's own
comparator can fail transitivity on a column that mixes numbers and text,
because numbers compare by value and text by collation. Nothing is assumed
about the order of rows that tie.

## Model

| member | source | states |
|---|---|---|
| SortState.FindIndex | src/table-sorter.js:119 | findIndex gives -1 exactly when no entry has the column; otherwise it gives the position of the first entry for it |
| SortState.Next | src/table-sorter.js:118-141 | the four branches of sort. A Shift-click on a new column appends it ascending after the unchanged entries. A Shift-click on a present column flips that entry's direction in place and keeps the column order. A plain click on the only entry, for this column, flips it. Any other plain click makes the state that column alone, ascending. The clicked column is always in the new state, and distinct columns stay distinct |
| SortState.RunDistinct | src/table-sorter.js:57 | from the empty initial state, any sequence of clicks leaves no column in the state twice |
| SortState.PlainClickTwice | src/table-sorter.js:129-140 | two plain clicks on a column restore the state when it was that column alone; otherwise they leave that column alone, descending |
| SortState.ShiftClickTwice | src/table-sorter.js:121-127 | two Shift-clicks on a column restore the state when the column was in it; otherwise they append it descending |
| Comparator.CellText | src/table-sorter.js:161-162 | the trimmed text content of the cell at the index, or "" when the row has no cell there (its properties: Text.TrimIsInfix and Comparator.MissingCellIsEmptyText) |
| Comparator.KeyCompare | src/table-sorter.js:164-170 | the comparison of two rows under one criterion, negated when the criterion is descending (its properties: Comparator.Compare, Comparator.CompareAntisymmetric) |
| Comparator.CompareValues | src/table-sorter.js:164-168 | when both values parse as numbers, the comparison is negative, zero or positive as the first number is below, equal to or above the second; otherwise the result is the collation of the two texts |
| Comparator.Compare | src/table-sorter.js:159-173 | the comparator is 0 when there are no criteria or every criterion ties; otherwise it is the first non-zero per-criterion comparison, negated for a descending criterion |
| Comparator.CompareRows | src/table-sorter.js:159-173 | the callback's loop over the criteria, with its early return, computes the comparator |
| Comparator.CompareAntisymmetric | src/table-sorter.js:164-170 | swapping the two rows negates the comparison, given an antisymmetric collation: the choice between numeric and text comparison is the same both ways |
| Comparator.RowComparison | src/table-sorter.js:159 | the callback value passed to rows.sort: Comparator.Compare under the current state |
| Comparator.RowComparisonAntisymmetric | src/table-sorter.js:159-173 | the callback handed to the sort is antisymmetric for every pair of rows |
| Comparator.CompareReflexive | src/table-sorter.js:159-173 | every row compares equal to itself |
| Comparator.MissingCellIsEmptyText | src/table-sorter.js:161-168 | a missing cell compares as the text "" against the other row's value, and two rows that both miss the cell tie on it |
| Comparator.IntegerCell | src/table-sorter.js:161-164 | a cell holding a printed integer trims to itself and parseFloat reads it as that integer |
| Comparator.LetterCell | src/table-sorter.js:161-166 | a one-letter cell trims to itself and does not parse as a number |
| Comparator.NumericCellsCompareByValue | src/table-sorter.js:164-170 | "10" sorts after "2" ascending and before it descending: numeric cells compare by value, not as text |
| Comparator.TwoKeyExample | src/table-sorter.js:159-173 | rows that tie on the primary key are ordered by the secondary key: ("a",1) < ("a",2) < ("b",2) |
| RowOrder.SortInPlace | src/table-sorter.js:159-173 | rows.sort: afterwards the array holds a permutation of its former contents, and each element compares at most equal to its successor |
| RowOrder.InsertLast | src/table-sorter.js:159-173 | one insertion step: the ordered prefix grows by one element, the array stays a permutation and the elements after it do not move |
| RowOrder.TransitiveOnPermutation | src/table-sorter.js:159-173 | a comparison transitive on the rows stays transitive on any permutation of them |
| RowOrder.OrderedPermutationSorted | src/table-sorter.js:159-173 | an ordered permutation of rows on which the comparison is transitive is sorted: every row compares at most equal to every later one |
| RowOrder.OrderedIsSorted | src/table-sorter.js:159-173 | when the comparison is transitive on the rows, adjacent order gives order between every pair |
| Text.TrimStartIsSuffix | src/table-sorter.js:73 | the whitespace skip at the start of parseInt and parseFloat removes exactly the leading whitespace |
| Text.Trim | src/table-sorter.js:161-162 | String.prototype.trim: whitespace removed from both ends (its properties: Text.TrimIsInfix) |
| Text.TrimIsInfix | src/table-sorter.js:161-162 | trim leaves the infix of the text obtained by cutting whitespace from both ends, with no whitespace left at either end |
| Text.DigitRunIsDigits | src/table-sorter.js:73 | the digits parseInt reads are the longest run of decimal digits |
| Text.ParseInt | src/table-sorter.js:73 | parseInt(s, 10) is NaN exactly when no digit follows the leading whitespace and optional sign |
| Text.ParseFloat | src/table-sorter.js:164-165 | parseFloat is NaN exactly when no decimal literal (a digit, or a point and a digit) follows the leading whitespace and optional sign |
| Text.NatToStringDigits | src/table-sorter.js:81 | String(n) of a natural number is a non-empty run of digits without a leading zero |
| Text.NatToStringValue | src/table-sorter.js:81 | the digits String prints denote the number printed |
| Text.DigitRunOfDigits | src/table-sorter.js:73 | parseInt's digit run stops at the first character that is not a digit |
| Text.IntToString | src/table-sorter.js:81 | String(index) for an integer index (its properties: Text.IntToStringShape, Text.ParseIntOfInt) |
| Text.IntToStringShape | src/table-sorter.js:81 | String(n) is an optional minus sign followed by the digits of the magnitude |
| Text.ParseIntOfInt | src/table-sorter.js:73-81 | parseInt reads back every integer String prints, followed by any text that does not start with a digit |
| Text.ParseFloatOfInt | src/table-sorter.js:164-165 | parseFloat reads back every integer String prints |
| Headers.ResolveIndex | src/table-sorter.js:72-73 | an empty data-sort value gives the header's position among all headers carrying data-sort. A non-empty value gives NaN exactly when parseInt finds no digits |
| Headers.ResolveExplicit | src/table-sorter.js:72-73 | an explicit value gives the integer it starts with: "2", "2px" and "-1" give 2, 2 and -1 |
| Headers.Register | src/table-sorter.js:70-95 | a header whose index is NaN is left as it was. Otherwise its data-sort value becomes the index as String prints it, it gets the "sortable" class, keeps its "sort-active" class, and keeps its icon or gets a new one without "desc" |
| Headers.RegisterReadsBack | src/table-sorter.js:81-101 | the data-sort value init writes back reads, under parseInt, as the index init resolved, so updateHeaderClasses marks the same column the click handler sorts by |
| Headers.Refresh | src/table-sorter.js:182-194 | a header is active exactly when its parsed index occurs in the state; its icon has "desc" exactly when the first entry for that index is descending; the rest of the header is unchanged |
| Widget.TableSorter.constructor | src/table-sorter.js:53-57 | a new sorter has the empty state and no click handlers |
| Widget.TableSorter.RegisterHeaders | src/table-sorter.js:69-103 | every header becomes its Register image, and its handler is the index it resolved to. The sort state is unchanged, and every handler's column is what that header's data-sort value reads back as |
| Widget.TableSorter.Init | src/table-sorter.js:59-116 | the headers are registered. When no state was saved, the state and the rows are unchanged. When one was, the sorter adopts it: the rows become an ordered permutation (sorted where the comparator is transitive on them), and the headers are refreshed |
| Widget.TableSorter.Click | src/table-sorter.js:98-102 | a click on a header without a handler changes nothing. A click on one with a handler does what sort does for that handler's column: the state moves by Next, the rows become a permutation of themselves, ordered under the new state (sorted where the comparator is transitive on them), every header is refreshed, and the clicked header is marked active |
| Widget.TableSorter.Sort | src/table-sorter.js:118-144 | it moves the state by Next and keeps distinct columns distinct. The rows become a permutation of themselves, ordered under the new state, and sorted where the comparator is transitive on them. Every header is refreshed |
| Widget.TableSorter.ApplySort | src/table-sorter.js:153-176 | the body rows become a permutation of themselves, each at most equal to the next under the comparator, and each at most equal to every later one where the comparator is transitive on them |
| Widget.TableSorter.WriteBack | src/table-sorter.js:175 | after the forEach that re-appends the sorted rows, the body holds them in that order |
| Widget.TableSorter.UpdateHeaderClasses | src/table-sorter.js:178-194 | every header is replaced by its Refresh image and nothing else changes |

## Left out

- ensureStyles and the CSS block: style injection into the page, with no effect on the state.
- The icon's SVG markup, preventDefault and stopPropagation. An icon is modelled only by whether it has the "desc" class.
- localStorage and JSON:
  - The saved state reaches `Init` as an optional, already parsed list of criteria. None covers three cases that all leave the state as it was. A missing key or an empty string fails the `if (saved)` test and nothing is logged. A value that JSON.parse rejects throws before the assignment, and init logs it.
  - A stored value that parses but is not a list of criteria ("null", "0", "{}", "[null]") is not modelled. The source assigns it to sortOrders (src/table-sorter.js:109) before applySort or updateHeaderClasses throws, and the catch only logs. Every later sort then throws at findIndex (src/table-sorter.js:119), before setItem could overwrite the value, so the table stays unusable.
  - The write at the end of sort is left out: it only serialises the state, and a failure there only logs.
- console.warn, and the lookup of the table by id. The model starts from a table that has been found. A table without a body is modelled as an empty body, on which applySort changes nothing.
- The event object, beyond whether Shift is held.
- Floating point:
  - parseFloat is modelled over finite decimal literals, with their exact real value.
  - "Infinity", rounding to the nearest double and exponent overflow are not modelled.
  - numA - numB is exact subtraction of reals.
- localeCompare is a parameter of the sorter. It is required to be exactly antisymmetric, collate(x, y) == -collate(y, x). ECMAScript asks only for results of opposite sign, so the model covers a subset of the collations a host may use. What it returns otherwise is left open.
- Characters are Unicode scalar values, not UTF-16 code units.
- Widget.TableSorter.Init: requires that no handler is attached yet, so it models one call of init. A second call would attach a second handler to each header.
- Widget.TableSorter.ApplySort: Array.prototype.sort is replaced by an insertion sort. The host's order of ties is not modelled.
- RowOrder.SortInPlace: requires only an antisymmetric comparison and then promises adjacent order. For a comparator that is not transitive, which the widget's comparator can be on a column mixing numbers and text, that order is what insertion sort gives. The host sort's result is then implementation-defined, and the model does not capture it.
- Headers.ResolveIndex, Headers.Register, Headers.RegisterReadsBack: do not model the width of JavaScript numbers. parseInt and String(n) work on unbounded integers here.
  - Above 2^53 parseInt rounds: "9007199254740993" reads as 9007199254740992, and that is the value written back.
  - From 10^21 on, String prints an exponent form such as "1e+21", which parseInt at line 183 reads as 1. The column the click handler sorts by and the column marked active then differ, which is exactly the read-back RegisterReadsBack proves for unbounded integers.
  - Text.IntToString is therefore String(n) only for integers JavaScript prints without an exponent.
