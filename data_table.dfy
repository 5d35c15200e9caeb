/**
  The decision logic the generic data table owns itself: which columns get a
  filter widget and which kind, the suggestion list of a text filter, the
  update of one bound of a numeric range filter, the fuzzy filter (registered
  with the table library as column and global filter) and the fuzzy sort
  (defined beside it but registered nowhere), the rebuild of the
  selected-rows list from the selection state, and `isValidDate`.

  The table library's row models and the ranking library are not part of
  this model: `rankItem`, `compareItems` and `sortingFns.alphanumeric` are
  function parameters, and the faceted values and selected-row lookup are
  inputs.
*/
module DataTable {
  import JsSort

  datatype Option<T> = None | Some(value: T)

  /** A cell value as a column accessor returns it; `Null` stands for both
      `null` and `undefined`. */
  datatype Value = Num(n: int) | DateV(time: int) | Str(s: string) | Null

  // ---------------------------------------------------------------------------
  // Which columns get a filter widget

  /** Columns that never get a filter widget, whatever their definition says. */
  const ColumnsToExclude: seq<string> := ["id", "actions", "detalles"]

  /** A header shows a filter widget when its column can be filtered and is not excluded. */
  function ShowsFilter(canFilter: bool, columnId: string): (r: bool)
    ensures r <==> canFilter && columnId != "id" && columnId != "actions" && columnId != "detalles"
  {
    canFilter && columnId !in ColumnsToExclude
  }

  // ---------------------------------------------------------------------------
  // Which filter widget a column gets

  datatype FilterKind = DateRangeFilter | NumberRangeFilter | TextFilter

  /** `Array.prototype.some(v => v instanceof Date)`. */
  function SomeDate(values: seq<Value>): (b: bool)
    ensures b <==> exists i :: 0 <= i < |values| && values[i].DateV?
  {
    if values == [] then false else values[0].DateV? || SomeDate(values[1..])
  }

  /** The first pre-filtered row's value in the column, `undefined` when there are no rows. */
  function FirstValue(values: seq<Value>): Value {
    if values == [] then Null else values[0]
  }

  /** The widget of a column whose pre-filtered rows hold `values`, in row order:
      a date range when any value is a date, otherwise a numeric range when the
      first value is a number, otherwise text. */
  function ChooseFilterKind(values: seq<Value>): (k: FilterKind)
    ensures k == DateRangeFilter <==> exists i :: 0 <= i < |values| && values[i].DateV?
    ensures k == NumberRangeFilter <==>
      (forall i :: 0 <= i < |values| ==> !values[i].DateV?) && |values| > 0 && values[0].Num?
    ensures k == TextFilter <==>
      (forall i :: 0 <= i < |values| ==> !values[i].DateV?) && (values == [] || !values[0].Num?)
  {
    if SomeDate(values) then DateRangeFilter
    else if FirstValue(values).Num? then NumberRangeFilter
    else TextFilter
  }

  /** A date anywhere in the column wins over a numeric first value. */
  lemma DateWinsOverNumber(values: seq<Value>, i: nat)
    requires |values| > 0 && values[0].Num?
    requires i < |values| && values[i].DateV?
    ensures ChooseFilterKind(values) == DateRangeFilter
  {
  }

  // ---------------------------------------------------------------------------
  // Suggestions of a text filter

  /** How many suggestions the text filter's datalist renders at most. */
  const MaxSuggestions: nat := 5000

  /** The sorted faceted values of the column, or none when its first value is a number. */
  function SortedUniqueValues(firstValue: Value, facetedKeys: seq<string>): (r: seq<string>)
    ensures firstValue.Num? ==> r == []
    ensures !firstValue.Num? ==> JsSort.Sorted(r) && multiset(r) == multiset(facetedKeys)
  {
    if firstValue.Num? then [] else JsSort.Sort(facetedKeys)
  }

  /** The datalist options: the first 5000 of the sorted faceted values. */
  function Suggestions(firstValue: Value, facetedKeys: seq<string>): (r: seq<string>)
    ensures |r| <= MaxSuggestions
    // the rendered options are the leading values of the sorted list
    ensures |r| <= |SortedUniqueValues(firstValue, facetedKeys)| &&
      r == SortedUniqueValues(firstValue, facetedKeys)[..|r|]
    ensures firstValue.Num? ==> r == []
    ensures JsSort.Sorted(r)
    ensures forall i :: 0 <= i < |r| ==> r[i] in facetedKeys
    ensures !firstValue.Num? && |facetedKeys| <= MaxSuggestions ==>
      multiset(r) == multiset(facetedKeys)
    ensures |facetedKeys| > MaxSuggestions && !firstValue.Num? ==> |r| == MaxSuggestions
  {
    var all := SortedUniqueValues(firstValue, facetedKeys);
    var r := if |all| <= MaxSuggestions then all else all[..MaxSuggestions];
    assert |all| == if firstValue.Num? then 0 else |facetedKeys| by {
      if !firstValue.Num? {
        assert |multiset(all)| == |multiset(facetedKeys)|;
      }
    }
    forall i | 0 <= i < |r| ensures r[i] in facetedKeys {
      assert r[i] == all[i] && all[i] in multiset(all);
    }
    r
  }

  /** Every rendered suggestion precedes, in string order, every sorted value
      that was cut off. */
  lemma SuggestionsComeFirst(firstValue: Value, facetedKeys: seq<string>, i: nat, j: nat)
    requires i < |Suggestions(firstValue, facetedKeys)|
    requires |Suggestions(firstValue, facetedKeys)| <= j < |SortedUniqueValues(firstValue, facetedKeys)|
    ensures JsSort.LexLeq(Suggestions(firstValue, facetedKeys)[i],
                          SortedUniqueValues(firstValue, facetedKeys)[j])
  {
    var all := SortedUniqueValues(firstValue, facetedKeys);
    assert Suggestions(firstValue, facetedKeys)[i] == all[i];
    JsSort.SortedPairwise(all, i, j);
  }

  // ---------------------------------------------------------------------------
  // Numeric range filter

  /** The `[min, max]` filter value of a numeric column; an absent bound is `undefined`. */
  datatype RangeFilter<T> = RangeFilter(min: Option<T>, max: Option<T>)

  /** The Min input's update `old => [value, old?.[1]]`. */
  function SetMin<T>(prev: Option<RangeFilter<T>>, value: T): (r: RangeFilter<T>)
    ensures r.min == Some(value)
    ensures r.max == if prev.Some? then prev.value.max else None
  {
    RangeFilter(Some(value), if prev.Some? then prev.value.max else None)
  }

  /** The Max input's update `old => [old?.[0], value]`. */
  function SetMax<T>(prev: Option<RangeFilter<T>>, value: T): (r: RangeFilter<T>)
    ensures r.max == Some(value)
    ensures r.min == if prev.Some? then prev.value.min else None
  {
    RangeFilter(if prev.Some? then prev.value.min else None, Some(value))
  }

  /** Editing both inputs sets both bounds, in either order. */
  lemma MinMaxIndependent<T>(prev: Option<RangeFilter<T>>, lo: T, hi: T)
    ensures SetMax(Some(SetMin(prev, lo)), hi) == RangeFilter(Some(lo), Some(hi))
    ensures SetMin(Some(SetMax(prev, hi)), lo) == RangeFilter(Some(lo), Some(hi))
  {
  }

  /** The last edit of a bound wins, and the other bound survives it. */
  lemma LastEditWins<T>(prev: Option<RangeFilter<T>>, a: T, b: T)
    ensures SetMin(Some(SetMin(prev, a)), b) == SetMin(prev, b)
    ensures SetMax(Some(SetMax(prev, a)), b) == SetMax(prev, b)
  {
  }

  // ---------------------------------------------------------------------------
  // Fuzzy filter and fuzzy sort

  /** A row as the filter and sort functions see it: the original record and
      the filter meta (the ranking information) recorded per column id. */
  datatype TableRow<D, R> = TableRow(original: D, filtersMeta: map<string, R>)

  /** The outcome of `fuzzyFilter` on one row: whether the row is kept, and
      the row after `addMeta` has recorded the rank for the column. */
  datatype FilterStep<D, R> = FilterStep(keep: bool, row: TableRow<D, R>)

  /** `fuzzyFilter`: rank the cell value against the filter value, record the
      rank as the row's filter meta for the column, keep the row when it passed. */
  function FuzzyFilter<D, V, Q, R>(
    rankItem: (V, Q) -> R, passed: R -> bool,
    row: TableRow<D, R>, columnId: string, cell: V, query: Q): (r: FilterStep<D, R>)
    ensures r.keep <==> passed(rankItem(cell, query))
    ensures r.row.original == row.original
    ensures columnId in r.row.filtersMeta && r.row.filtersMeta[columnId] == rankItem(cell, query)
    ensures r.row.filtersMeta.Keys == row.filtersMeta.Keys + {columnId}
    ensures forall c :: c in row.filtersMeta && c != columnId ==>
      r.row.filtersMeta[c] == row.filtersMeta[c]
  {
    var itemRank := rankItem(cell, query);
    FilterStep(passed(itemRank), TableRow(row.original, row.filtersMeta[columnId := itemRank]))
  }

  function MetaOf<D, R>(row: TableRow<D, R>, columnId: string): Option<R> {
    if columnId in row.filtersMeta then Some(row.filtersMeta[columnId]) else None
  }

  /** `fuzzySort`: compare by rank when rowA has ranking information for the
      column (rowB's may be absent, and is then passed as `undefined`), and
      fall back to the alphanumeric comparison when there is none or the ranks tie. */
  function FuzzySort<D, R>(
    compareItems: (R, Option<R>) -> int,
    alphanumeric: (TableRow<D, R>, TableRow<D, R>, string) -> int,
    rowA: TableRow<D, R>, rowB: TableRow<D, R>, columnId: string): (r: int)
    ensures columnId !in rowA.filtersMeta ==> r == alphanumeric(rowA, rowB, columnId)
    ensures columnId in rowA.filtersMeta ==>
      var dir := compareItems(rowA.filtersMeta[columnId], MetaOf(rowB, columnId));
      (dir == 0 ==> r == alphanumeric(rowA, rowB, columnId)) && (dir != 0 ==> r == dir)
  {
    var dir := if columnId in rowA.filtersMeta
      then compareItems(rowA.filtersMeta[columnId], MetaOf(rowB, columnId))
      else 0;
    if dir == 0 then alphanumeric(rowA, rowB, columnId) else dir
  }

  /** A comparison that reverses sign when its arguments are swapped. */
  ghost predicate RankCompareAntisymmetric<R(!new)>(compareItems: (R, Option<R>) -> int) {
    forall a, b :: compareItems(a, Some(b)) == -compareItems(b, Some(a))
  }

  ghost predicate RowCompareAntisymmetric<D(!new), R(!new)>(
    alphanumeric: (TableRow<D, R>, TableRow<D, R>, string) -> int) {
    forall a, b, c :: alphanumeric(a, b, c) == -alphanumeric(b, a, c)
  }

  /** When both rows carry ranking information for the column, or neither
      does, swapping them negates the comparison, so the sort order is
      consistent. */
  lemma FuzzySortAntisymmetric<D(!new), R(!new)>(
    compareItems: (R, Option<R>) -> int,
    alphanumeric: (TableRow<D, R>, TableRow<D, R>, string) -> int,
    rowA: TableRow<D, R>, rowB: TableRow<D, R>, columnId: string)
    requires RankCompareAntisymmetric(compareItems) && RowCompareAntisymmetric(alphanumeric)
    requires (columnId in rowA.filtersMeta) == (columnId in rowB.filtersMeta)
    ensures FuzzySort(compareItems, alphanumeric, rowA, rowB, columnId) ==
      -FuzzySort(compareItems, alphanumeric, rowB, rowA, columnId)
  {
  }

  /** Once the fuzzy filter has ranked both rows for a column, the sort
      compares the two ranks it recorded, and falls back to the alphanumeric
      comparison exactly when they tie. This is the pairing `fuzzySort` is
      written for; the table options register no sorting function, so the
      program itself never runs this sort after this filter. */
  lemma FuzzySortAfterFilter<D, V, Q, R>(
    rankItem: (V, Q) -> R, passed: R -> bool,
    compareItems: (R, Option<R>) -> int,
    alphanumeric: (TableRow<D, R>, TableRow<D, R>, string) -> int,
    rowA: TableRow<D, R>, cellA: V, rowB: TableRow<D, R>, cellB: V,
    columnId: string, query: Q)
    ensures
      var a := FuzzyFilter(rankItem, passed, rowA, columnId, cellA, query).row;
      var b := FuzzyFilter(rankItem, passed, rowB, columnId, cellB, query).row;
      var dir := compareItems(rankItem(cellA, query), Some(rankItem(cellB, query)));
      FuzzySort(compareItems, alphanumeric, a, b, columnId) ==
        if dir == 0 then alphanumeric(a, b, columnId) else dir
  {
  }

  // ---------------------------------------------------------------------------
  // The selected-rows list

  /** A row's `id`: the tables hold numeric or string ids. */
  datatype Id = NumId(n: int) | StrId(s: string)

  datatype Record = Record(id: Id, fields: map<string, Value>)

  /** `row.id === key`: strict equality with a selection key, which is always a string. */
  predicate IdIsKey(id: Id, key: string) {
    id == StrId(key)
  }

  /** The outcome of `prev.find(row => row.id === key)`: the first match, no
      match (`undefined`), or a TypeError when the search reaches an
      `undefined` entry of `prev` (reading `.id` of `undefined`) before a match. */
  datatype FindResult = Found(row: Record) | NotFound | FindTypeError

  /** Position `i` of `prev` holds a row whose id is `key`, and every entry
      before it is a row with another id. */
  predicate FirstMatchAt(prev: seq<Option<Record>>, key: string, i: nat)
    requires i < |prev|
  {
    && prev[i].Some? && IdIsKey(prev[i].value.id, key)
    && forall j :: 0 <= j < i ==> prev[j].Some? && !IdIsKey(prev[j].value.id, key)
  }

  /** Past a row with another id, the first match moves one position down. */
  lemma FirstMatchShift(prev: seq<Option<Record>>, key: string)
    requires prev != [] && prev[0].Some? && !IdIsKey(prev[0].value.id, key)
    ensures forall i :: 0 <= i < |prev| - 1 ==>
      (FirstMatchAt(prev[1..], key, i) <==> FirstMatchAt(prev, key, i + 1))
    ensures (exists i :: 0 <= i < |prev| && FirstMatchAt(prev, key, i)) <==>
      (exists i :: 0 <= i < |prev| - 1 && FirstMatchAt(prev[1..], key, i))
  {
    assert forall i :: 0 <= i < |prev| - 1 ==>
      (FirstMatchAt(prev[1..], key, i) <==> FirstMatchAt(prev, key, i + 1)) by {
      forall i | 0 <= i < |prev| - 1
        ensures FirstMatchAt(prev[1..], key, i) <==> FirstMatchAt(prev, key, i + 1)
      {
        assert forall j :: 0 <= j < i ==> prev[1..][j] == prev[j + 1];
      }
    }
    if i :| 0 <= i < |prev| && FirstMatchAt(prev, key, i) {
      assert i != 0;
      assert FirstMatchAt(prev[1..], key, i - 1);
    }
  }

  function FindByKey(prev: seq<Option<Record>>, key: string): (r: FindResult)
    ensures r.Found? <==> (exists i :: 0 <= i < |prev| && FirstMatchAt(prev, key, i))
    ensures r.Found? ==> (exists i :: 0 <= i < |prev| && FirstMatchAt(prev, key, i) && prev[i] == Some(r.row))
    ensures r == NotFound <==>
      (forall i :: 0 <= i < |prev| ==> prev[i].Some? && !IdIsKey(prev[i].value.id, key))
  {
    if prev == [] then NotFound
    else if prev[0].None? then FindTypeError
    else if IdIsKey(prev[0].value.id, key) then
      assert FirstMatchAt(prev, key, 0);
      Found(prev[0].value)
    else
      FirstMatchShift(prev, key);
      FindByKey(prev[1..], key)
  }

  /** The rebuilt selected-rows list, or the TypeError that aborts the rebuild.
      Entries are `None` where neither lookup found a row (`undefined`). */
  datatype Rebuild = Rebuilt(rows: seq<Option<Record>>) | RebuildTypeError

  /** The entry for one selection key: the selected row with that id, or else
      the previous list's entry with that id. */
  function EntryFor(selectedById: map<string, Record>, prev: seq<Option<Record>>, key: string): FindResult {
    if key in selectedById then Found(selectedById[key]) else FindByKey(prev, key)
  }

  /** `handleSelectionState`: one entry per key of the selection map, in key order. */
  function RebuildSelectedRows(
    keys: seq<string>, selectedById: map<string, Record>, prev: seq<Option<Record>>): (r: Rebuild)
    ensures r.RebuildTypeError? <==>
      exists i :: 0 <= i < |keys| && EntryFor(selectedById, prev, keys[i]).FindTypeError?
    ensures r.Rebuilt? ==> |r.rows| == |keys| && forall i :: 0 <= i < |keys| ==>
      r.rows[i] == match EntryFor(selectedById, prev, keys[i]) {
        case Found(row) => Some(row)
        case _ => None
      }
  {
    if keys == [] then Rebuilt([])
    else
      var e := EntryFor(selectedById, prev, keys[0]);
      if e.FindTypeError? then RebuildTypeError
      else
        var entry := if e.Found? then Some(e.row) else None;
        match RebuildSelectedRows(keys[1..], selectedById, prev)
        case RebuildTypeError => RebuildTypeError
        case Rebuilt(rest) => Rebuilt([entry] + rest)
  }

  /** When every key names a currently selected row, the list is exactly those rows. */
  lemma RebuildFromSelection(keys: seq<string>, selectedById: map<string, Record>, prev: seq<Option<Record>>)
    requires forall i :: 0 <= i < |keys| ==> keys[i] in selectedById
    ensures RebuildSelectedRows(keys, selectedById, prev) ==
      Rebuilt(seq(|keys|, i requires 0 <= i < |keys| => Some(selectedById[keys[i]])))
  {
  }

  /** A previous list without `undefined` entries never makes the rebuild throw. */
  lemma RebuildTotalOnDefinedPrev(keys: seq<string>, selectedById: map<string, Record>, prev: seq<Option<Record>>)
    requires forall j :: 0 <= j < |prev| ==> prev[j].Some?
    ensures RebuildSelectedRows(keys, selectedById, prev).Rebuilt?
  {
    forall i | 0 <= i < |keys| ensures !EntryFor(selectedById, prev, keys[i]).FindTypeError? {
      FindNeverThrowsOnDefined(prev, keys[i]);
    }
  }

  lemma {:induction false} FindNeverThrowsOnDefined(prev: seq<Option<Record>>, key: string)
    requires forall j :: 0 <= j < |prev| ==> prev[j].Some?
    ensures !FindByKey(prev, key).FindTypeError?
  {
    if prev != [] && !IdIsKey(prev[0].value.id, key) {
      FindNeverThrowsOnDefined(prev[1..], key);
    }
  }

  /** The fallback to the previous list can only recover rows with string ids:
      a row with a numeric id that is no longer selected gets an `undefined` entry. */
  lemma FallbackOnlyRecoversStringIds(
    keys: seq<string>, selectedById: map<string, Record>, prev: seq<Option<Record>>, i: nat)
    requires RebuildSelectedRows(keys, selectedById, prev).Rebuilt?
    requires i < |keys| && keys[i] !in selectedById
    ensures var e := RebuildSelectedRows(keys, selectedById, prev).rows[i];
      e.None? || e.value.id == StrId(keys[i])
  {
  }

  /** `selectedRows.map(row => row.id)`: the ids handed to the bulk delete, or
      `None` for the TypeError raised by an `undefined` entry. */
  function SelectedIds(rows: seq<Option<Record>>): (r: Option<seq<Id>>)
    ensures r.Some? <==> forall i :: 0 <= i < |rows| ==> rows[i].Some?
    ensures r.Some? ==> (|r.value| == |rows| &&
      forall i :: 0 <= i < |rows| ==> r.value[i] == rows[i].value.id)
  {
    if rows == [] then Some([])
    else if rows[0].None? then None
    else
      match SelectedIds(rows[1..])
      case None => None
      case Some(ids) => Some([rows[0].value.id] + ids)
  }

  // ---------------------------------------------------------------------------
  // isValidDate

  /** The JavaScript values `isValidDate` handles: a number (possibly NaN), a
      `Date` object whose time value is absent for an invalid date, or anything else. */
  datatype JsValue = JsNumber(isNaN: bool) | JsDate(time: Option<int>) | JsOther

  /** `new Date(d)` for a string `d`, with the engine's date parsing as `parse`. */
  function NewDate(parse: string -> Option<int>, d: string): JsValue {
    JsDate(parse(d))
  }

  /** `Number.isNaN`: true only for the number NaN, never for an object. */
  predicate NumberIsNaN(v: JsValue) {
    v.JsNumber? && v.isNaN
  }

  /** `isValidDate` as written: `new Date(d)` is always a Date and never the
      number NaN, so every input is accepted. */
  function IsValidDate(parse: string -> Option<int>, d: string): (r: bool)
    ensures r
  {
    var parsed := NewDate(parse, d);
    parsed.JsDate? && !NumberIsNaN(parsed)
  }

  /** A string the date parser rejects is still reported valid. */
  lemma IsValidDateAcceptsUnparsable()
    ensures var parse := (s: string) => if s == "2024-01-31" then Some(1706659200000) else None;
      parse("Invalid Date") == None && IsValidDate(parse, "Invalid Date")
  {
  }

  /** The evident intent: a date is valid when its time value is a number,
      `!Number.isNaN(parsedDate.getTime())`. */
  function IsValidDateIntended(parse: string -> Option<int>, d: string): (r: bool)
    ensures r <==> parse(d).Some?
  {
    var parsed := NewDate(parse, d);
    parsed.JsDate? && parsed.time.Some?
  }
}
