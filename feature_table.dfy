/**
 * The data tab: column discovery, the row projection with its polygon count,
 * the numeric-then-string comparator and the sorted copy it drives, the
 * two-field sort state, the CSV serializer and the date-column test.
 */
module FeatureTable {
  import opened Wrappers
  import opened Text
  import opened Json
  import opened Types

  // ---------------------------------------------------------------------------
  // Column discovery

  /** The names of an object's members, in enumeration order (`Object.keys`). */
  function Keys(members: seq<(string, Value)>): (r: seq<string>)
    ensures |r| == |members|
    ensures forall i :: 0 <= i < |members| ==> r[i] == members[i].0
  {
    seq(|members|, i requires 0 <= i < |members| => members[i].0)
  }

  predicate AllFeatures(features: seq<Value>) {
    forall i :: 0 <= i < |features| ==> IsRegionFeature(features[i])
  }

  /** The property keys of the features, feature after feature, repeats included. */
  function KeyStream(features: seq<Value>): seq<string>
    requires AllFeatures(features)
  {
    if features == [] then []
    else KeyStream(features[..|features| - 1]) + Keys(Properties(features[|features| - 1]))
  }

  /** The columns of a collection: every property key once, in first-seen order. */
  function Columns(geojson: Option<RegionFeatureCollection>): seq<string>
    requires geojson.Some? ==> WellTyped(geojson.value)
  {
    if geojson.None? || |geojson.value.features| == 0 then [] else Dedup(KeyStream(geojson.value.features))
  }

  /** De-duplicating one more element. */
  lemma DedupSnoc(s: seq<string>, x: string)
    ensures Dedup(s + [x]) == if x in Dedup(s) then Dedup(s) else Dedup(s) + [x]
  {
    assert (s + [x])[..|s + [x]| - 1] == s;
  }

  /** Growing a prefix of `b` by one element, after `a`. */
  lemma PrefixStep<T>(a: seq<T>, b: seq<T>, j: nat)
    requires j < |b|
    ensures a + b[..j + 1] == (a + b[..j]) + [b[j]]
  {
    assert b[..j + 1] == b[..j] + [b[j]];
  }

  /** `getAllPropertyKeys`: adds each key of each feature to an insertion-ordered set. */
  method AllPropertyKeys(geojson: Option<RegionFeatureCollection>) returns (keys: seq<string>)
    requires geojson.Some? ==> WellTyped(geojson.value)
    ensures keys == Columns(geojson)
  {
    if geojson.None? || |geojson.value.features| == 0 {
      return [];
    }
    var features := geojson.value.features;
    keys := [];
    var i := 0;
    while i < |features|
      invariant 0 <= i <= |features|
      invariant keys == Dedup(KeyStream(features[..i]))
    {
      var ks := Keys(Properties(features[i]));
      assert features[..i + 1][..i] == features[..i];
      assert KeyStream(features[..i + 1]) == KeyStream(features[..i]) + ks;
      keys := AddKeys(keys, KeyStream(features[..i]), ks);
      i := i + 1;
    }
    assert features[..i] == features;
  }

  /** The inner loop of `getAllPropertyKeys`: adds the keys of one feature to the set `keys`. */
  method AddKeys(keys: seq<string>, ghost before: seq<string>, ks: seq<string>) returns (r: seq<string>)
    requires keys == Dedup(before)
    ensures r == Dedup(before + ks)
  {
    r := keys;
    var j := 0;
    assert before + ks[..0] == before;
    while j < |ks|
      invariant 0 <= j <= |ks|
      invariant r == Dedup(before + ks[..j])
    {
      DedupSnoc(before + ks[..j], ks[j]);
      PrefixStep(before, ks, j);
      if ks[j] !in r {
        r := r + [ks[j]];
      }
      j := j + 1;
    }
    assert ks[..j] == ks;
  }

  /** A key of a feature appears in the key stream. */
  lemma {:induction false} KeyInStream(features: seq<Value>, i: nat, k: nat)
    requires AllFeatures(features)
    requires i < |features| && k < |Properties(features[i])|
    ensures Properties(features[i])[k].0 in KeyStream(features)
  {
    var n := |features| - 1;
    var init := features[..n];
    if i < n {
      assert init[i] == features[i];
      KeyInStream(init, i, k);
    } else {
      assert Keys(Properties(features[n]))[k] == Properties(features[i])[k].0;
    }
  }

  /** Every member of the key stream is a key of some feature. */
  lemma {:induction false} StreamHasKey(features: seq<Value>, x: string)
    requires AllFeatures(features)
    requires x in KeyStream(features)
    ensures exists i, k :: 0 <= i < |features| && 0 <= k < |Properties(features[i])| && Properties(features[i])[k].0 == x
  {
    var n := |features| - 1;
    var init := features[..n];
    var ks := Keys(Properties(features[n]));
    if x in KeyStream(init) {
      StreamHasKey(init, x);
      var i, k :| 0 <= i < |init| && 0 <= k < |Properties(init[i])| && Properties(init[i])[k].0 == x;
      assert init[i] == features[i];
    } else {
      var k :| 0 <= k < |ks| && ks[k] == x;
      assert Properties(features[n])[k].0 == x;
    }
  }

  /**
   * Column discovery: every key of every feature is a column, every column is
   * a key of some feature, and no column appears twice.
   */
  lemma ColumnsAreKeys(c: RegionFeatureCollection)
    requires WellTyped(c)
    ensures Distinct(Columns(Some(c)))
    ensures forall i, k :: 0 <= i < |c.features| && 0 <= k < |Properties(c.features[i])| ==>
              Properties(c.features[i])[k].0 in Columns(Some(c))
    ensures forall x :: x in Columns(Some(c)) ==>
              exists i, k :: 0 <= i < |c.features| && 0 <= k < |Properties(c.features[i])| && Properties(c.features[i])[k].0 == x
  {
    forall i, k | 0 <= i < |c.features| && 0 <= k < |Properties(c.features[i])|
      ensures Properties(c.features[i])[k].0 in Columns(Some(c))
    {
      KeyInStream(c.features, i, k);
    }
    forall x | x in Columns(Some(c))
      ensures exists i, k :: 0 <= i < |c.features| && 0 <= k < |Properties(c.features[i])| && Properties(c.features[i])[k].0 == x
    {
      StreamHasKey(c.features, x);
    }
  }

  /** Columns are listed in the order their keys are first seen across the features. */
  lemma ColumnsFirstSeen(c: RegionFeatureCollection, i: nat, j: nat)
    requires WellTyped(c) && i < j < |Columns(Some(c))|
    ensures FirstIndex(KeyStream(c.features), Columns(Some(c))[i]) < FirstIndex(KeyStream(c.features), Columns(Some(c))[j])
  {
    DedupFirstSeenOrder(KeyStream(c.features), i, j);
  }

  /** No collection, or one without features, has no columns. */
  lemma NoColumns(geojson: Option<RegionFeatureCollection>)
    requires geojson.Some? ==> WellTyped(geojson.value)
    requires geojson.None? || geojson.value.features == []
    ensures Columns(geojson) == []
  {
  }

  // ---------------------------------------------------------------------------
  // Rows

  /** A table row: the feature's properties and the polygon count set after them. */
  datatype Row = Row(props: seq<(string, Value)>, polygonCount: nat)

  const PolygonCountKey: string := "polygon_count"

  /** `row[col]`: the count under its own key (it overrides a property of that name), else the property. */
  function Cell(row: Row, col: string): Option<Value> {
    if col == PolygonCountKey then Some(JNumber(row.polygonCount)) else Get(row.props, col)
  }

  /** The number of entries of `geometry.coordinates` when that is an array, else 0. */
  function PolygonCount(f: Value): nat
    requires IsRegionFeature(f)
  {
    match Coordinates(f)
    case Some(JArray(items)) => |items|
    case _ => 0
  }

  function RowOf(f: Value): Row
    requires IsRegionFeature(f)
  {
    Row(Properties(f), PolygonCount(f))
  }

  /** The rows of the table, one per feature; none without a collection. */
  function Rows(geojson: Option<RegionFeatureCollection>): seq<Row>
    requires geojson.Some? ==> WellTyped(geojson.value)
  {
    if geojson.None? then []
    else
      var fs := geojson.value.features;
      seq(|fs|, i requires 0 <= i < |fs| => RowOf(fs[i]))
  }

  /**
   * Row projection: one row per feature, in order; each reads the feature's
   * properties, except `polygon_count`, which reads the number of coordinate
   * entries.
   */
  lemma RowProjection(c: RegionFeatureCollection, i: nat, col: string)
    requires WellTyped(c) && i < |c.features|
    ensures |Rows(Some(c))| == |c.features|
    ensures col != PolygonCountKey ==> Cell(Rows(Some(c))[i], col) == Get(Properties(c.features[i]), col)
    ensures Cell(Rows(Some(c))[i], PolygonCountKey)
         == Some(JNumber(match Coordinates(c.features[i]) case Some(JArray(items)) => |items| case _ => 0))
  {
  }

  // ---------------------------------------------------------------------------
  // The comparator

  /** `String(a).localeCompare(String(b))`, with code-unit order standing for the locale's collation. */
  function StringCompare(a: string, b: string): int {
    if a == b then 0 else if LessEq(a, b) then -1 else 1
  }

  /** `compare(a, b)`: the difference of the numbers when both coerce to one, else string comparison. */
  function Compare(a: Option<Value>, b: Option<Value>): int {
    var x, y := ToJsNumber(a), ToJsNumber(b);
    if x.Some? && y.Some? then x.value - y.value else StringCompare(ToJsString(a), ToJsString(b))
  }

  function Sign(n: int): int {
    if n < 0 then -1 else if n > 0 then 1 else 0
  }

  /** The fallback order is antisymmetric. */
  lemma StringCompareAntisymmetric(a: string, b: string)
    ensures Sign(StringCompare(a, b)) == -Sign(StringCompare(b, a))
  {
    if a != b {
      if LessEq(a, b) && LessEq(b, a) {
        LessEqAntisymmetric(a, b);
      }
      LessEqTotal(a, b);
    }
  }

  /** The comparator is antisymmetric on every pair of cells. */
  lemma CompareAntisymmetric(a: Option<Value>, b: Option<Value>)
    ensures Sign(Compare(a, b)) == -Sign(Compare(b, a))
  {
    StringCompareAntisymmetric(ToJsString(a), ToJsString(b));
  }

  /** Every cell compares equal to itself. */
  lemma CompareReflexive(a: Option<Value>)
    ensures Compare(a, a) == 0
  {
  }

  /** Two cells that coerce to numbers compare by value. */
  lemma CompareNumbers(a: Option<Value>, b: Option<Value>)
    requires ToJsNumber(a).Some? && ToJsNumber(b).Some?
    ensures Sign(Compare(a, b)) == Sign(ToJsNumber(a).value - ToJsNumber(b).value)
  {
  }

  /** The string `"10"` sorts after `"9"`, although it comes first in code-unit order. */
  lemma TenAfterNine()
    ensures Compare(Some(JString("10")), Some(JString("9"))) > 0
    ensures StringCompare("10", "9") < 0
  {
    NumberOfDigits("10");
    NumberOfDigits("9");
  }

  // ---------------------------------------------------------------------------
  // Sorting

  datatype Direction = Asc | Desc

  /** The sort callback: the comparison of the cells in column `col`, negated when descending. */
  function Order(a: Row, b: Row, col: string, dir: Direction): int {
    var c := Compare(Cell(a, col), Cell(b, col));
    if dir == Asc then c else -c
  }

  lemma OrderAntisymmetric(a: Row, b: Row, col: string, dir: Direction)
    ensures Order(a, b, col, dir) > 0 ==> Order(b, a, col, dir) < 0
  {
    CompareAntisymmetric(Cell(a, col), Cell(b, col));
  }

  /** Stable insertion: `x` goes before the first row it does not sort after. */
  function Insert(x: Row, t: seq<Row>, col: string, dir: Direction): seq<Row> {
    if t == [] || Order(x, t[0], col, dir) <= 0 then [x] + t
    else [t[0]] + Insert(x, t[1..], col, dir)
  }

  /** A stable sort of `rows` by the callback. */
  function SortBy(rows: seq<Row>, col: string, dir: Direction): seq<Row> {
    if rows == [] then [] else Insert(rows[0], SortBy(rows[1..], col, dir), col, dir)
  }

  /** `sortedRows`: the rows as they are without a (truthy) sort column, else a sorted copy. */
  function SortedRows(rows: seq<Row>, sortColumn: Option<string>, dir: Direction): seq<Row> {
    if sortColumn.None? || sortColumn.value == "" then rows else SortBy(rows, sortColumn.value, dir)
  }

  /** Every neighbouring pair is in callback order. */
  predicate Ordered(s: seq<Row>, col: string, dir: Direction) {
    forall i :: 0 <= i < |s| - 1 ==> Order(s[i], s[i + 1], col, dir) <= 0
  }

  lemma {:induction false} InsertFacts(x: Row, t: seq<Row>, col: string, dir: Direction)
    ensures multiset(Insert(x, t, col, dir)) == multiset{x} + multiset(t)
    ensures |Insert(x, t, col, dir)| == |t| + 1
    ensures Insert(x, t, col, dir)[0] == x || (t != [] && Insert(x, t, col, dir)[0] == t[0])
  {
    if t != [] && Order(x, t[0], col, dir) > 0 {
      var rest := Insert(x, t[1..], col, dir);
      InsertFacts(x, t[1..], col, dir);
      assert Insert(x, t, col, dir) == [t[0]] + rest;
      assert t == [t[0]] + t[1..];
      assert multiset([t[0]] + rest) == multiset{t[0]} + multiset(rest);
      assert multiset(t) == multiset{t[0]} + multiset(t[1..]);
    } else {
      assert Insert(x, t, col, dir) == [x] + t;
    }
  }

  lemma {:induction false} InsertOrdered(x: Row, t: seq<Row>, col: string, dir: Direction)
    requires Ordered(t, col, dir)
    ensures Ordered(Insert(x, t, col, dir), col, dir)
  {
    if t != [] && Order(x, t[0], col, dir) > 0 {
      var rest := Insert(x, t[1..], col, dir);
      assert Ordered(t[1..], col, dir) by {
        forall i | 0 <= i < |t[1..]| - 1
          ensures Order(t[1..][i], t[1..][i + 1], col, dir) <= 0
        {
          assert t[1..][i] == t[i + 1] && t[1..][i + 1] == t[i + 2];
        }
      }
      InsertOrdered(x, t[1..], col, dir);
      InsertFacts(x, t[1..], col, dir);
      OrderAntisymmetric(x, t[0], col, dir);
      var r := [t[0]] + rest;
      forall i | 0 <= i < |r| - 1
        ensures Order(r[i], r[i + 1], col, dir) <= 0
      {
        if i > 0 {
          assert r[i] == rest[i - 1] && r[i + 1] == rest[i];
        }
      }
    }
  }

  /** The sorted copy is a permutation of the rows, ordered by the callback. */
  lemma {:induction false} SortByCorrect(rows: seq<Row>, col: string, dir: Direction)
    ensures multiset(SortBy(rows, col, dir)) == multiset(rows)
    ensures Ordered(SortBy(rows, col, dir), col, dir)
  {
    if rows != [] {
      SortByCorrect(rows[1..], col, dir);
      InsertFacts(rows[0], SortBy(rows[1..], col, dir), col, dir);
      InsertOrdered(rows[0], SortBy(rows[1..], col, dir), col, dir);
      assert rows == [rows[0]] + rows[1..];
    }
  }

  /**
   * `sortedRows` holds exactly the rows: unchanged without a sort column,
   * otherwise reordered so that each row sorts no later than the next.
   */
  lemma SortedRowsCorrect(rows: seq<Row>, sortColumn: Option<string>, dir: Direction)
    ensures multiset(SortedRows(rows, sortColumn, dir)) == multiset(rows)
    ensures sortColumn.None? || sortColumn.value == "" ==> SortedRows(rows, sortColumn, dir) == rows
    ensures sortColumn.Some? && sortColumn.value != "" ==> Ordered(SortedRows(rows, sortColumn, dir), sortColumn.value, dir)
  {
    if sortColumn.Some? && sortColumn.value != "" {
      SortByCorrect(rows, sortColumn.value, dir);
    }
  }

  /** The number a row holds in column `col`, when it coerces to one. */
  function NumberAt(r: Row, col: string): Option<int> {
    ToJsNumber(Cell(r, col))
  }

  /** When every cell of the column is numeric, the ascending copy is sorted by value throughout. */
  lemma {:induction false} NumericColumnSorted(s: seq<Row>, col: string, i: nat, j: nat)
    requires Ordered(s, col, Asc)
    requires forall k :: 0 <= k < |s| ==> NumberAt(s[k], col).Some?
    requires i <= j < |s|
    ensures NumberAt(s[i], col).value <= NumberAt(s[j], col).value
  {
    if i < j {
      NumericColumnSorted(s, col, i, j - 1);
      assert Order(s[j - 1], s[j], col, Asc) <= 0;
    }
  }

  // ---------------------------------------------------------------------------
  // Sort state

  function Flip(d: Direction): Direction {
    if d == Asc then Desc else Asc
  }

  /** The sort column (`null` while unsorted) and direction of the table. */
  class SortState {
    var sortColumn: Option<string>
    var sortDirection: Direction

    constructor()
      ensures sortColumn == None && sortDirection == Asc
    {
      sortColumn := None;
      sortDirection := Asc;
    }

    /** `handleSort(col)`: the same column flips the direction; another becomes the column, ascending. */
    method HandleSort(col: string)
      modifies this
      ensures sortColumn == Some(col)
      ensures sortDirection == if old(sortColumn) == Some(col) then Flip(old(sortDirection)) else Asc
    {
      if sortColumn == Some(col) {
        sortDirection := Flip(sortDirection);
      } else {
        sortColumn := Some(col);
        sortDirection := Asc;
      }
    }

    /** `handleDownloadCSV`: the CSV text of the displayed rows under the current sort; the Blob and the link are not modelled. */
    method DownloadCsv(geojson: Option<RegionFeatureCollection>) returns (csv: string)
      requires geojson.Some? ==> WellTyped(geojson.value)
      ensures csv == DownloadText(geojson, sortColumn, sortDirection)
    {
      var columns := AllPropertyKeys(geojson);
      csv := ToCsv(SortedRows(Rows(geojson), sortColumn, sortDirection), columns);
    }
  }

  /** Selecting a column twice in a row returns to the direction before (flipping is an involution). */
  lemma FlipTwice(d: Direction)
    ensures Flip(Flip(d)) == d && Flip(d) != d
  {
  }

  /** Two selections of the same column: the first sorts ascending (a new column) or flips; the second flips back. */
  method SelectTwice(s: SortState, col: string)
    modifies s
    ensures s.sortColumn == Some(col)
    ensures old(s.sortColumn) != Some(col) ==> s.sortDirection == Desc
    ensures old(s.sortColumn) == Some(col) ==> s.sortDirection == old(s.sortDirection)
  {
    s.HandleSort(col);
    s.HandleSort(col);
  }

  // ---------------------------------------------------------------------------
  // CSV

  /** `JSON.stringify(row[col] ?? '')`. */
  function CsvField(row: Row, col: string): string {
    Stringify(OrEmpty(Cell(row, col)))
  }

  /** The fields of one data line: the quoted column values, then the bare polygon count. */
  function CsvFields(row: Row, columns: seq<string>): (r: seq<string>)
    ensures |r| == |columns| + 1
  {
    seq(|columns|, k requires 0 <= k < |columns| => CsvField(row, columns[k])) + [NatToDecimal(row.polygonCount)]
  }

  function CsvLine(row: Row, columns: seq<string>): string {
    Join(CsvFields(row, columns), ",")
  }

  function CsvHeader(columns: seq<string>): string {
    Join(columns + [PolygonCountKey], ",")
  }

  /** The lines of the CSV text: the header, then one line per row in order. */
  function CsvLines(rows: seq<Row>, columns: seq<string>): (r: seq<string>)
    ensures |r| == |rows| + 1
  {
    [CsvHeader(columns)] + seq(|rows|, i requires 0 <= i < |rows| => CsvLine(rows[i], columns))
  }

  /** `toCSV(rows, columns)`: pushes the header, then a line per row, and joins the lines with `\n`. */
  method ToCsv(rows: seq<Row>, columns: seq<string>) returns (csv: string)
    ensures csv == Join(CsvLines(rows, columns), "\n")
  {
    var csvRows := [CsvHeader(columns)];
    var i := 0;
    while i < |rows|
      invariant 0 <= i <= |rows|
      invariant csvRows == CsvLines(rows[..i], columns)
    {
      var vals := seq(|columns|, k requires 0 <= k < |columns| => CsvField(rows[i], columns[k]));
      vals := vals + [NatToDecimal(rows[i].polygonCount)];
      csvRows := csvRows + [Join(vals, ",")];
      i := i + 1;
      assert rows[..i][..i - 1] == rows[..i - 1];
    }
    assert rows[..i] == rows;
    csv := Join(csvRows, "\n");
  }

  /** A data line holds no line feed: quoted JSON text never holds a control character. */
  lemma LineHasNoBreak(row: Row, columns: seq<string>)
    ensures Excludes(CsvLine(row, columns), '\n')
  {
    var fs := CsvFields(row, columns);
    forall p, k | p in fs && 0 <= k < |p|
      ensures p[k] >= ' '
    {
      var m :| 0 <= m < |fs| && fs[m] == p;
      if m == |columns| {
        assert IsDigit(p[k]);
      }
    }
    NoControlInJoin(fs, ",");
  }

  /**
   * The CSV text splits back into its lines at `\n`: a header and one line
   * per row, provided no column name holds a line feed (names are written
   * unquoted).
   */
  lemma CsvLineCount(rows: seq<Row>, columns: seq<string>)
    requires forall k :: 0 <= k < |columns| ==> Excludes(columns[k], '\n')
    ensures Split(Join(CsvLines(rows, columns), "\n"), '\n') == CsvLines(rows, columns)
    ensures |Split(Join(CsvLines(rows, columns), "\n"), '\n')| == |rows| + 1
  {
    var lines := CsvLines(rows, columns);
    var hs := columns + [PolygonCountKey];
    forall k | 0 <= k < |hs|
      ensures '\n' !in hs[k]
    {
      if k < |columns| {
        assert hs[k] == columns[k];
      }
    }
    NotInJoin(hs, ",", '\n');
    forall k | 0 <= k < |lines|
      ensures '\n' !in lines[k]
    {
      if k > 0 {
        LineHasNoBreak(rows[k - 1], columns);
      }
    }
    SplitJoin(lines, '\n');
  }

  /**
   * The fields of a data line: `|columns| + 1` of them, each column's value
   * quoted by `JSON.stringify` (a missing value as `""`), then the polygon
   * count as bare digits.
   */
  lemma CsvRowFields(row: Row, columns: seq<string>, k: nat)
    requires k < |columns|
    ensures |CsvFields(row, columns)| == |columns| + 1
    ensures Cell(row, columns[k]).None? || Cell(row, columns[k]) == Some(JNull) ==> CsvFields(row, columns)[k] == "\"\""
    ensures CsvFields(row, columns)[|columns|] == NatToDecimal(row.polygonCount)
  {
  }

  /** A string value comes back unchanged from its CSV field by JSON unquoting; it is never reformatted. */
  lemma CsvFieldRoundTrip(row: Row, col: string, s: string)
    requires Cell(row, col) == Some(JString(s))
    ensures Unquote(CsvField(row, col)) == Some(s)
  {
    UnquoteQuote(s);
  }

  /** The downloaded text: `toCSV(sortedRows, columns)`. */
  function DownloadText(geojson: Option<RegionFeatureCollection>, sortColumn: Option<string>, dir: Direction): string
    requires geojson.Some? ==> WellTyped(geojson.value)
  {
    Join(CsvLines(SortedRows(Rows(geojson), sortColumn, dir), Columns(geojson)), "\n")
  }

  /**
   * The download follows the display: split at `\n`, the text is the header,
   * then the line of each displayed row in the displayed order, and those
   * rows are the table's rows rearranged.
   */
  lemma CsvFollowsDisplay(geojson: Option<RegionFeatureCollection>, sortColumn: Option<string>, dir: Direction)
    requires geojson.Some? ==> WellTyped(geojson.value)
    requires forall k :: 0 <= k < |Columns(geojson)| ==> Excludes(Columns(geojson)[k], '\n')
    ensures var shown, lines := SortedRows(Rows(geojson), sortColumn, dir), Split(DownloadText(geojson, sortColumn, dir), '\n');
      && multiset(shown) == multiset(Rows(geojson))
      && |lines| == |shown| + 1 == |Rows(geojson)| + 1
      && lines[0] == CsvHeader(Columns(geojson))
      && forall i :: 0 <= i < |shown| ==> lines[i + 1] == CsvLine(shown[i], Columns(geojson))
  {
    var rows := Rows(geojson);
    var shown := SortedRows(rows, sortColumn, dir);
    SortedRowsCorrect(rows, sortColumn, dir);
    assert |multiset(shown)| == |multiset(rows)|;
    CsvLineCount(shown, Columns(geojson));
  }

  /** The header line: the columns, then `polygon_count`, comma-joined. */
  lemma CsvHeaderLine(rows: seq<Row>, columns: seq<string>)
    ensures CsvLines(rows, columns)[0] == Join(columns + ["polygon_count"], ",")
  {
  }

  // ---------------------------------------------------------------------------
  // Dates

  /** The shape `DDDD-DD-DDTDD:DD` the date test looks for, `D` standing for a digit. */
  const IsoTemplate: string := "DDDD-DD-DDTDD:DD"

  /** `s` starts with a text of the template's shape. */
  predicate MatchesTemplate(s: string) {
    |s| >= |IsoTemplate|
    && forall k :: 0 <= k < |IsoTemplate| ==> if IsoTemplate[k] == 'D' then IsDigit(s[k]) else s[k] == IsoTemplate[k]
  }

  /** `isIsoDateString(val)`: a string value starting with `DDDD-DD-DDTDD:DD`. */
  predicate IsIsoDateString(v: Option<Value>) {
    v.Some? && v.value.JString? && MatchesTemplate(v.value.s)
  }

  /** The date test spelled out position by position, in both directions. */
  lemma IsoDatePositions(s: string)
    ensures IsIsoDateString(Some(JString(s))) <==>
      && |s| >= 16
      && IsDigit(s[0]) && IsDigit(s[1]) && IsDigit(s[2]) && IsDigit(s[3]) && s[4] == '-'
      && IsDigit(s[5]) && IsDigit(s[6]) && s[7] == '-' && IsDigit(s[8]) && IsDigit(s[9])
      && s[10] == 'T' && IsDigit(s[11]) && IsDigit(s[12]) && s[13] == ':' && IsDigit(s[14]) && IsDigit(s[15])
  {
    if |s| >= 16 {
      assert IsoTemplate[4] == '-' && IsoTemplate[7] == '-' && IsoTemplate[10] == 'T' && IsoTemplate[13] == ':';
    }
  }

  /** Only the first sixteen characters matter, and only string values qualify. */
  lemma IsoDatePrefix(s: string, rest: string, n: int)
    requires MatchesTemplate(s)
    ensures IsIsoDateString(Some(JString(s + rest)))
    ensures !IsIsoDateString(Some(JNumber(n))) && !IsIsoDateString(None)
  {
    assert forall k :: 0 <= k < |s| ==> (s + rest)[k] == s[k];
  }

  /** ASCII letters folded to lower case, as a case-insensitive regular expression compares them. */
  function LowerAscii(s: string): (r: string)
    ensures |r| == |s|
  {
    if s == [] then [] else [if 'A' <= s[0] <= 'Z' then (s[0] as int + 32) as char else s[0]] + LowerAscii(s[1..])
  }

  /** `t` occurs in `s` at some position. */
  predicate HasInfix(s: string, t: string) {
    exists i :: 0 <= i <= |s| - |t| && InfixAt(s, t, i)
  }

  predicate InfixAt(s: string, t: string, i: int)
    requires 0 <= i <= |s| - |t|
  {
    s[i..i + |t|] == t
  }

  /** `/time|date/i.test(col) && isIsoDateString(raw)`: whether a cell is shown as a date. */
  predicate IsDateColumn(col: string, raw: Option<Value>) {
    (HasInfix(LowerAscii(col), "time") || HasInfix(LowerAscii(col), "date")) && IsIsoDateString(raw)
  }

  /**
   * `formatDate(val)` with the date library as an oracle (`None` for an
   * invalid date): a value that is not of the ISO shape, or that the library
   * rejects, is shown as it is.
   */
  function FormatDate(val: string, format: string -> Option<string>): string {
    if !IsIsoDateString(Some(JString(val))) then val
    else match format(val) case None => val case Some(t) => t
  }

  /** What a table cell shows: a formatted date in a date column, else `String(raw ?? '')`. */
  function DisplayCell(col: string, raw: Option<Value>, format: string -> Option<string>): string {
    if IsDateColumn(col, raw) then FormatDate(raw.value.s, format) else ValueToString(OrEmpty(raw))
  }

  /** A cell outside a date column is shown as plain text, whatever the date library would say. */
  lemma DisplayPlain(col: string, raw: Option<Value>, format: string -> Option<string>)
    requires !IsDateColumn(col, raw)
    ensures DisplayCell(col, raw, format) == ValueToString(OrEmpty(raw))
  {
  }

  /** A date cell is shown formatted when the library accepts it, else as the raw text. */
  lemma DisplayDate(col: string, s: string, format: string -> Option<string>)
    requires IsDateColumn(col, Some(JString(s)))
    ensures DisplayCell(col, Some(JString(s)), format) == if format(s).Some? then format(s).value else s
  {
  }

  /** Folding leaves a string without upper-case ASCII letters as it is. */
  lemma {:induction false} LowerOfLower(s: string)
    requires forall k :: 0 <= k < |s| ==> !('A' <= s[k] <= 'Z')
    ensures LowerAscii(s) == s
  {
    if s != [] {
      LowerOfLower(s[1..]);
    }
  }

  /** Folding distributes over concatenation. */
  lemma {:induction false} LowerAppend(a: string, b: string)
    ensures LowerAscii(a + b) == LowerAscii(a) + LowerAscii(b)
  {
    if a != [] {
      assert (a + b)[1..] == a[1..] + b;
      LowerAppend(a[1..], b);
    } else {
      assert a + b == b;
    }
  }

  /** Both words fold to themselves, and so do their upper-case spellings. */
  lemma LowerWords()
    ensures LowerAscii("time") == "time" && LowerAscii("date") == "date"
    ensures LowerAscii("TIME") == "time" && LowerAscii("DATE") == "date"
  {
  }

  /**
   * A column whose name holds `time` or `date` in any case, around any text,
   * is a date column for ISO values.
   */
  lemma DateColumnByName(p: string, w: string, q: string, raw: Option<Value>)
    requires LowerAscii(w) == "time" || LowerAscii(w) == "date"
    requires IsIsoDateString(raw)
    ensures IsDateColumn(p + w + q, raw)
  {
    LowerAppend(p + w, q);
    LowerAppend(p, w);
    LowerWords();
    var l := LowerAscii(p + w + q);
    var u := LowerAscii(w);
    assert l == LowerAscii(p) + u + LowerAscii(q);
    assert l[|p|..|p| + 4] == u;
    assert InfixAt(l, u, |p|);
  }

  /** A mixed-case name such as `valid_Time` is a date column for ISO values. */
  lemma MixedCaseDateColumn(raw: Option<Value>)
    requires IsIsoDateString(raw)
    ensures IsDateColumn("valid_Time", raw)
  {
    assert LowerAscii("Time") == "time";
    DateColumnByName("valid_", "Time", "", raw);
    assert "valid_" + "Time" + "" == "valid_Time";
  }

  /** `threshold` does not hold the word `w`: its only `t` is followed by `h`, and it has no `d`. */
  lemma NotInThreshold(w: string)
    requires w == "time" || w == "date"
    ensures forall i :: 0 <= i <= 5 ==> !InfixAt("threshold", w, i)
  {
    var t := "threshold";
    forall i | 0 <= i <= 5
      ensures !InfixAt(t, w, i)
    {
      assert t[i..i + 4][0] == t[i] && t[i..i + 4][1] == t[i + 1];
    }
  }

  /** `threshold` holds neither word, so its values are never formatted as dates. */
  lemma ThresholdNotDateColumn(raw: Option<Value>)
    ensures !IsDateColumn("threshold", raw)
  {
    LowerOfLower("threshold");
    NotInThreshold("time");
    NotInThreshold("date");
  }
}
