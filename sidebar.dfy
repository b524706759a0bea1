/**
 * The filter sidebar: the request filters it sends, its input handlers over
 * the shared filter state, the flight-level options, the statistics it shows
 * about the loaded features, and the readable form of the request URL.
 */
module Sidebar {
  import opened Wrappers
  import opened Text
  import opened Json
  import opened Types
  import opened FormUrlEncoded
  import opened UrlPatterns
  import opened QueryParams
  import opened Regions

  // ---------------------------------------------------------------------------
  // Request filters

  /** `getRequestFilters(f)`: a copy with a falsy aircraft class made undefined; the flight levels stay as they are. */
  function RequestFilters(f: Filters): (r: Filters)
    ensures r.time == f.time && r.flightLevel == f.flightLevel && r.threshold == f.threshold
    ensures r.aircraftClass == if Present(f.aircraftClass) then f.aircraftClass else None
  {
    var req := if !Present(f.aircraftClass) then f.(aircraftClass := None) else f;
    req.(flightLevel := if |f.flightLevel| > 0 then f.flightLevel else "")
  }

  /** Making the request filters twice changes nothing more. */
  lemma RequestFiltersIdempotent(f: Filters)
    ensures RequestFilters(RequestFilters(f)) == RequestFilters(f)
  {
  }

  /** The regions query of the request filters is the query of the filters: an empty aircraft class was never sent. */
  lemma RequestFiltersSameQuery(key: string, f: Filters)
    ensures RegionParams(key, RequestFilters(f)) == RegionParams(key, f)
  {
  }

  // ---------------------------------------------------------------------------
  // Flight-level options

  /** `FLIGHT_LEVELS`: 270 to 440 in steps of 10. */
  const FlightLevels: seq<int> := seq(18, i => 270 + i * 10)

  lemma FlightLevelsRange()
    ensures |FlightLevels| == 18 && FlightLevels[0] == 270 && FlightLevels[17] == 440
    ensures forall i :: 0 <= i < 17 ==> FlightLevels[i + 1] == FlightLevels[i] + 10
  {
  }

  /** An option of a `<select>`: its value and whether it is selected. */
  datatype SelectOption = SelectOption(value: string, selected: bool)

  /** The options of the flight-level list, each value the decimal text of its level. */
  function LevelOptions(selected: seq<bool>): seq<SelectOption>
    requires |selected| == |FlightLevels|
  {
    seq(|FlightLevels|, i requires 0 <= i < |FlightLevels| => SelectOption(NatToDecimal(FlightLevels[i]), selected[i]))
  }

  /** The values of the selected options, in option order. */
  function SelectedValues(options: seq<SelectOption>): seq<string> {
    if options == [] then []
    else
      var init := SelectedValues(options[..|options| - 1]);
      if options[|options| - 1].selected then init + [options[|options| - 1].value] else init
  }

  /** A level value read back: a non-empty run of digits. */
  predicate Numeral(s: string) {
    |s| >= 1 && AllDigits(s)
  }

  lemma {:induction false} SelectedNumerals(options: seq<SelectOption>)
    requires forall i :: 0 <= i < |options| ==> Numeral(options[i].value)
    ensures forall k :: 0 <= k < |SelectedValues(options)| ==> Numeral(SelectedValues(options)[k])
  {
    if options != [] {
      SelectedNumerals(options[..|options| - 1]);
    }
  }

  lemma {:induction false} NonEmptyKeeps(parts: seq<string>)
    requires forall k :: 0 <= k < |parts| ==> parts[k] != ""
    ensures NonEmpty(parts) == parts
  {
    if parts != [] {
      NonEmptyKeeps(parts[1..]);
    }
  }

  /** A numeral holds no comma. */
  lemma NumeralNoComma(s: string)
    requires Numeral(s)
    ensures ',' !in s
  {
    assert forall j :: 0 <= j < |s| ==> s[j] != ',';
  }

  /** Trimming leaves a numeral as it is. */
  lemma NumeralTrimmed(s: string)
    requires Numeral(s)
    ensures Trim(s) == s
  {
    assert IsDigit(s[0]) && IsDigit(s[|s| - 1]);
    TrimUnchanged(s);
  }

  lemma {:induction false} NumeralsTrimmed(sel: seq<string>)
    requires forall k :: 0 <= k < |sel| ==> Numeral(sel[k])
    ensures TrimAll(sel) == sel
  {
    if sel != [] {
      NumeralTrimmed(sel[0]);
      NumeralsTrimmed(sel[1..]);
      assert sel == [sel[0]] + sel[1..];
    }
  }

  /**
   * The multi-select round trip: the comma-joined selection, expanded by the
   * query builder, gives back exactly the selected levels, in order.
   */
  lemma SelectionRoundTrip(sel: seq<string>)
    requires forall k :: 0 <= k < |sel| ==> Numeral(sel[k])
    ensures FlightLevelTokens(Join(sel, ",")) == sel
  {
    if sel == [] {
      NoLevels();
    } else {
      forall k | 0 <= k < |sel|
        ensures ',' !in sel[k]
      {
        NumeralNoComma(sel[k]);
      }
      assert "," == [','];
      SplitJoin(sel, ',');
      assert Split(Join(sel, ","), ',') == sel;
      NumeralsTrimmed(sel);
      NonEmptyKeeps(sel);
    }
  }

  /** Every flight-level option value is a numeral. */
  lemma LevelOptionsNumerals(selected: seq<bool>)
    requires |selected| == |FlightLevels|
    ensures forall i :: 0 <= i < |LevelOptions(selected)| ==> Numeral(LevelOptions(selected)[i].value)
  {
  }

  /** Selecting in the flight-level list requests exactly the selected levels. */
  lemma LevelSelectionSent(selected: seq<bool>)
    requires |selected| == |FlightLevels|
    ensures FlightLevelTokens(Join(SelectedValues(LevelOptions(selected)), ",")) == SelectedValues(LevelOptions(selected))
  {
    LevelOptionsNumerals(selected);
    SelectedNumerals(LevelOptions(selected));
    SelectionRoundTrip(SelectedValues(LevelOptions(selected)));
  }

  // ---------------------------------------------------------------------------
  // Date and hour

  /** Which of the two time inputs changed. */
  datatype TimePart = DatePart | HourPart

  /**
   * `getDateFromTime` and `getHourFromTime`, with the date library's parse and
   * format as an oracle (`None` for an invalid time): empty for no time or an
   * invalid one.
   */
  function PartOfTime(time: string, format: string -> Option<string>): string {
    if time == "" then "" else match format(time) case None => "" case Some(p) => p
  }

  /** The text handed to the date library: `<date>T<hour>:00:00Z`. */
  function ComposeTime(date: string, hour: string): string {
    date + "T" + hour + ":00:00Z"
  }

  /** The new `time`: non-empty only when both parts are, the library's ISO text of the composed value when it is valid. */
  function NewTime(date: string, hour: string, toIso: string -> Option<string>): string {
    if date != "" && hour != "" then
      match toIso(ComposeTime(date, hour)) case None => "" case Some(t) => t
    else ""
  }

  /** A time is produced only from a date and an hour, and then it is the library's text for the composed value. */
  lemma NewTimeNeedsBoth(date: string, hour: string, toIso: string -> Option<string>)
    ensures NewTime(date, hour, toIso) != "" ==> date != "" && hour != ""
    ensures date != "" && hour != "" && toIso(ComposeTime(date, hour)).Some? ==>
              NewTime(date, hour, toIso) == toIso(ComposeTime(date, hour)).value
    ensures date == "" || hour == "" ==> NewTime(date, hour, toIso) == ""
  {
  }

  /** The hour options `00` to `23`: two digits each. */
  function HourOption(i: nat): string {
    PadStartZero(NatToDecimal(i), 2)
  }

  lemma HourOptionDigits(i: nat)
    requires i < 24
    ensures |HourOption(i)| == 2 && AllDigits(HourOption(i))
  {
    var d := NatToDecimal(i);
    var h := HourOption(i);
    if i >= 10 {
      assert d == NatToDecimal(i / 10) + [DigitChar(i % 10)];
      assert |NatToDecimal(i / 10)| == 1;
    }
    if |d| < 2 {
      assert h == "0" + d;
      assert h[0] == '0' && h[1] == d[0];
      assert IsDigit(h[0]) && IsDigit(h[1]);
    }
  }

  // ---------------------------------------------------------------------------
  // The handlers, over the shared filter state

  /** A filter field set by name, as `{ ...prev, [name]: value }` does for the four filter names. */
  function WithField(f: Filters, name: string, value: string): Filters {
    if name == "time" then f.(time := value)
    else if name == "flightLevel" then f.(flightLevel := value)
    else if name == "threshold" then f.(threshold := value)
    else if name == "aircraftClass" then f.(aircraftClass := Some(value))
    else f
  }

  /** The sidebar's view of the shared filters, and every filter set it has passed to `onApplyFilters`, in order. */
  class Panel {
    var filters: Filters
    var requests: seq<Filters>

    constructor(filters: Filters)
      ensures this.filters == filters && requests == []
    {
      this.filters := filters;
      requests := [];
    }

    /** `handleInputBlur(override)`: nothing without a time; otherwise one apply of the request filters. */
    method HandleInputBlur(overrideFilters: Option<Filters>)
      modifies this
      ensures filters == old(filters)
      ensures var use := if overrideFilters.Some? then overrideFilters.value else old(filters);
        requests == old(requests) + (if use.time == "" then [] else [RequestFilters(use)])
    {
      var useFilters := if overrideFilters.Some? then overrideFilters.value else filters;
      if useFilters.time == "" {
        return;
      }
      var reqFilters := RequestFilters(useFilters);
      requests := requests + [reqFilters];
    }

    /** `handleSelectChange`: sets the field, then applies the request filters of the new state. */
    method HandleSelectChange(name: string, value: string)
      modifies this
      ensures filters == WithField(old(filters), name, value)
      ensures requests == old(requests) + [RequestFilters(filters)]
    {
      var next := WithField(filters, name, value);
      filters := next;
      requests := requests + [RequestFilters(next)];
    }

    /** `handleChange`: the multi-select joins the selected values with commas; other inputs set their field. Nothing is applied. */
    method HandleChange(name: string, value: string, multiple: bool, options: seq<SelectOption>)
      modifies this
      ensures requests == old(requests)
      ensures filters == if name == "time" then old(filters).(time := value)
                         else if name == "flightLevel" && multiple then old(filters).(flightLevel := Join(SelectedValues(options), ","))
                         else WithField(old(filters), name, value)
    {
      if name == "time" {
        filters := filters.(time := value);
      } else if name == "flightLevel" && multiple {
        var selected: seq<string> := [];
        for i := 0 to |options|
          invariant selected == SelectedValues(options[..i])
        {
          assert options[..i + 1][..i] == options[..i];
          if options[i].selected {
            selected := selected + [options[i].value];
          }
        }
        assert options[..|options|] == options;
        filters := filters.(flightLevel := Join(selected, ","));
      } else {
        filters := WithField(filters, name, value);
      }
    }

    /**
     * `handleDateHourChange(which, value)`: the changed part replaces the one
     * read from the current time, the new time is stored, and it is applied
     * only when it is non-empty.
     */
    method HandleDateHourChange(which: TimePart, value: string, dateOf: string -> Option<string>,
                                hourOf: string -> Option<string>, toIso: string -> Option<string>)
      modifies this
      ensures var date := if which == DatePart then value else PartOfTime(old(filters).time, dateOf);
        var hour := if which == HourPart then value else PartOfTime(old(filters).time, hourOf);
        filters == old(filters).(time := NewTime(date, hour, toIso))
      ensures requests == old(requests) + (if filters.time != "" then [filters] else [])
    {
      var date := PartOfTime(filters.time, dateOf);
      var hour := PartOfTime(filters.time, hourOf);
      var newDate := if which == DatePart then value else date;
      var newHour := if which == HourPart then value else hour;
      var newTime := "";
      if newDate != "" && newHour != "" {
        var iso := toIso(ComposeTime(newDate, newHour));
        newTime := if iso.Some? then iso.value else "";
      }
      var newFilters := filters.(time := newTime);
      filters := newFilters;
      if newDate != "" && newHour != "" && newTime != "" {
        requests := requests + [newFilters];
      }
    }
  }

  // ---------------------------------------------------------------------------
  // Statistics

  /** `f.properties[name]` of each feature. */
  function PropertyValues(features: seq<Value>, name: string): (r: seq<Option<Value>>)
    requires forall i :: 0 <= i < |features| ==> IsRegionFeature(features[i])
    ensures |r| == |features|
  {
    seq(|features|, i requires 0 <= i < |features| => Get(Properties(features[i]), name))
  }

  /** `.filter(Boolean)`. */
  function Truthies(vals: seq<Option<Value>>): (r: seq<Option<Value>>)
    ensures forall k :: 0 <= k < |r| ==> Truthy(r[k])
  {
    if vals == [] then []
    else Truthies(vals[..|vals| - 1]) + (if Truthy(vals[|vals| - 1]) then [vals[|vals| - 1]] else [])
  }

  /** `Array.from(new Set(vals)).filter(Boolean)`. */
  function DistinctStats(vals: seq<Option<Value>>): seq<Option<Value>> {
    Truthies(Dedup(vals))
  }

  lemma {:induction false} TruthiesMembers(vals: seq<Option<Value>>, x: Option<Value>)
    ensures x in Truthies(vals) <==> x in vals && Truthy(x)
  {
    if vals != [] {
      TruthiesMembers(vals[..|vals| - 1], x);
      assert vals == vals[..|vals| - 1] + [vals[|vals| - 1]];
    }
  }

  lemma TruthiesSnoc(vals: seq<Option<Value>>, x: Option<Value>)
    ensures Truthies(vals + [x]) == Truthies(vals) + (if Truthy(x) then [x] else [])
  {
    assert (vals + [x])[..|vals + [x]| - 1] == vals;
  }

  lemma DedupSnoc(s: seq<Option<Value>>, x: Option<Value>)
    ensures Dedup(s + [x]) == if x in Dedup(s) then Dedup(s) else Dedup(s) + [x]
  {
    assert (s + [x])[..|s + [x]| - 1] == s;
  }

  lemma DedupMembers(s: seq<Option<Value>>, x: Option<Value>)
    ensures x in Dedup(s) <==> x in s
  {
    if x in s {
      var k :| 0 <= k < |s| && s[k] == x;
    }
    if x in Dedup(s) {
      var k :| 0 <= k < |Dedup(s)| && Dedup(s)[k] == x;
    }
  }

  /** The step of the first-seen proof for a falsy last value: it is dropped from both sides. */
  lemma FalsyStep(init: seq<Option<Value>>, x: Option<Value>)
    requires !Truthy(x)
    requires DistinctStats(init) == Dedup(Truthies(init))
    ensures DistinctStats(init + [x]) == Dedup(Truthies(init + [x]))
  {
    TruthiesSnoc(init, x);
    assert Truthies(init + [x]) == Truthies(init);
    DedupSnoc(init, x);
    if x !in Dedup(init) {
      TruthiesSnoc(Dedup(init), x);
      assert Truthies(Dedup(init) + [x]) == Truthies(Dedup(init));
    }
  }

  /** The step of the first-seen proof for a truthy last value: it is kept on both sides exactly when it is new. */
  lemma TruthyStep(init: seq<Option<Value>>, x: Option<Value>)
    requires Truthy(x)
    requires DistinctStats(init) == Dedup(Truthies(init))
    ensures DistinctStats(init + [x]) == Dedup(Truthies(init + [x]))
  {
    TruthiesSnoc(init, x);
    DedupSnoc(init, x);
    DedupSnoc(Truthies(init), x);
    TruthiesMembers(init, x);
    DedupMembers(init, x);
    DedupMembers(Truthies(init), x);
    if x !in Dedup(init) {
      TruthiesSnoc(Dedup(init), x);
    }
  }

  /**
   * The statistics are the distinct truthy values in first-seen order:
   * dropping the falsy values before or after de-duplication is the same.
   */
  lemma {:induction false} DistinctStatsFirstSeen(vals: seq<Option<Value>>)
    ensures DistinctStats(vals) == Dedup(Truthies(vals))
  {
    if vals != [] {
      var init, x := vals[..|vals| - 1], vals[|vals| - 1];
      assert vals == init + [x];
      DistinctStatsFirstSeen(init);
      if Truthy(x) {
        TruthyStep(init, x);
      } else {
        FalsyStep(init, x);
      }
    }
  }

  /** Each statistic is a truthy value of some feature, each appears once, and every truthy value appears. */
  lemma DistinctStatsContents(vals: seq<Option<Value>>)
    ensures Distinct(DistinctStats(vals))
    ensures forall k :: 0 <= k < |vals| && Truthy(vals[k]) ==> vals[k] in DistinctStats(vals)
    ensures forall x :: x in DistinctStats(vals) ==> x in vals && Truthy(x)
  {
    DistinctStatsFirstSeen(vals);
    forall k | 0 <= k < |vals| && Truthy(vals[k])
      ensures vals[k] in DistinctStats(vals)
    {
      TruthiesMembers(vals, vals[k]);
    }
    forall x | x in DistinctStats(vals)
      ensures x in vals && Truthy(x)
    {
      TruthiesMembers(vals, x);
    }
  }
  /** `flightLevels` and `aircraftClasses`: the distinct truthy values of one property, none without a collection. */
  function FeatureStats(geojson: Option<RegionFeatureCollection>, name: string): seq<Option<Value>>
    requires geojson.Some? ==> WellTyped(geojson.value)
  {
    if geojson.None? then [] else DistinctStats(PropertyValues(geojson.value.features, name))
  }

  /**
   * The stats of a property list each truthy value the features hold for it
   * exactly once, in order of first appearance across the features, and
   * nothing else.
   */
  lemma FeatureStatsContents(geojson: Option<RegionFeatureCollection>, name: string)
    requires geojson.Some? ==> WellTyped(geojson.value)
    ensures Distinct(FeatureStats(geojson, name))
    ensures geojson.None? ==> FeatureStats(geojson, name) == []
    ensures geojson.Some? ==> var vals := PropertyValues(geojson.value.features, name);
      && FeatureStats(geojson, name) == Dedup(Truthies(vals))
      && (forall k :: 0 <= k < |vals| && Truthy(vals[k]) ==> vals[k] in FeatureStats(geojson, name))
      && (forall x :: x in FeatureStats(geojson, name) ==> x in vals && Truthy(x))
  {
    if geojson.Some? {
      var vals := PropertyValues(geojson.value.features, name);
      DistinctStatsFirstSeen(vals);
      DistinctStatsContents(vals);
    }
  }



  // ---------------------------------------------------------------------------
  // Minimum and maximum of the time properties

  /** `formatUtc(val)`, with the date library as an oracle: `-` for no value, the value itself when invalid. */
  function FormatUtc(val: string, format: string -> Option<string>): string {
    if val == "" then "-" else match format(val) case None => val case Some(t) => t
  }

  /** Stable insertion into a list sorted in code-unit order. */
  function InsertString(x: string, t: seq<string>): seq<string> {
    if t == [] || LessEq(x, t[0]) then [x] + t else [t[0]] + InsertString(x, t[1..])
  }

  /** `values.slice().sort()`: the default sort, code-unit order. */
  function SortStrings(values: seq<string>): seq<string> {
    if values == [] then [] else InsertString(values[0], SortStrings(values[1..]))
  }

  predicate SortedStrings(s: seq<string>) {
    forall i, j :: 0 <= i < j < |s| ==> LessEq(s[i], s[j])
  }

  predicate AtLeast(y: string, s: seq<string>) {
    forall j :: 0 <= j < |s| ==> LessEq(y, s[j])
  }

  lemma {:induction false} InsertStringBound(y: string, x: string, t: seq<string>)
    requires AtLeast(y, t) && LessEq(y, x)
    ensures AtLeast(y, InsertString(x, t))
  {
    if t != [] && !LessEq(x, t[0]) {
      InsertStringBound(y, x, t[1..]);
    }
  }

  lemma ConsSorted(y: string, t: seq<string>)
    requires SortedStrings(t) && AtLeast(y, t)
    ensures SortedStrings([y] + t)
  {
    var r := [y] + t;
    forall i, j | 0 <= i < j < |r|
      ensures LessEq(r[i], r[j])
    {
      if i > 0 {
        assert r[i] == t[i - 1] && r[j] == t[j - 1];
      }
    }
  }

  lemma {:induction false} InsertStringSorted(x: string, t: seq<string>)
    requires SortedStrings(t)
    ensures SortedStrings(InsertString(x, t))
  {
    if t == [] || LessEq(x, t[0]) {
      forall j | 0 <= j < |t|
        ensures LessEq(x, t[j])
      {
        if j > 0 {
          LessEqTransitive(x, t[0], t[j]);
        }
      }
      ConsSorted(x, t);
    } else {
      LessEqTotal(x, t[0]);
      InsertStringSorted(x, t[1..]);
      InsertStringBound(t[0], x, t[1..]);
      ConsSorted(t[0], InsertString(x, t[1..]));
    }
  }

  lemma {:induction false} InsertStringPerm(x: string, t: seq<string>)
    ensures multiset(InsertString(x, t)) == multiset{x} + multiset(t)
  {
    if t != [] && !LessEq(x, t[0]) {
      InsertStringPerm(x, t[1..]);
      assert t == [t[0]] + t[1..];
    }
  }

  lemma {:induction false} SortStringsFacts(values: seq<string>)
    ensures multiset(SortStrings(values)) == multiset(values)
    ensures SortedStrings(SortStrings(values))
  {
    if values != [] {
      SortStringsFacts(values[1..]);
      InsertStringPerm(values[0], SortStrings(values[1..]));
      InsertStringSorted(values[0], SortStrings(values[1..]));
      assert values == [values[0]] + values[1..];
    }
  }

  /** The sorted copy is ordered by the UTF-16 code units of its strings, as `sort()` orders it. */
  lemma SortedByCodeUnits(values: seq<string>)
    ensures var s := SortStrings(values);
      forall i, j :: 0 <= i < j < |s| ==> UnitsLessEq(Utf16Units(s[i]), Utf16Units(s[j]))
  {
    var s := SortStrings(values);
    SortStringsFacts(values);
    forall i, j | 0 <= i < j < |s|
      ensures UnitsLessEq(Utf16Units(s[i]), Utf16Units(s[j]))
    {
      LessEqIsCodeUnitOrder(s[i], s[j]);
    }
  }

  /** A character above U+FFFF sorts before U+FF21, because its high surrogate is the smaller code unit. */
  lemma AstralBeforeFullwidth()
    ensures SortStrings(["\U{1F600}", "\U{FF21}"]) == ["\U{1F600}", "\U{FF21}"]
    ensures SortStrings(["\U{FF21}", "\U{1F600}"]) == ["\U{1F600}", "\U{FF21}"]
  {
    assert LessEq("\U{1F600}", "\U{FF21}");
    assert !LessEq("\U{FF21}", "\U{1F600}");
  }

  lemma SortedMember(values: seq<string>, v: string)
    ensures v in values <==> v in SortStrings(values)
  {
    SortStringsFacts(values);
    assert v in values <==> v in multiset(values);
    assert v in SortStrings(values) <==> v in multiset(SortStrings(values));
  }

  datatype MinMax = MinMax(min: string, max: string)

  /** `getMinMax(values)`: `-` for both without values, else the formatted first and last of the sorted copy. */
  function GetMinMax(values: seq<string>, format: string -> Option<string>): MinMax {
    if |values| == 0 then MinMax("-", "-")
    else
      var sorted := SortStrings(values);
      SortStringsFacts(values);
      assert |sorted| == |multiset(sorted)|;
      MinMax(FormatUtc(sorted[0], format), FormatUtc(sorted[|sorted| - 1], format))
  }

  /**
   * What `getMinMax` formats: the smallest and the largest of the values in
   * code-unit order, both among the values, the first no greater than the last.
   */
  lemma MinMaxExtremes(values: seq<string>, format: string -> Option<string>)
    requires |values| > 0
    ensures var s := SortStrings(values);
      && |s| == |values|
      && s[0] in values && s[|s| - 1] in values
      && (forall v :: v in values ==> LessEq(s[0], v) && LessEq(v, s[|s| - 1]))
      && (forall v :: v in values ==>
            UnitsLessEq(Utf16Units(s[0]), Utf16Units(v)) && UnitsLessEq(Utf16Units(v), Utf16Units(s[|s| - 1])))
      && LessEq(s[0], s[|s| - 1])
      && GetMinMax(values, format) == MinMax(FormatUtc(s[0], format), FormatUtc(s[|s| - 1], format))
  {
    var s := SortStrings(values);
    SortStringsFacts(values);
    assert |s| == |multiset(s)|;
    SortedMember(values, s[0]);
    SortedMember(values, s[|s| - 1]);
    forall v | v in values
      ensures LessEq(s[0], v) && LessEq(v, s[|s| - 1])
    {
      SortedMember(values, v);
      var k :| 0 <= k < |s| && s[k] == v;
      LessEqReflexive(v);
    }
    forall v | v in values
      ensures UnitsLessEq(Utf16Units(s[0]), Utf16Units(v)) && UnitsLessEq(Utf16Units(v), Utf16Units(s[|s| - 1]))
    {
      LessEqIsCodeUnitOrder(s[0], v);
      LessEqIsCodeUnitOrder(v, s[|s| - 1]);
    }
    LessEqReflexive(s[0]);
  }

  /** No values: both ends are shown as `-`. */
  lemma MinMaxEmpty(format: string -> Option<string>)
    ensures GetMinMax([], format) == MinMax("-", "-")
  {
  }

  // ---------------------------------------------------------------------------
  // The displayed URL

  /**
   * `decodeTimeInUrl(url)`: the value of the first `time` parameter is
   * percent-decoded in place; `None` when that value is malformed, where
   * `decodeURIComponent` throws.
   */
  function DecodeTimeInUrl(url: string): Option<string> {
    match FindParam(url, "time", 0)
    case None => Some(url)
    case Some(i) =>
      var e := RunEnd(url, i + 6);
      match DecodeUriComponent(url[i + 6..e])
      case None => None
      case Some(d) => Some(url[..i + 6] + d + url[e..])
  }

  /** A URL without a `time` parameter is shown as it is. */
  lemma DecodeWithoutTime(url: string)
    requires FindParam(url, "time", 0) == None
    ensures DecodeTimeInUrl(url) == Some(url)
  {
  }

  /**
   * Only the first time value changes: the text before it and after it is
   * kept, and the decoded value takes its place.
   */
  lemma DecodeKeepsRest(url: string, i: nat)
    requires FindParam(url, "time", 0) == Some(i)
    requires DecodeTimeInUrl(url).Some?
    ensures var e := RunEnd(url, i + 6);
      && DecodeUriComponent(url[i + 6..e]).Some?
      && DecodeTimeInUrl(url).value == url[..i + 6] + DecodeUriComponent(url[i + 6..e]).value + url[e..]
      && url[i..i + 6] == url[i..i + 1] + "time="
  {
    assert ParamAt(url, "time", i);
    assert url[i + 1..i + 5] == "time" && url[i + 5] == '=';
    assert url[i..i + 6] == url[i..i + 1] + url[i + 1..i + 5] + [url[i + 5]];
  }

  /** The decoding of `pre value tail`, once the match before the value and the end of the value are known. */
  lemma DecodeAt(pre: string, v: string, tail: string, i: nat, d: string)
    requires |pre| == i + 6
    requires FindParam(pre + (v + tail), "time", 0) == Some(i)
    requires RunEnd(pre + (v + tail), i + 6) == |pre| + |v|
    requires DecodeUriComponent(v) == Some(d)
    ensures DecodeTimeInUrl(pre + (v + tail)) == Some(pre + (d + tail))
  {
    var url := pre + (v + tail);
    var e := |pre| + |v|;
    Pieces(pre, v, tail);
    assert url[i + 6..e] == v;
    DecodeFound(url, i, e, d);
    assert url[..i + 6] == pre && url[e..] == tail;
    Assoc(pre, d, tail);
    assert url[..i + 6] + d + url[e..] == pre + (d + tail);
  }

  /** The decoding of a URL whose `time` value, found at `i`, runs to `e` and decodes to `d`. */
  lemma DecodeFound(url: string, i: nat, e: nat, d: string)
    requires FindParam(url, "time", 0) == Some(i)
    requires i + 6 <= |url| && e == RunEnd(url, i + 6)
    requires DecodeUriComponent(url[i + 6..e]) == Some(d)
    ensures DecodeTimeInUrl(url) == Some(url[..i + 6] + d + url[e..])
  {
  }

  /** In `base?time=value tail`, the pattern matches at the `?` and its value runs to the end of `value`. */
  lemma TimeUrlPieces(base: string, v: string, tail: string)
    requires NoSeparator(base) && v != [] && Excludes(v, '&') && (tail == [] || tail[0] == '&')
    ensures var pre := base + "?" + "time" + "=";
      && |pre| == |base| + 6
      && FindParam(pre + (v + tail), "time", 0) == Some(|base|)
      && RunEnd(pre + (v + tail), |base| + 6) == |pre| + |v|
  {
    var pre := base + "?" + "time" + "=";
    var q := "time" + "=" + v + tail;
    LeadingShape(base, q, "time", v, tail);
    LeadingMatch(base, q, "time", v, tail);
    RunAfter(pre, v, tail);
  }

  /** The URL `base?time=value tail` with the value serialized: the decoding gives the value back. */
  lemma DecodeShape(base: string, t: string, tail: string)
    requires NoSeparator(base) && t != "" && ' ' !in t && (tail == [] || tail[0] == '&')
    ensures DecodeTimeInUrl((base + "?" + "time" + "=") + (Encode(t) + tail)) == Some((base + "?" + "time" + "=") + (t + tail))
  {
    TimeUrlPieces(base, Encode(t), tail);
    DecodeEncode(t);
    DecodeAt(base + "?" + "time" + "=", Encode(t), tail, |base|, t);
  }

  /** A URL whose query starts with a non-empty, space-free `time` pair shows that time as entered. */
  lemma DecodeLeadingTime(base: string, t: string, rest: seq<Param>)
    requires NoSeparator(base) && t != "" && ' ' !in t
    ensures DecodeTimeInUrl(base + "?" + Serialize([("time", t)] + rest))
              == Some((base + "?" + "time" + "=") + (t + if rest == [] then "" else "&" + Serialize(rest)))
  {
    EncodePlain("time");
    LeadingParamShape(base, ("time", t), rest);
    DecodeShape(base, t, if rest == [] then "" else "&" + Serialize(rest));
  }

  /** In a query with a time, the time pair comes right after the key. */
  lemma TimeFollowsKey(key: string, f: Filters, levels: seq<string>)
    requires f.time != ""
    ensures QueryFor(key, f, levels)[1..] == [("time", f.time)] + QueryFor(key, f, levels)[2..]
  {
    assert QueryFor(key, f, levels)[1] == ("time", f.time);
  }

  /**
   * The displayed metadata URL of a regions call whose time is set and holds
   * no space shows the time as it was entered.
   */
  lemma MetaUrlShowsTime(key: string, f: Filters)
    requires key != "" && f.time != "" && ' ' !in f.time
    ensures var rest := RegionParams(key, f)[2..];
      DecodeTimeInUrl(RedactKey(RequestUrl(key, f)))
        == Some((BaseUrl + "?" + "time" + "=") + (f.time + if rest == [] then "" else "&" + Serialize(rest)))
  {
    RedactedUrl(key, f);
    TimeFollowsKey(key, f, FlightLevelTokens(f.flightLevel));
    BaseUrlPlain();
    DecodeLeadingTime(BaseUrl, f.time, RegionParams(key, f)[2..]);
  }

  /** A space is sent as `+`, which `decodeURIComponent` leaves as it is: such a time is shown with a `+`. */
  lemma SpaceShownAsPlus()
    ensures Encode(" ") == "+"
    ensures DecodeUriComponent("+") == Some("+")
  {
  }
}
