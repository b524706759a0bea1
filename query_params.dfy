/**
 * The `URLSearchParams` object both API clients fill, and the flight-level
 * expansion both perform on it: the comma-separated `flightLevel` filter
 * becomes one `flightLevel` parameter per trimmed, non-empty piece.
 */
module QueryParams {
  import opened Text
  import opened FormUrlEncoded
  import opened UrlPatterns
  import opened Wrappers

  /** A `URLSearchParams` object: the list of its name-value pairs. */
  class SearchParams {
    var entries: seq<Param>

    constructor ()
      ensures entries == []
    {
      entries := [];
    }

    /** `append(name, value)`: adds a pair at the end, keeping every earlier one. */
    method Append(name: string, value: string)
      modifies this
      ensures entries == old(entries) + [(name, value)]
    {
      entries := entries + [(name, value)];
    }

    /** `toString()`: the application/x-www-form-urlencoded serialization of the list. */
    function ToString(): string
      reads this
    {
      Serialize(entries)
    }
  }

  /** A pair that is appended only when its value is non-empty (a truthy string). */
  function WhenNonEmpty(name: string, value: string): seq<Param> {
    if value != "" then [(name, value)] else []
  }

  /** The flight levels a comma-separated filter names: its pieces trimmed, empty ones dropped, in order. */
  function FlightLevelTokens(flightLevel: string): seq<string> {
    NonEmpty(TrimAll(Split(flightLevel, ',')))
  }

  /** One `flightLevel` pair per level, in order. */
  function LevelParams(levels: seq<string>): (r: seq<Param>)
    ensures |r| == |levels| && forall k :: 0 <= k < |r| ==> r[k] == ("flightLevel", levels[k])
  {
    if levels == [] then [] else [("flightLevel", levels[0])] + LevelParams(levels[1..])
  }

  lemma LevelParamsAppend(a: seq<string>, b: seq<string>)
    ensures LevelParams(a + b) == LevelParams(a) + LevelParams(b)
  {
  }

  lemma NonEmptySnoc(a: seq<string>, x: string)
    ensures NonEmpty(a + [x]) == NonEmpty(a) + (if x == "" then [] else [x])
  {
    if a != [] {
      assert (a + [x])[1..] == a[1..] + [x];
      NonEmptySnoc(a[1..], x);
    }
  }

  /**
   * `flightLevel.split(',').map(f => f.trim()).forEach(level => { if (level) params.append('flightLevel', level) })`:
   * appends exactly the levels `FlightLevelTokens` names.
   */
  method AppendFlightLevels(params: SearchParams, flightLevel: string)
    modifies params
    ensures params.entries == old(params.entries) + LevelParams(FlightLevelTokens(flightLevel))
  {
    var levels := TrimAll(Split(flightLevel, ','));
    ghost var start := params.entries;
    var i := 0;
    while i < |levels|
      invariant 0 <= i <= |levels|
      invariant params.entries == start + LevelParams(NonEmpty(levels[..i]))
    {
      AppendStep(levels, i);
      if levels[i] != "" {
        params.Append("flightLevel", levels[i]);
      }
      i := i + 1;
    }
    assert levels[..i] == levels;
  }

  /** One step of the loop above: level `i` adds its pair exactly when it is non-empty. */
  lemma AppendStep(levels: seq<string>, i: nat)
    requires i < |levels|
    ensures LevelParams(NonEmpty(levels[..i + 1]))
         == LevelParams(NonEmpty(levels[..i])) + (if levels[i] == "" then [] else [("flightLevel", levels[i])])
  {
    assert levels[..i + 1] == levels[..i] + [levels[i]];
    NonEmptySnoc(levels[..i], levels[i]);
    LevelParamsAppend(NonEmpty(levels[..i]), if levels[i] == "" then [] else [levels[i]]);
  }

  /** The concrete case: `"290, 310 ,300"` names the three levels 290, 310 and 300. */
  lemma ThreeLevels()
    ensures FlightLevelTokens("290, 310 ,300") == ["290", "310", "300"]
  {
    var pieces := ["290", " 310 ", "300"];
    ThreeLevelsSplit();
    ThreeLevelsTrim();
    assert TrimAll(pieces) == [Trim("290")] + TrimAll(pieces[1..]);
  }

  /** `"290, 310 ,300"` splits at its commas into three pieces. */
  lemma ThreeLevelsSplit()
    ensures Split("290, 310 ,300", ',') == ["290", " 310 ", "300"]
  {
    var pieces := ["290", " 310 ", "300"];
    assert Join(pieces, ",") == "290, 310 ,300";
    SplitJoin(pieces, ',');
  }

  /** Trimming the three pieces of `"290, 310 ,300"`. */
  lemma ThreeLevelsTrim()
    ensures Trim("290") == "290" && Trim(" 310 ") == "310" && Trim("300") == "300"
  {
    assert TrimStart(" 310 ") == "310 ";
    assert TrimEnd("310 ") == "310";
    TrimUnchanged("290");
    TrimUnchanged("300");
  }

  /** The empty filter and one holding only blank pieces name no level. */
  lemma NoLevels()
    ensures FlightLevelTokens("") == []
    ensures FlightLevelTokens(" , ") == []
  {
    var pieces := [" ", " "];
    assert Join(pieces, ",") == " , ";
    SplitJoin(pieces, ',');
    assert Trim(" ") == "" by { assert TrimStart(" ") == ""; }
    assert TrimAll(pieces) == ["", ""];
  }

  /** `getAll(name)`: the values paired with `name`, in order. */
  function GetAll(entries: seq<Param>, name: string): (r: seq<string>)
    ensures |r| <= |entries|
  {
    if entries == [] then []
    else (if entries[0].0 == name then [entries[0].1] else []) + GetAll(entries[1..], name)
  }

  lemma {:induction false} GetAllAppend(a: seq<Param>, b: seq<Param>, name: string)
    ensures GetAll(a + b, name) == GetAll(a, name) + GetAll(b, name)
  {
    if a == [] {
      assert a + b == b;
    } else {
      assert (a + b)[1..] == a[1..] + b;
      GetAllAppend(a[1..], b, name);
    }
  }

  /** A single pair holds its value under its own name only. */
  lemma GetAllSingle(p: Param, name: string)
    ensures GetAll([p], name) == if p.0 == name then [p.1] else []
  {
    assert [p][1..] == [];
  }

  /** An optional pair holds its value under its own name only, and only when the value is non-empty. */
  lemma GetAllWhen(n: string, value: string, name: string)
    ensures GetAll(WhenNonEmpty(n, value), name) == if value != "" && n == name then [value] else []
  {
    if value != "" {
      GetAllSingle((n, value), name);
    }
  }

  /** The flight-level pairs hold the levels under `flightLevel` and nothing under any other name. */
  lemma {:induction false} GetAllLevels(levels: seq<string>, name: string)
    ensures GetAll(LevelParams(levels), name) == if name == "flightLevel" then levels else []
  {
    if levels != [] {
      GetAllLevels(levels[1..], name);
    }
  }

  // ---------------------------------------------------------------------------
  // Where the `[?&]name=[^&]+` pattern can match in a serialized query.

  /** An encoded pair holds `=`, and starts with `name=` only when its encoded name is `name`. */
  lemma EncodePairShape(p: Param, name: string)
    ensures '=' in EncodePair(p)
    ensures StartsWithParam(EncodePair(p), name) ==> Encode(p.0) == name
  {
    var n := Encode(p.0);
    var q := EncodePair(p);
    assert q[|n|] == '=';
    if StartsWithParam(q, name) && |name| == |n| {
      assert q[..|name|] == n;
    }
  }

  /** A separator followed by a serialized list with no pair named `name` holds no match for `name` at `k`. */
  lemma NoParamAt(c: char, ps: seq<Param>, name: string, k: nat)
    requires '=' !in name
    requires forall j :: 0 <= j < |ps| ==> Encode(ps[j].0) != name
    ensures !ParamAt([c] + Serialize(ps), name, k)
  {
    var qs := EncodePairs(ps);
    forall j | 0 <= j < |qs|
      ensures NoSeparator(qs[j]) && '=' in qs[j] && !StartsWithParam(qs[j], name)
    {
      EncodePairShape(ps[j], name);
    }
    NoParamAtJoin(c, qs, name, k);
  }

  /**
   * In `base?query`, where `base` holds no separator and no pair of the query
   * is named `name`, the pattern for `name` matches nowhere.
   */
  lemma NoParamInUrl(base: string, ps: seq<Param>, name: string)
    requires NoSeparator(base) && '=' !in name
    requires forall j :: 0 <= j < |ps| ==> Encode(ps[j].0) != name
    ensures FindParam(base + "?" + Serialize(ps), name, 0) == None
  {
    var h := "?" + Serialize(ps);
    forall k: nat
      ensures !ParamAt(h, name, k)
    {
      NoParamAt('?', ps, name, k);
    }
    NoneAfterBase(base, h, name);
    assert base + "?" + Serialize(ps) == base + h;
  }

  /**
   * In `base?query`, where `base` holds no separator and the first pair of
   * the query has a non-empty value, the pattern for that pair's encoded name
   * first matches at the `?`.
   */
  lemma LeadingParamFound(base: string, p: Param, rest: seq<Param>)
    requires NoSeparator(base) && p.1 != ""
    ensures FindParam(base + "?" + Serialize([p] + rest), Encode(p.0), 0) == Some(|base|)
  {
    SerializeCons(p, rest);
    LeadingMatch(base, Serialize([p] + rest), Encode(p.0), Encode(p.1), if rest == [] then "" else "&" + Serialize(rest));
  }

  /** The first pair's encoded value splits `base?query` into `base?name=`, the value, and the rest of the query after `&`. */
  lemma LeadingParamShape(base: string, p: Param, rest: seq<Param>)
    ensures base + "?" + Serialize([p] + rest)
         == (base + "?" + Encode(p.0) + "=") + (Encode(p.1) + (if rest == [] then "" else "&" + Serialize(rest)))
  {
    SerializeCons(p, rest);
    LeadingShape(base, Serialize([p] + rest), Encode(p.0), Encode(p.1), if rest == [] then "" else "&" + Serialize(rest));
  }
}
