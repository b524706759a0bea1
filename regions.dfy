/**
 * The regions client: the query it builds from the filters, the request URL
 * with the API key redacted for display, and the validation of the response
 * as a GeoJSON FeatureCollection.
 */
module Regions {
  import opened Wrappers
  import opened Text
  import opened Json
  import opened Types
  import opened FormUrlEncoded
  import opened UrlPatterns
  import opened QueryParams

  /** `https://contrails.googleapis.com/v2/regions`. */
  const BaseUrl: string := ApiRoot + "/regions"

  /** The base URL holds no query separator and is ASCII. */
  lemma BaseUrlPlain()
    ensures NoSeparator(BaseUrl) && IsAscii(BaseUrl)
  {
    ApiRootChars();
    assert UrlChars("/regions");
    UrlCharsAppend(ApiRoot, "/regions");
    UrlCharsPlain(BaseUrl);
  }

  /** `aircraftClass` is sent when it is truthy and not the `default` placeholder. */
  predicate SendsAircraftClass(f: Filters) {
    Present(f.aircraftClass) && f.aircraftClass.value != "default"
  }

  /** The `aircraftClass` pair, when it is sent. */
  function AircraftClassParam(f: Filters): seq<Param> {
    if SendsAircraftClass(f) then [("aircraftClass", f.aircraftClass.value)] else []
  }

  /** The pairs of a query whose flight levels are `levels`, in the order they are appended. */
  function QueryFor(key: string, f: Filters, levels: seq<string>): seq<Param> {
    [("key", key)] + WhenNonEmpty("time", f.time) + LevelParams(levels) + WhenNonEmpty("threshold", f.threshold)
    + AircraftClassParam(f)
  }

  /** The pairs a regions request for API key `key` sends. */
  function RegionParams(key: string, f: Filters): seq<Param> {
    QueryFor(key, f, FlightLevelTokens(f.flightLevel))
  }

  /** The query string of a regions request for API key `key`. */
  method BuildQuery(key: string, f: Filters) returns (query: string)
    ensures query == Serialize(RegionParams(key, f))
  {
    ghost var levels := FlightLevelTokens(f.flightLevel);
    var params := new SearchParams();
    params.Append("key", key);
    if f.time != "" {
      params.Append("time", f.time);
    }
    assert params.entries == [("key", key)] + WhenNonEmpty("time", f.time);
    if f.flightLevel != "" {
      AppendFlightLevels(params, f.flightLevel);
    } else {
      NoLevels();
    }
    assert params.entries == [("key", key)] + WhenNonEmpty("time", f.time) + LevelParams(levels);
    if f.threshold != "" {
      params.Append("threshold", f.threshold);
    }
    if SendsAircraftClass(f) {
      params.Append("aircraftClass", f.aircraftClass.value);
    }
    assert params.entries == QueryFor(key, f, levels);
    query := params.ToString();
  }

  /** The names a regions query may hold after the key. */
  predicate FilterName(name: string) {
    name == "time" || name == "flightLevel" || name == "threshold" || name == "aircraftClass"
  }

  /** `getAll` over a query splits into its five parts. */
  lemma GetAllQuery(key: string, f: Filters, levels: seq<string>, name: string)
    ensures GetAll(QueryFor(key, f, levels), name)
         == GetAll([("key", key)], name) + GetAll(WhenNonEmpty("time", f.time), name) + GetAll(LevelParams(levels), name)
          + GetAll(WhenNonEmpty("threshold", f.threshold), name) + GetAll(AircraftClassParam(f), name)
  {
    var k: seq<Param> := [("key", key)];
    var t := WhenNonEmpty("time", f.time);
    var l := LevelParams(levels);
    var h := WhenNonEmpty("threshold", f.threshold);
    GetAllAppend(k + t + l + h, AircraftClassParam(f), name);
    GetAllAppend(k + t + l, h, name);
    GetAllAppend(k + t, l, name);
    GetAllAppend(k, t, name);
  }

  /** `getAll` of one name over a query: the key pair, the optional pairs and the levels taken one by one. */
  lemma GetAllParts(key: string, f: Filters, levels: seq<string>, name: string)
    ensures GetAll(QueryFor(key, f, levels), name)
         == (if name == "key" then [key] else [])
          + (if f.time != "" && name == "time" then [f.time] else [])
          + (if name == "flightLevel" then levels else [])
          + (if f.threshold != "" && name == "threshold" then [f.threshold] else [])
          + (if SendsAircraftClass(f) && name == "aircraftClass" then [f.aircraftClass.value] else [])
  {
    GetAllQuery(key, f, levels, name);
    GetAllSingle(("key", key), name);
    GetAllWhen("time", f.time, name);
    GetAllLevels(levels, name);
    GetAllWhen("threshold", f.threshold, name);
    if SendsAircraftClass(f) {
      GetAllSingle(("aircraftClass", f.aircraftClass.value), name);
    }
  }

  /** The key is sent first and once. */
  lemma KeySentOnce(key: string, f: Filters)
    ensures RegionParams(key, f)[0] == ("key", key)
    ensures GetAll(RegionParams(key, f), "key") == [key]
  {
    GetAllParts(key, f, FlightLevelTokens(f.flightLevel), "key");
  }

  /** `time` is sent exactly when it is non-empty. */
  lemma TimeSent(key: string, f: Filters)
    ensures GetAll(RegionParams(key, f), "time") == if f.time != "" then [f.time] else []
  {
    GetAllParts(key, f, FlightLevelTokens(f.flightLevel), "time");
  }

  /** The flight-level pairs of a query are exactly its levels. */
  lemma LevelsSent(key: string, f: Filters, levels: seq<string>)
    ensures GetAll(QueryFor(key, f, levels), "flightLevel") == levels
  {
    GetAllParts(key, f, levels, "flightLevel");
  }

  /** Each non-empty trimmed flight level is sent, in order, and nothing else under that name. */
  lemma FlightLevelsSent(key: string, f: Filters)
    ensures GetAll(RegionParams(key, f), "flightLevel") == FlightLevelTokens(f.flightLevel)
  {
    LevelsSent(key, f, FlightLevelTokens(f.flightLevel));
  }

  /** `threshold` is sent exactly when it is non-empty. */
  lemma ThresholdSent(key: string, f: Filters)
    ensures GetAll(RegionParams(key, f), "threshold") == if f.threshold != "" then [f.threshold] else []
  {
    GetAllParts(key, f, FlightLevelTokens(f.flightLevel), "threshold");
  }

  /** `aircraftClass` is sent exactly when it is set and not `default`. */
  lemma AircraftClassSent(key: string, f: Filters)
    ensures GetAll(RegionParams(key, f), "aircraftClass") == if SendsAircraftClass(f) then [f.aircraftClass.value] else []
  {
    GetAllParts(key, f, FlightLevelTokens(f.flightLevel), "aircraftClass");
  }

  /** After the key, only filter names are sent. */
  lemma OnlyFilterNames(key: string, f: Filters, levels: seq<string>)
    ensures var ps := QueryFor(key, f, levels);
      forall j :: 1 <= j < |ps| ==> FilterName(ps[j].0)
  {
    var k: seq<Param> := [("key", key)];
    var t := WhenNonEmpty("time", f.time);
    var l := LevelParams(levels);
    var ps := QueryFor(key, f, levels);
    forall j | 1 <= j < |ps|
      ensures FilterName(ps[j].0)
    {
      if j >= |k + t| && j < |k + t + l| {
        assert ps[j] == l[j - |k + t|];
      }
    }
  }

  /** The request URL: the base URL and the query. */
  function RequestUrl(key: string, f: Filters): string {
    BaseUrl + "?" + Serialize(RegionParams(key, f))
  }

  /** The request URL is ASCII, so its JavaScript `length` is its number of characters. */
  lemma RequestUrlLength(key: string, f: Filters)
    ensures Utf16Length(RequestUrl(key, f)) == |RequestUrl(key, f)|
  {
    var query := Serialize(RegionParams(key, f));
    BaseUrlPlain();
    SerializeIsAscii(RegionParams(key, f));
    assert IsAscii("?");
    AsciiAppend(BaseUrl, "?");
    AsciiAppend(BaseUrl + "?", query);
    AsciiUtf16Length(BaseUrl + "?" + query);
  }

  /**
   * `url.replace(/([&?])key=[^&]+&?/, …)`: the first `key` parameter is cut
   * out together with one following `&`; a `?` before it is kept, an `&` is not.
   */
  function RedactKey(url: string): string {
    match FindParam(url, "key", 0)
    case None => url
    case Some(i) =>
      var e := RunEnd(url, i + 5);
      var stop := if e < |url| then e + 1 else e;
      url[..i] + (if url[i] == '?' then "?" else "") + url[stop..]
  }

  /** The URL `base?key=` followed by anything starts with `base` and then `?`. */
  lemma KeyPrefix(base: string, r: string)
    ensures var url := (base + "?" + "key" + "=") + r;
      |url| > |base| + 4 && url[..|base|] == base && url[|base|] == '?'
  {
    var pre := base + "?" + "key" + "=";
    var url := pre + r;
    assert url[..|pre|] == pre;
    assert pre[..|base|] == base;
  }

  /**
   * Redaction of `base?key=value tail`, where the value holds no `&` and the
   * tail is empty or starts with `&`: the pair and that `&` are cut out.
   */
  lemma RedactShape(base: string, v: string, tail: string)
    requires NoSeparator(base) && v != [] && Excludes(v, '&') && (tail == [] || tail[0] == '&')
    ensures RedactKey((base + "?" + "key" + "=") + (v + tail)) == base + "?" + (if tail == [] then [] else tail[1..])
  {
    var pre := base + "?" + "key" + "=";
    var url := pre + (v + tail);
    var q := "key" + "=" + v + tail;
    LeadingShape(base, q, "key", v, tail);
    LeadingMatch(base, q, "key", v, tail);
    assert FindParam(url, "key", 0) == Some(|base|);
    RunAfter(pre, v, tail);
    assert RunEnd(url, |base| + 5) == |pre| + |v|;
    Pieces(pre, v, tail);
    KeyPrefix(base, v + tail);
    if tail != [] {
      assert url[|pre| + |v| + 1..] == tail[1..];
    }
  }

  /**
   * Redaction of a URL whose query starts with a non-empty `key` pair: the
   * pair and the `&` after it are cut out and the `?` stays.
   */
  lemma RedactLeadingKey(base: string, key: string, rest: seq<Param>)
    requires NoSeparator(base) && key != ""
    ensures RedactKey(base + "?" + Serialize([("key", key)] + rest)) == base + "?" + Serialize(rest)
  {
    var p := ("key", key);
    EncodePlain("key");
    var tail := if rest == [] then "" else "&" + Serialize(rest);
    LeadingParamShape(base, p, rest);
    RedactShape(base, Encode(key), tail);
  }

  /** The metadata URL is the request URL without its key parameter: the base URL and the filters. */
  lemma RedactedUrl(key: string, f: Filters)
    requires key != ""
    ensures RedactKey(RequestUrl(key, f)) == BaseUrl + "?" + Serialize(RegionParams(key, f)[1..])
  {
    var ps := RegionParams(key, f);
    assert ps == [("key", key)] + ps[1..];
    BaseUrlPlain();
    RedactLeadingKey(BaseUrl, key, ps[1..]);
  }

  /** A filter name is serialized as itself, which is not `key`. */
  lemma FilterNameNotKey(name: string)
    requires FilterName(name)
    ensures Encode(name) != "key"
  {
    if name == "time" {
      EncodePlain("time");
    } else if name == "flightLevel" {
      EncodePlain("flightLevel");
    } else if name == "threshold" {
      EncodePlain("threshold");
    } else {
      EncodePlain("aircraftClass");
    }
  }

  /** No pair after the first is encoded under the name `key`. */
  lemma NoKeyAfterFirst(ps: seq<Param>)
    requires |ps| >= 1
    requires forall j :: 1 <= j < |ps| ==> FilterName(ps[j].0)
    ensures forall j :: 0 <= j < |ps[1..]| ==> Encode(ps[1..][j].0) != "key"
  {
    forall j | 0 <= j < |ps[1..]|
      ensures Encode(ps[1..][j].0) != "key"
    {
      assert ps[1..][j] == ps[j + 1];
      FilterNameNotKey(ps[j + 1].0);
    }
  }

  /** The displayed URL holds no `key` parameter at all: the credential is not shown. */
  lemma RedactedHasNoKey(key: string, f: Filters)
    requires key != ""
    ensures FindParam(RedactKey(RequestUrl(key, f)), "key", 0) == None
  {
    var ps := RegionParams(key, f);
    OnlyFilterNames(key, f, FlightLevelTokens(f.flightLevel));
    NoKeyAfterFirst(ps);
    assert '=' !in "key" by {
      assert "key" == ['k', 'e', 'y'];
    }
    BaseUrlPlain();
    RedactedUrl(key, f);
    NoParamInUrl(BaseUrl, ps[1..], "key");
  }

  /** `data.type === 'FeatureCollection' && Array.isArray(data.features)`. */
  predicate IsFeatureCollection(data: Value) {
    && Property(data, "type") == Some(JString("FeatureCollection"))
    && Property(data, "features").Some? && Property(data, "features").value.JArray?
  }

  /** The features of a value that passed the check. */
  function FeaturesOf(data: Value): seq<Value>
    requires IsFeatureCollection(data)
  {
    Property(data, "features").value.items
  }

  datatype RegionsReply = RegionsReply(data: RegionFeatureCollection, meta: RequestMetadata)

  /** The URL handed to `fetch`, if any, and what the call resolves or rejects with. */
  datatype RegionsCall = RegionsCall(requested: Option<string>, result: Result<RegionsReply, ApiError>)

  /**
   * The whole call for a configured key `apiKey`, a transport `fetch` (which
   * either completes with a text reply or fails with a message) and a JSON
   * parser `parse` (`None` for a syntax error).
   */
  function RegionsOutcome(apiKey: Option<string>, f: Filters, fetch: string -> Result<TextReply, string>,
                          parse: string -> Option<Value>): RegionsCall
  {
    if !Present(apiKey) then RegionsCall(None, Failure(MissingKey))
    else
      var url := RequestUrl(apiKey.value, f);
      RegionsCall(Some(url),
        match fetch(url)
        case Failure(m) => Failure(Transport(m))
        case Success(reply) =>
          match parse(reply.body)
          case None => Failure(InvalidJson)
          case Some(data) =>
            if data == JNull then Failure(NullBody)
            else if !IsFeatureCollection(data) then Failure(InvalidGeoJson)
            else Success(RegionsReply(
              RegionFeatureCollection(FeaturesOf(data)),
              RequestMetadata(RedactKey(url), reply.status, |url|, Utf16Length(reply.body), reply.elapsed))))
  }

  /** `getRegions(filters)`. */
  method GetRegions(apiKey: Option<string>, f: Filters, fetch: string -> Result<TextReply, string>,
                    parse: string -> Option<Value>) returns (call: RegionsCall)
    ensures call == RegionsOutcome(apiKey, f, fetch, parse)
  {
    if !Present(apiKey) {
      return RegionsCall(None, Failure(MissingKey));
    }
    var query := BuildQuery(apiKey.value, f);
    var url := BaseUrl + "?" + query;
    var urlForMeta := RedactKey(url);
    RequestUrlLength(apiKey.value, f);
    var requestSize := Utf16Length(url);
    var res := fetch(url);
    if res.Failure? {
      return RegionsCall(Some(url), Failure(Transport(res.error)));
    }
    var reply := res.value;
    var responseSize := Utf16Length(reply.body);
    var data := parse(reply.body);
    if data.None? {
      return RegionsCall(Some(url), Failure(InvalidJson));
    }
    if data.value == JNull {
      return RegionsCall(Some(url), Failure(NullBody));
    }
    if !IsFeatureCollection(data.value) {
      return RegionsCall(Some(url), Failure(InvalidGeoJson));
    }
    var meta := RequestMetadata(urlForMeta, reply.status, requestSize, responseSize, reply.elapsed);
    call := RegionsCall(Some(url), Success(RegionsReply(RegionFeatureCollection(FeaturesOf(data.value)), meta)));
  }

  // ---------------------------------------------------------------------------
  // What the outcome promises.

  /** Without a key nothing is requested and the call fails with the missing-key message. */
  lemma MissingKeyNoRequest(apiKey: Option<string>, f: Filters, fetch: string -> Result<TextReply, string>,
                            parse: string -> Option<Value>)
    ensures var c := RegionsOutcome(apiKey, f, fetch, parse);
      !Present(apiKey) <==> c.requested.None?
    ensures var c := RegionsOutcome(apiKey, f, fetch, parse);
      !Present(apiKey) <==> c.result == Failure(MissingKey)
    ensures var c := RegionsOutcome(apiKey, f, fetch, parse);
      !Present(apiKey) ==> Message(c.result.error) == MissingKeyMessage
  {
  }

  /** With a key, the call requests the URL of the filters; it fails as invalid JSON exactly when the body does not parse. */
  lemma InvalidJsonIffUnparsable(key: string, f: Filters, fetch: string -> Result<TextReply, string>,
                                 parse: string -> Option<Value>)
    requires key != ""
    ensures var url := RequestUrl(key, f);
      var c := RegionsOutcome(Some(key), f, fetch, parse);
      && c.requested == Some(url)
      && (c.result == Failure(InvalidJson) <==> fetch(url).Success? && parse(fetch(url).value.body).None?)
  {
  }

  /**
   * A body that parses succeeds exactly when it is a FeatureCollection with a
   * features array; the status code is not consulted.
   */
  lemma SucceedsIffFeatureCollection(key: string, f: Filters, reply: TextReply, data: Value,
                                     fetch: string -> Result<TextReply, string>, parse: string -> Option<Value>)
    requires key != ""
    requires fetch(RequestUrl(key, f)) == Success(reply) && parse(reply.body) == Some(data)
    ensures var c := RegionsOutcome(Some(key), f, fetch, parse);
      c.result.Success? <==> IsFeatureCollection(data)
    ensures var c := RegionsOutcome(Some(key), f, fetch, parse);
      c.result.Success? ==> c.result.value.data.features == FeaturesOf(data)
  {
  }

  /**
   * On success the metadata reports the key-free URL, the status (which is
   * not checked), the request size as the length of the URL actually
   * requested, the body length and the elapsed time.
   */
  lemma SuccessMetadata(key: string, f: Filters, reply: TextReply, data: Value,
                        fetch: string -> Result<TextReply, string>, parse: string -> Option<Value>)
    requires key != ""
    requires fetch(RequestUrl(key, f)) == Success(reply) && parse(reply.body) == Some(data)
    requires IsFeatureCollection(data)
    ensures RegionsOutcome(Some(key), f, fetch, parse).result
         == Success(RegionsReply(RegionFeatureCollection(FeaturesOf(data)),
              RequestMetadata(BaseUrl + "?" + Serialize(RegionParams(key, f)[1..]), reply.status,
                              |RequestUrl(key, f)|, Utf16Length(reply.body), reply.elapsed)))
  {
    var url := RequestUrl(key, f);
    RedactedUrl(key, f);
    assert Present(Some(key));
    assert data != JNull;
  }
}
