/**
 * The grid client: a sibling of the regions client with its own query rules
 * (no threshold, aircraft class whenever set, a fixed format last) and a
 * metadata record that keeps the full URL.
 */
module Grids {
  import opened Wrappers
  import opened Text
  import opened Types
  import opened FormUrlEncoded
  import opened UrlPatterns
  import opened QueryParams

  /** `https://contrails.googleapis.com/v2/grid/ef`. */
  const GridBaseUrl: string := ApiRoot + "/grid/ef"

  /** The format every grid request asks for. */
  const Format: Param := ("format", "netcdf3")

  /** The grid base URL holds no query separator and is ASCII. */
  lemma GridBaseUrlPlain()
    ensures NoSeparator(GridBaseUrl) && IsAscii(GridBaseUrl)
  {
    ApiRootChars();
    assert UrlChars("/grid/ef");
    UrlCharsAppend(ApiRoot, "/grid/ef");
    UrlCharsPlain(GridBaseUrl);
  }

  /** A pair appended only when its value is set and non-empty. */
  function WhenSet(name: string, value: Option<string>): seq<Param> {
    if Present(value) then [(name, value.value)] else []
  }

  /** The pairs of a grid query whose flight levels are `levels`. */
  function GridQueryFor(key: string, f: Filters, levels: seq<string>): seq<Param> {
    [("key", key)] + WhenNonEmpty("time", f.time) + LevelParams(levels) + WhenSet("aircraftClass", f.aircraftClass)
    + [Format]
  }

  /** The pairs a grid request for API key `key` sends. */
  function GridParams(key: string, f: Filters): seq<Param> {
    GridQueryFor(key, f, FlightLevelTokens(f.flightLevel))
  }

  /** The URL a grid request fetches. */
  function GridUrl(key: string, f: Filters): string {
    GridBaseUrl + "?" + Serialize(GridParams(key, f))
  }

  /** The request URL is ASCII, so its JavaScript `length` is its number of characters. */
  lemma GridUrlLength(key: string, f: Filters)
    ensures Utf16Length(GridUrl(key, f)) == |GridUrl(key, f)|
  {
    var query := Serialize(GridParams(key, f));
    GridBaseUrlPlain();
    SerializeIsAscii(GridParams(key, f));
    assert IsAscii("?");
    AsciiAppend(GridBaseUrl, "?");
    AsciiAppend(GridBaseUrl + "?", query);
    AsciiUtf16Length(GridBaseUrl + "?" + query);
  }

  /** A completed grid call: the downloaded blob's size and the metadata. */
  datatype GridsReply = GridsReply(blobSize: nat, meta: RequestMetadata)

  /** The URL handed to `fetch`, if any, and what the call resolves or rejects with. */
  datatype GridsCall = GridsCall(requested: Option<string>, result: Result<GridsReply, ApiError>)

  /** The whole grid call for a configured key and a transport `fetch` that reads the body as a blob. */
  function GridsOutcome(apiKey: Option<string>, f: Filters, fetch: string -> Result<BlobReply, string>): GridsCall {
    if !Present(apiKey) then GridsCall(None, Failure(MissingKey))
    else
      var url := GridUrl(apiKey.value, f);
      GridsCall(Some(url),
        match fetch(url)
        case Failure(m) => Failure(Transport(m))
        case Success(reply) => Success(GridsReply(reply.size, RequestMetadata(url, reply.status, |url|, reply.size, reply.elapsed))))
  }

  /** The parameter construction of `getGrids`: successive appends, then `toString`. */
  method BuildGridQuery(key: string, f: Filters) returns (query: string)
    ensures query == Serialize(GridParams(key, f))
  {
    ghost var levels := FlightLevelTokens(f.flightLevel);
    var params := new SearchParams();
    params.Append("key", key);
    if f.time != "" {
      params.Append("time", f.time);
    }
    assert params.entries == [("key", key)] + WhenNonEmpty("time", f.time);
    if f.flightLevel != "" {
      AppendFlightLevels(params, f.flightLevel);
    } else {
      NoLevels();
    }
    assert params.entries == [("key", key)] + WhenNonEmpty("time", f.time) + LevelParams(levels);
    if Present(f.aircraftClass) {
      params.Append("aircraftClass", f.aircraftClass.value);
    }
    params.Append("format", "netcdf3");
    assert params.entries == GridQueryFor(key, f, levels);
    query := params.ToString();
  }

  /** `getGrids(filters)`: the key guard, the query, the fetch and the metadata record. */
  method GetGrids(apiKey: Option<string>, f: Filters, fetch: string -> Result<BlobReply, string>)
    returns (call: GridsCall)
    ensures call == GridsOutcome(apiKey, f, fetch)
  {
    if !Present(apiKey) {
      return GridsCall(None, Failure(MissingKey));
    }
    var query := BuildGridQuery(apiKey.value, f);
    var url := GridBaseUrl + "?" + query;
    GridUrlLength(apiKey.value, f);
    var requestSize := Utf16Length(url);
    var res := fetch(url);
    if res.Failure? {
      return GridsCall(Some(url), Failure(Transport(res.error)));
    }
    var reply := res.value;
    var meta := RequestMetadata(url, reply.status, requestSize, reply.size, reply.elapsed);
    call := GridsCall(Some(url), Success(GridsReply(reply.size, meta)));
  }

  // ---------------------------------------------------------------------------
  // What the grid query and call promise.

  /** `getAll` over a grid query splits into its five parts. */
  lemma GetAllGridQuery(key: string, f: Filters, levels: seq<string>, name: string)
    ensures GetAll(GridQueryFor(key, f, levels), name)
         == GetAll([("key", key)], name) + GetAll(WhenNonEmpty("time", f.time), name) + GetAll(LevelParams(levels), name)
          + GetAll(WhenSet("aircraftClass", f.aircraftClass), name) + GetAll([Format], name)
  {
    var k: seq<Param> := [("key", key)];
    var t := WhenNonEmpty("time", f.time);
    var l := LevelParams(levels);
    var a := WhenSet("aircraftClass", f.aircraftClass);
    GetAllAppend(k + t + l + a, [Format], name);
    GetAllAppend(k + t + l, a, name);
    GetAllAppend(k + t, l, name);
    GetAllAppend(k, t, name);
  }

  /** The key comes first and the format last. */
  lemma KeyFirstFormatLast(key: string, f: Filters)
    ensures var ps := GridParams(key, f);
      |ps| >= 2 && ps[0] == ("key", key) && ps[|ps| - 1] == ("format", "netcdf3")
  {
  }

  /** No `threshold` is ever sent, whatever the filter holds. */
  lemma NoThresholdSent(key: string, f: Filters, levels: seq<string>)
    ensures GetAll(GridQueryFor(key, f, levels), "threshold") == []
  {
    GetAllGridQuery(key, f, levels, "threshold");
    GetAllLevels(levels, "threshold");
  }

  /** `threshold` is absent from every grid request. */
  lemma GridThresholdIgnored(key: string, f: Filters)
    ensures GetAll(GridParams(key, f), "threshold") == []
  {
    NoThresholdSent(key, f, FlightLevelTokens(f.flightLevel));
  }

  /** The aircraft-class pairs of a grid query: the value whenever it is set, `default` included. */
  lemma ClassSent(key: string, f: Filters, levels: seq<string>)
    ensures GetAll(GridQueryFor(key, f, levels), "aircraftClass")
         == if Present(f.aircraftClass) then [f.aircraftClass.value] else []
  {
    GetAllGridQuery(key, f, levels, "aircraftClass");
    GetAllLevels(levels, "aircraftClass");
  }

  /** `aircraftClass` is sent verbatim whenever it is non-empty, including `default`. */
  lemma GridAircraftClassSent(key: string, f: Filters)
    ensures GetAll(GridParams(key, f), "aircraftClass")
         == if Present(f.aircraftClass) then [f.aircraftClass.value] else []
  {
    ClassSent(key, f, FlightLevelTokens(f.flightLevel));
  }

  /** The flight-level pairs of a grid query are exactly its levels. */
  lemma GridLevelsSent(key: string, f: Filters, levels: seq<string>)
    ensures GetAll(GridQueryFor(key, f, levels), "flightLevel") == levels
  {
    GetAllGridQuery(key, f, levels, "flightLevel");
    GetAllLevels(levels, "flightLevel");
    assert GetAll([("key", key)], "flightLevel") == [];
    assert GetAll(WhenNonEmpty("time", f.time), "flightLevel") == [];
    assert GetAll(WhenSet("aircraftClass", f.aircraftClass), "flightLevel") == [];
    assert GetAll([Format], "flightLevel") == [];
  }

  /** The grid request expands the flight levels by the same rule as the regions request. */
  lemma GridFlightLevels(key: string, f: Filters)
    ensures GetAll(GridParams(key, f), "flightLevel") == FlightLevelTokens(f.flightLevel)
  {
    GridLevelsSent(key, f, FlightLevelTokens(f.flightLevel));
  }

  /** Without a key nothing is requested; with one, the grid URL is. */
  lemma GridMissingKey(apiKey: Option<string>, f: Filters, fetch: string -> Result<BlobReply, string>)
    ensures var c := GridsOutcome(apiKey, f, fetch);
      && (!Present(apiKey) <==> c.result == Failure(MissingKey))
      && (!Present(apiKey) <==> c.requested.None?)
      && (Present(apiKey) ==> c.requested == Some(GridUrl(apiKey.value, f)))
  {
  }

  /**
   * A completed fetch always succeeds, whatever its status; the metadata keeps
   * the full URL, key included, and its length as the request size.
   */
  lemma GridMetadata(key: string, f: Filters, reply: BlobReply, fetch: string -> Result<BlobReply, string>)
    requires key != ""
    requires fetch(GridUrl(key, f)) == Success(reply)
    ensures var c := GridsOutcome(Some(key), f, fetch);
      && c.result.Success?
      && c.result.value.meta.url == GridUrl(key, f)
      && c.result.value.meta.requestSize == |GridUrl(key, f)|
      && c.result.value.meta.status == reply.status
      && c.result.value.meta.responseSize == reply.size
  {
  }

  /** The metadata URL still carries the key: the pattern for `key` matches right after the base URL. */
  lemma GridUrlShowsKey(key: string, f: Filters)
    requires key != ""
    ensures FindParam(GridUrl(key, f), "key", 0) == Some(|GridBaseUrl|)
  {
    var ps := GridParams(key, f);
    assert ps == [("key", key)] + ps[1..];
    GridBaseUrlPlain();
    EncodePlain("key");
    LeadingParamFound(GridBaseUrl, ("key", key), ps[1..]);
  }
}
