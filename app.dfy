/**
 * The application shell: the initial filters, whose time is the next full
 * hour in UTC, and the controller behind `handleApplyFilters`, which moves
 * the shared state through a start and a completion on every apply.
 */
module App {
  import opened Wrappers
  import opened Json
  import opened Types
  import opened Regions

  // ---------------------------------------------------------------------------
  // The initial time, on integer milliseconds since the epoch

  const HourMs: int := 3600000
  const MinuteMs: int := 60000
  const SecondMs: int := 1000

  /** The UTC minute, second and millisecond fields of an instant; dates before the epoch count down the same way. */
  function MinuteOf(d: int): int { (d % HourMs) / MinuteMs }
  function SecondOf(d: int): int { (d % MinuteMs) / SecondMs }
  function MillisecondOf(d: int): int { d % SecondMs }

  /** The instant on the hour that is at or after `now` and less than an hour after it. */
  predicate IsNextFullHour(now: int, d: int) {
    d % HourMs == 0 && now <= d < now + HourMs
  }

  /** Within the hour, the minute-of-hour remainder is the minute remainder of the instant. */
  lemma MinuteMod(d: int)
    ensures (d % HourMs) % MinuteMs == d % MinuteMs
  {
    var q := d / HourMs;
    var r := d % HourMs;
    assert d == HourMs * q + r;
    assert r == MinuteMs * (r / MinuteMs) + r % MinuteMs;
    assert d == MinuteMs * (60 * q + r / MinuteMs) + r % MinuteMs;
  }

  /** Within the minute, the second remainder is the second remainder of the instant. */
  lemma SecondMod(d: int)
    ensures (d % MinuteMs) % SecondMs == d % SecondMs
  {
    var q := d / MinuteMs;
    var r := d % MinuteMs;
    assert d == MinuteMs * q + r;
    assert r == SecondMs * (r / SecondMs) + r % SecondMs;
    assert d == SecondMs * (60 * q + r / SecondMs) + r % SecondMs;
  }

  /** An instant is on the hour exactly when its minute, second and millisecond are all zero. */
  lemma OnTheHour(d: int)
    ensures d % HourMs == 0 <==> MinuteOf(d) == 0 && SecondOf(d) == 0 && MillisecondOf(d) == 0
  {
    MinuteMod(d);
    SecondMod(d);
  }

  /** Taking away at most the remainder in the hour takes it away from that remainder. */
  lemma SubRemainder(d: int, k: int)
    requires 0 <= k <= d % HourMs
    ensures (d - k) % HourMs == d % HourMs - k
  {
    assert d - k == HourMs * (d / HourMs) + (d % HourMs - k);
  }

  /** Setting the minute to zero leaves the instant's remainder in the minute as its remainder in the hour. */
  lemma ClearMinute(d: int)
    ensures var c := d - MinuteOf(d) * MinuteMs;
      c % HourMs < MinuteMs && d - c == d % HourMs - c % HourMs
  {
    MinuteMod(d);
    var r := d % HourMs;
    assert r == MinuteMs * (r / MinuteMs) + r % MinuteMs;
    SubRemainder(d, MinuteOf(d) * MinuteMs);
  }

  /** Within the first minute of the hour, setting the second to zero leaves the millisecond as the remainder. */
  lemma ClearSecond(d: int)
    requires d % HourMs < MinuteMs
    ensures var c := d - SecondOf(d) * SecondMs;
      c % HourMs < SecondMs && d - c == d % HourMs - c % HourMs
  {
    MinuteMod(d);
    SecondMod(d);
    var r := d % HourMs;
    assert r == d % MinuteMs;
    assert r == SecondMs * (r / SecondMs) + r % SecondMs;
    SubRemainder(d, SecondOf(d) * SecondMs);
  }

  /** Within the first second of the hour, the millisecond is the whole remainder, and setting it to zero lands on the hour. */
  lemma ClearMillisecond(d: int)
    requires d % HourMs < SecondMs
    ensures var c := d - MillisecondOf(d);
      c % HourMs == 0 && d - c == d % HourMs
  {
    MinuteMod(d);
    SecondMod(d);
    SubRemainder(d, d % HourMs);
  }

  /** Adding an hour keeps the remainder in the hour. */
  lemma AddHour(d: int)
    ensures (d + HourMs) % HourMs == d % HourMs
  {
    assert d + HourMs == HourMs * (d / HourMs + 1) + d % HourMs;
  }

  /**
   * The initial-time computation: an hour is added unless the instant is
   * already on the hour, then the minute, the second and the millisecond are
   * set to zero; the result is the next full hour.
   */
  method NextFullHour(now: int) returns (d: int)
    ensures IsNextFullHour(now, d)
  {
    d := now;
    OnTheHour(d);
    if MinuteOf(d) > 0 || SecondOf(d) > 0 || MillisecondOf(d) > 0 {
      AddHour(d);
      d := d + HourMs;
    }
    ghost var top := d;
    ClearMinute(d);
    d := d - MinuteOf(d) * MinuteMs;
    assert d == top - (top % HourMs - d % HourMs);
    ClearSecond(d);
    d := d - SecondOf(d) * SecondMs;
    assert d == top - (top % HourMs - d % HourMs);
    ClearMillisecond(d);
    d := d - MillisecondOf(d);
    assert d == top - top % HourMs;
  }

  /** The next full hour is unique: the initial time is determined by the clock. */
  lemma NextFullHourUnique(now: int, d1: int, d2: int)
    requires IsNextFullHour(now, d1) && IsNextFullHour(now, d2)
    ensures d1 == d2
  {
    var q1, q2 := d1 / HourMs, d2 / HourMs;
    assert d1 == q1 * HourMs && d2 == q2 * HourMs;
  }

  /** An instant already on the hour is kept. */
  lemma OnTheHourKept(now: int, d: int)
    requires now % HourMs == 0 && IsNextFullHour(now, d)
    ensures d == now
  {
    NextFullHourUnique(now, now, d);
  }

  /** The initial filters: the ISO text of the next full hour (`toIso` is the date library's `toISOString`), the rest empty. */
  method InitialFilters(now: int, toIso: int -> string) returns (f: Filters, hour: int)
    ensures IsNextFullHour(now, hour)
    ensures f == Filters(toIso(hour), "", "", Some(""))
  {
    var d := NextFullHour(now);
    hour := d;
    f := Filters(toIso(d), "", "", Some(""));
  }

  // ---------------------------------------------------------------------------
  // The apply controller

  const NoRegionsMessage: string := "No regions found for the selected filters."
  const UnknownErrorMessage: string := "Unknown error"

  /** `err?.message || 'Unknown error'`. */
  function ErrorText(e: ApiError): (r: string)
    ensures r != ""
  {
    if Message(e) != "" then Message(e) else UnknownErrorMessage
  }

  /** Every failure the regions call raises itself is shown with its own message; only an empty transport message becomes `Unknown error`. */
  lemma ErrorTexts(m: string)
    ensures ErrorText(MissingKey) == MissingKeyMessage && ErrorText(InvalidJson) == InvalidJsonMessage
    ensures ErrorText(InvalidGeoJson) == InvalidGeoJsonMessage && ErrorText(NullBody) == NullBodyMessage
    ensures ErrorText(Transport(m)) == if m == "" then UnknownErrorMessage else m
  {
  }

  /** The five state cells the controller keeps. */
  datatype View = View(filters: Filters, loading: bool, error: Option<string>,
                       geojson: Option<RegionFeatureCollection>, meta: Option<RequestMetadata>)

  /** The start of an apply (`src/app.tsx` lines 36-40). */
  function Begin(v: View, newFilters: Filters): (r: View)
    ensures r.loading && r.error == None && r.geojson == None && r.meta == None && r.filters == newFilters
  {
    View(newFilters, true, None, None, None)
  }

  /** The completion of an apply with what the regions call resolved or rejected with. */
  function Finish(v: View, result: Result<RegionsReply, ApiError>): (r: View)
    ensures !r.loading && r.filters == v.filters
  {
    match result
    case Success(reply) =>
      v.(geojson := Some(reply.data), meta := Some(reply.meta), loading := false,
         error := if |reply.data.features| == 0 then Some(NoRegionsMessage) else v.error)
    case Failure(e) =>
      v.(geojson := None, meta := None, loading := false, error := Some(ErrorText(e)))
  }

  /** The state outside an apply is coherent: data and metadata come together, and an error is never empty. */
  predicate Settled(v: View) {
    && !v.loading
    && (v.geojson.Some? <==> v.meta.Some?)
    && (v.error.Some? ==> v.error.value != "")
  }

  /** A whole apply: the filters are the new ones and nothing is loading. */
  function Apply(v: View, newFilters: Filters, result: Result<RegionsReply, ApiError>): View {
    Finish(Begin(v, newFilters), result)
  }

  /** A successful apply with features stores them and their metadata and shows no error. */
  lemma NonEmptySuccess(v: View, newFilters: Filters, reply: RegionsReply)
    requires |reply.data.features| > 0
    ensures Apply(v, newFilters, Success(reply)) == View(newFilters, false, None, Some(reply.data), Some(reply.meta))
  {
  }

  /** A successful apply without features keeps the empty collection and shows the no-regions message. */
  lemma EmptySuccess(v: View, newFilters: Filters, reply: RegionsReply)
    requires |reply.data.features| == 0
    ensures Apply(v, newFilters, Success(reply)) == View(newFilters, false, Some(NoRegionsMessage), Some(reply.data), Some(reply.meta))
  {
  }

  /** A failed apply clears the data and the metadata and shows the error's text. */
  lemma FailedApply(v: View, newFilters: Filters, e: ApiError)
    ensures Apply(v, newFilters, Failure(e)) == View(newFilters, false, Some(ErrorText(e)), None, None)
  {
  }

  /** Whatever the previous state and the outcome, an apply ends settled and on the new filters. */
  lemma ApplySettles(v: View, newFilters: Filters, result: Result<RegionsReply, ApiError>)
    ensures Settled(Apply(v, newFilters, result)) && Apply(v, newFilters, result).filters == newFilters
    ensures Apply(v, newFilters, result).error == None <==> result.Success? && |result.value.data.features| > 0
  {
  }

  /** The outcome of an apply does not depend on the state before it. */
  lemma ApplyForgetsPast(v: View, w: View, newFilters: Filters, result: Result<RegionsReply, ApiError>)
    ensures Apply(v, newFilters, result) == Apply(w, newFilters, result)
  {
  }

  /** Applying without a configured key shows the missing-key message and stores nothing. */
  lemma ApplyWithoutKey(v: View, apiKey: Option<string>, newFilters: Filters,
                        fetch: string -> Result<TextReply, string>, parse: string -> Option<Value>)
    requires !Present(apiKey)
    ensures Apply(v, newFilters, RegionsOutcome(apiKey, newFilters, fetch, parse).result)
              == View(newFilters, false, Some(MissingKeyMessage), None, None)
  {
  }

  /** The application's state cells, and every filter set handed to the regions call, in order. */
  class Controller {
    var filters: Filters
    var loading: bool
    var error: Option<string>
    var geojson: Option<RegionFeatureCollection>
    var meta: Option<RequestMetadata>
    var applied: seq<Filters>

    function State(): View
      reads this
    {
      View(filters, loading, error, geojson, meta)
    }

    /** The initial state: the initial filters, nothing loaded, nothing applied yet. */
    constructor(now: int, toIso: int -> string)
      ensures exists hour :: IsNextFullHour(now, hour) && filters == Filters(toIso(hour), "", "", Some(""))
      ensures State() == View(filters, false, None, None, None) && applied == []
    {
      var f, hour := InitialFilters(now, toIso);
      filters := f;
      loading := false;
      error := None;
      geojson := None;
      meta := None;
      applied := [];
    }

    /** Lines 36-40: the state cells set before the request is made. */
    method BeginApply(newFilters: Filters)
      modifies this
      ensures State() == Begin(old(State()), newFilters) && applied == old(applied)
    {
      filters := newFilters;
      loading := true;
      error := None;
      geojson := None;
      meta := None;
    }

    /** Lines 43-54: the state cells set when the request resolves or rejects. */
    method FinishApply(result: Result<RegionsReply, ApiError>)
      modifies this
      ensures State() == Finish(old(State()), result) && applied == old(applied)
    {
      match result {
        case Success(reply) =>
          geojson := Some(reply.data);
          meta := Some(reply.meta);
          loading := false;
          if |reply.data.features| == 0 {
            error := Some(NoRegionsMessage);
          }
        case Failure(e) =>
          geojson := None;
          meta := None;
          loading := false;
          error := Some(ErrorText(e));
      }
    }

    /** `handleApplyFilters(newFilters)`: start, one regions call, completion. */
    method ApplyFilters(newFilters: Filters, apiKey: Option<string>,
                        fetch: string -> Result<TextReply, string>, parse: string -> Option<Value>)
      modifies this
      ensures State() == Apply(old(State()), newFilters, RegionsOutcome(apiKey, newFilters, fetch, parse).result)
      ensures applied == old(applied) + [newFilters]
    {
      BeginApply(newFilters);
      applied := applied + [newFilters];
      var call := GetRegions(apiKey, newFilters, fetch, parse);
      FinishApply(call.result);
    }

    /** The mount effect: exactly one apply, with the current filters. */
    method Mount(apiKey: Option<string>, fetch: string -> Result<TextReply, string>, parse: string -> Option<Value>)
      modifies this
      ensures State() == Apply(old(State()), old(filters), RegionsOutcome(apiKey, old(filters), fetch, parse).result)
      ensures applied == old(applied) + [old(filters)]
    {
      ApplyFilters(filters, apiKey, fetch, parse);
    }
  }

  /** Starting the application: the initial filters are applied once and the state settles on them. */
  method Start(now: int, toIso: int -> string, apiKey: Option<string>,
               fetch: string -> Result<TextReply, string>, parse: string -> Option<Value>) returns (c: Controller)
    ensures fresh(c)
    ensures |c.applied| == 1 && c.filters == c.applied[0] && Settled(c.State())
    ensures exists hour :: IsNextFullHour(now, hour) && c.applied[0] == Filters(toIso(hour), "", "", Some(""))
  {
    c := new Controller(now, toIso);
    ghost var before := c.State();
    c.Mount(apiKey, fetch, parse);
    ApplySettles(before, c.applied[0], RegionsOutcome(apiKey, c.applied[0], fetch, parse).result);
  }
}
