/**
 * The records the application passes around: the four query filters, the
 * request metadata, the validated feature collection and the errors of the
 * API clients.
 */
module Types {
  import opened Wrappers
  import opened Json
  import opened Text

  /** The root of the Contrails API, shared by the regions and the grid endpoints. */
  const ApiRoot: string := "https://contrails.googleapis.com/v2"

  lemma ApiRootChars()
    ensures UrlChars(ApiRoot)
  {
  }

  /**
   * The filters a user edits. `aircraftClass` is `None` where the request
   * filters set it to `undefined`; every other field is always a string.
   */
  datatype Filters = Filters(time: string, flightLevel: string, threshold: string, aircraftClass: Option<string>)

  /** JavaScript truthiness of a possibly undefined string. */
  predicate Present(s: Option<string>) {
    s.Some? && s.value != ""
  }

  /** What a client reports about one completed round trip. */
  datatype RequestMetadata = RequestMetadata(url: string, status: int, requestSize: nat, responseSize: nat, duration: int)

  /** The `features` array of a response that passed the FeatureCollection check, as parsed. */
  datatype RegionFeatureCollection = RegionFeatureCollection(features: seq<Value>)

  /**
   * A feature of the shape the table and the statistics read: an object whose
   * `properties` is an object and whose `geometry` is neither null nor
   * missing (reading either of another shape throws in the source).
   */
  predicate IsRegionFeature(f: Value) {
    && Property(f, "properties").Some? && Property(f, "properties").value.JObject?
    && Property(f, "geometry").Some? && Property(f, "geometry").value != JNull
  }

  predicate WellTyped(c: RegionFeatureCollection) {
    forall i :: 0 <= i < |c.features| ==> IsRegionFeature(c.features[i])
  }

  /** `f.properties`, as its members in enumeration order. */
  function Properties(f: Value): seq<(string, Value)>
    requires IsRegionFeature(f)
  {
    Property(f, "properties").value.members
  }

  /** `f.geometry.coordinates`; `None` stands for `undefined`. */
  function Coordinates(f: Value): Option<Value>
    requires IsRegionFeature(f)
  {
    Property(Property(f, "geometry").value, "coordinates")
  }

  /** A completed `fetch` whose body was read as text: status, body, and the elapsed milliseconds, rounded. */
  datatype TextReply = TextReply(status: int, body: string, elapsed: int)

  /** A completed `fetch` whose body was read as a blob: status, the blob's size in bytes, and the elapsed milliseconds, rounded. */
  datatype BlobReply = BlobReply(status: int, size: nat, elapsed: int)

  /** The ways a call to the API can fail. */
  datatype ApiError =
    | MissingKey                  // no API key configured; nothing is requested
    | Transport(message: string)  // the request or the reading of its body failed
    | InvalidJson                 // the body is not JSON
    | InvalidGeoJson              // the JSON is not a FeatureCollection with a features array
    | NullBody                    // the body is the JSON literal null, whose `type` cannot be read

  const MissingKeyMessage: string := "Contrails API key missing. Set VITE_CONTRAILS_API_KEY in your .env file."
  const InvalidJsonMessage: string := "Invalid JSON response from Contrails API"
  const InvalidGeoJsonMessage: string := "Invalid GeoJSON response from Contrails API"
  /** The TypeError text of the V8 engine for reading `type` of null. */
  const NullBodyMessage: string := "Cannot read properties of null (reading 'type')"

  /** The `message` of the error each failure throws. */
  function Message(e: ApiError): string {
    match e
    case MissingKey => MissingKeyMessage
    case Transport(m) => m
    case InvalidJson => InvalidJsonMessage
    case InvalidGeoJson => InvalidGeoJsonMessage
    case NullBody => NullBodyMessage
  }
}
