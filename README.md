# Contrails regions explorer: verified model of its request and view logic

This project models the sequential logic of a small browser app that queries
the Google Contrails API for forecast contrail regions and shows them on a
map, in a sidebar and in a sortable data table. The model covers:

- **Regions query and call** (`Regions`). This is the query builder for
  `/v2/regions`, serialised as `application/x-www-form-urlencoded` by the
  WHATWG URL Standard, section 5.2. The call first checks the API key. It
  then redacts the key from the metadata URL and computes the request and
  response sizes. Finally it separates a body that is not JSON from JSON
  that is not a FeatureCollection.
- **Grid query and call** (`Grids`). The grid endpoint's query never sends
  `threshold`. It sends `aircraftClass` whenever that is set and always
  ends with `format=netcdf3`. Its metadata URL is not redacted.
- **URL helpers** (`QueryParams`, `FormUrlEncoded`, `UrlPatterns`).
  - `QueryParams` models `URLSearchParams` as a class whose `entries` the
    appends extend.
  - `FormUrlEncoded` is the serializer, UTF-8 percent-encoding included,
    and `decodeURIComponent` as its inverse.
  - `UrlPatterns` is the leftmost-match search behind the two
    `[?&]name=[^&]+` regular expressions.
- **Feature table** (`FeatureTable`):
  - column discovery as an insertion-ordered set of property keys;
  - the row projection with `polygon_count`;
  - the number-then-string comparator with the sort it drives;
  - the two-field sort state;
  - the CSV writer, which quotes with `JSON.stringify`;
  - the date-column test.
- **App controller** (`App`):
  - the next-full-UTC-hour initial filters;
  - the `handleApplyFilters` transitions over
    `{filters, loading, error, geojson, meta}`;
  - the single apply on mount.
- **Sidebar** (`Sidebar`):
  - the request-filter copy;
  - the blur, select and multi-select handlers;
  - date and hour composition;
  - the distinct-value stats;
  - `getMinMax`;
  - `decodeTimeInUrl`;
  - `FLIGHT_LEVELS`.

Some dependencies are not modelled and are taken as parameters instead:
- the HTTP round trip (`fetch` plus `res.text()`/`res.blob()`);
- `JSON.parse`;
- dayjs parsing and formatting.

Each of these is a function parameter that can return any result. JSON
values are a small datatype (`Json.Value`). JavaScript strings are
`seq<char>`.

Notes on the code as written, which the model follows:
- the grid call's metadata URL keeps the key; only the regions call redacts it;
- "request size" is the URL's `length` in UTF-16 code units, not a byte count;
- the grid request asks for `format=netcdf3`, although a comment next to it
  says netcdf4.

## Model

| member | source | states |
|---|---|---|
| Types.ApiRootChars | src/api/regions.ts:4 | The API root holds only lower-case letters, digits, `:`, `/` and `.`, so no `?`, `&` or non-ASCII character |
| Regions.BaseUrlPlain | src/api/regions.ts:4 | The regions base URL has no `?` or `&` and is ASCII |
| Regions.BuildQuery | src/api/regions.ts:14-31 | The step-by-step appends, the flight-level loop included, give exactly the serialisation of the reference parameter list `RegionParams` |
| QueryParams.SearchParams.constructor | src/api/regions.ts:15 | A new parameter list is empty |
| QueryParams.SearchParams.Append | src/api/regions.ts:16 | `append` adds one pair at the end and changes nothing else |
| QueryParams.AppendFlightLevels | src/api/regions.ts:19-26 | The split/trim/`forEach` loop appends one `flightLevel` pair per non-empty trimmed comma token, in order |
| QueryParams.AppendStep | src/api/regions.ts:23-25 | One more token appends its pair exactly when it is non-empty |
| QueryParams.LevelParams | src/api/regions.ts:24 | The level pairs are one `("flightLevel", level)` per level, in order |
| QueryParams.LevelParamsAppend | src/api/regions.ts:23-25 | Level pairs of a concatenation are the concatenation of the level pairs |
| QueryParams.NonEmptySnoc | src/api/regions.ts:24 | Dropping empties from a list grown by one keeps the new token iff it is non-empty |
| QueryParams.ThreeLevels | src/api/regions.ts:19-26 | `"290, 310 ,300"` yields the levels `290`, `310`, `300` |
| QueryParams.ThreeLevelsSplit | src/api/regions.ts:21 | `"290, 310 ,300"` splits at commas into `"290"`, `" 310 "`, `"300"` |
| QueryParams.ThreeLevelsTrim | src/api/regions.ts:22 | Trimming removes the spaces around `310` and leaves `290` and `300` unchanged |
| QueryParams.NoLevels | src/api/regions.ts:19-26 | `""` and `" , "` yield no level |
| QueryParams.GetAll | src/api/regions.ts:14-31 | `getAll(name)` returns at most one value per entry |
| QueryParams.GetAllAppend | src/api/regions.ts:14-31 | `getAll` over a concatenation is the concatenation of the two results |
| QueryParams.GetAllSingle | src/api/regions.ts:16 | `getAll` over one pair gives its value iff its name matches |
| QueryParams.GetAllWhen | src/api/regions.ts:18 | A pair that is appended only when its value is non-empty gives that value iff it is non-empty and its name matches |
| QueryParams.GetAllLevels | src/api/regions.ts:19-26 | The level pairs give exactly the levels for `flightLevel` and nothing for any other name |
| QueryParams.EncodePairShape | src/api/regions.ts:30 | A serialised pair contains `=`; it starts with `name=` only if its encoded name is `name` |
| QueryParams.NoParamAt | src/api/regions.ts:42 | After a separator, a serialisation whose encoded names all differ from `name` has no `[?&]name=` match anywhere |
| QueryParams.NoParamInUrl | src/api/regions.ts:42 | In `base?query` with such a query the pattern finds no match |
| QueryParams.LeadingParamFound | src/api/regions.ts:42 | The first pair's parameter is matched at the `?` |
| QueryParams.LeadingParamShape | src/api/regions.ts:40 | `base?` + serialisation regroups as `base?name=` + encoded value + the `&`-joined rest |
| Regions.GetAllQuery | src/api/regions.ts:14-31 | `getAll` over the regions query splits into its five groups: key, time, levels, threshold and aircraft class |
| Regions.GetAllParts | src/api/regions.ts:14-31 | Each group contributes its value exactly for its own name and when its guard holds |
| Regions.KeySentOnce | src/api/regions.ts:16 | The first parameter is `("key", key)` and `key` occurs exactly once |
| Regions.TimeSent | src/api/regions.ts:18 | `time` is sent exactly once, verbatim, iff the filter time is non-empty; otherwise it is absent |
| Regions.LevelsSent | src/api/regions.ts:19-26 | The `flightLevel` values of the query are the given levels, in order |
| Regions.FlightLevelsSent | src/api/regions.ts:19-26 | The `flightLevel` values are the comma tokens of the filter, trimmed, with empties dropped, in order |
| Regions.ThresholdSent | src/api/regions.ts:27 | `threshold` is sent once, verbatim, iff non-empty |
| Regions.AircraftClassSent | src/api/regions.ts:28-29 | `aircraftClass` is sent once, verbatim, iff it is set, non-empty and not `default` |
| Regions.OnlyFilterNames | src/api/regions.ts:14-31 | Every parameter after the first is named `time`, `flightLevel`, `threshold` or `aircraftClass` |
| Regions.FilterNameNotKey | src/api/regions.ts:14-31 | None of those names encodes to `key` |
| Regions.NoKeyAfterFirst | src/api/regions.ts:16-29 | No parameter after the first has the encoded name `key` |
| Regions.RequestUrlLength | src/api/regions.ts:46 | The request URL's JavaScript `length` equals its number of characters, because it is ASCII |
| Regions.KeyPrefix | src/api/regions.ts:42 | In `base?key=…` the `?` sits right after `base` |
| Regions.RedactShape | src/api/regions.ts:42-44 | Redacting `base?key=v tail` gives `base?` followed by the tail without its leading `&` |
| Regions.RedactLeadingKey | src/api/regions.ts:42-44 | With a non-empty key first, the redacted URL is `base?` + the serialisation of the remaining parameters |
| Regions.RedactedUrl | src/api/regions.ts:40-44 | The metadata URL is `BASE_URL?` + the serialised parameters after `key` |
| Regions.RedactedHasNoKey | src/api/regions.ts:42-44 | The redacted URL contains no `key=` parameter at all |
| Regions.GetRegions | src/api/regions.ts:33-73 | The guarded steps compute the reference outcome `RegionsOutcome`: key guard, URL, request, parse, null and shape checks, reply with metadata |
| Regions.MissingKeyNoRequest | src/api/regions.ts:36-40 | No URL is requested iff the key is absent or empty, and exactly then the call fails with the missing-key message |
| Regions.InvalidJsonIffUnparsable | src/api/regions.ts:48-58 | With a key, the request URL is the full URL, and the call fails as invalid JSON iff the request succeeded and the body does not parse |
| Regions.SucceedsIffFeatureCollection | src/api/regions.ts:59-64 | A parsed body succeeds iff it has `type` `FeatureCollection` and an array `features`, which is the data returned |
| Regions.SuccessMetadata | src/api/regions.ts:46-72 | On success, the metadata URL is the redacted URL and the status is the reply's. `requestSize` is the full URL's length and `responseSize` is the body's UTF-16 length |
| Grids.GridBaseUrlPlain | src/api/grids.ts:8 | The grid base URL has no `?` or `&` and is ASCII |
| Grids.BuildGridQuery | src/api/grids.ts:17-32 | The successive appends give exactly the serialisation of `GridParams` |
| Grids.GetGrids | src/api/grids.ts:10-53 | The guard, the URL, the request and the metadata record compute the reference outcome `GridsOutcome` |
| Grids.GridUrlLength | src/api/grids.ts:35 | The grid URL's `length` equals its number of characters |
| Grids.GetAllGridQuery | src/api/grids.ts:17-32 | `getAll` over the grid query splits into key, time, levels, aircraft class and format |
| Grids.KeyFirstFormatLast | src/api/grids.ts:18-32 | The first parameter is `key` and the last is `format=netcdf3` |
| Grids.NoThresholdSent | src/api/grids.ts:17-32 | No `threshold`, whatever the levels |
| Grids.GridThresholdIgnored | src/api/grids.ts:17-32 | The grid query never carries `threshold`, whatever the filter holds |
| Grids.ClassSent | src/api/grids.ts:29-30 | `aircraftClass` is sent verbatim iff it is set and non-empty, whatever the levels |
| Grids.GridAircraftClassSent | src/api/grids.ts:29-30 | `aircraftClass` is sent verbatim iff set and non-empty, `default` included |
| Grids.GridLevelsSent | src/api/grids.ts:20-27 | The `flightLevel` values are the given levels, in order |
| Grids.GridFlightLevels | src/api/grids.ts:20-27 | The `flightLevel` values follow the same split/trim/drop-empty rule as the regions query |
| Grids.GridMissingKey | src/api/grids.ts:13-16 | The call fails with the missing-key error iff the key is absent or empty, and exactly then nothing is requested; otherwise it requests the grid URL |
| Grids.GridMetadata | src/api/grids.ts:34-52 | On a reply, `meta.url` is the unredacted URL and `requestSize` is its length. `status` and `responseSize` are the reply's |
| Grids.GridUrlShowsKey | src/api/grids.ts:34-45 | The metadata URL's `key=` parameter is found right at its `?`, so the key is shown |
| FormUrlEncoded.Utf8 | src/api/regions.ts:30 | A character's UTF-8 encoding is one to four bytes |
| FormUrlEncoded.PercentBytes | src/api/regions.ts:30 | Percent-encoding takes three characters per byte |
| FormUrlEncoded.PercentBytesChars | src/api/regions.ts:30 | Percent-encoded bytes consist only of `%` and upper-case hex digits |
| FormUrlEncoded.EncodeChar | src/api/regions.ts:30 | A character encodes to non-empty ASCII without `&`, `=`, `?` or space |
| FormUrlEncoded.Encode | src/api/regions.ts:30 | An encoded string is ASCII without `&`, `=`, `?` or space, and empty iff the input is |
| FormUrlEncoded.EncodePlain | src/api/regions.ts:16-29 | Strings made only of unreserved characters, such as the parameter names, encode to themselves |
| FormUrlEncoded.EncodePair | src/api/regions.ts:30 | A serialised pair is ASCII without `&` or `?` |
| FormUrlEncoded.EncodePairs | src/api/regions.ts:30 | The pairs are serialised one by one, in order |
| FormUrlEncoded.SerializeCons | src/api/regions.ts:30 | The serialisation is the first pair, then `&` and the rest when there is a rest |
| FormUrlEncoded.SerializeIsAscii | src/api/regions.ts:30 | Every serialisation is ASCII |
| FormUrlEncoded.HexRoundTrip | src/sidebar.tsx:136 | An upper-case hex digit is read back as its value |
| FormUrlEncoded.EscapedByteOf | src/sidebar.tsx:136 | A `%XX` escape of a byte is read back as that byte |
| FormUrlEncoded.PercentBytesCons | src/api/regions.ts:30 | The encoding of a byte sequence is the encoding of its first byte followed by that of the rest |
| FormUrlEncoded.ContinuationOf | src/sidebar.tsx:136 | Escaped continuation bytes accumulate into the code point, six bits at a time |
| FormUrlEncoded.Utf8DecodesTwo | src/sidebar.tsx:136 | A two-byte encoding has a matching lead byte and continuation bytes, and rebuilds the code point |
| FormUrlEncoded.Utf8DecodesThree | src/sidebar.tsx:136 | The same for three-byte encodings |
| FormUrlEncoded.Utf8DecodesFour | src/sidebar.tsx:136 | The same for four-byte encodings |
| FormUrlEncoded.Utf8Decodes | src/sidebar.tsx:136 | Every non-ASCII character's UTF-8 encoding is decodable back to it |
| FormUrlEncoded.DecodeUnreserved | src/sidebar.tsx:136 | `decodeURIComponent` copies a character that is not `%` |
| FormUrlEncoded.DecodeAsciiEscape | src/sidebar.tsx:136 | An escaped ASCII byte decodes to its character |
| FormUrlEncoded.DecodeSequenceStep | src/sidebar.tsx:136 | A well-formed escape sequence decodes to its code point, then decoding continues after it |
| FormUrlEncoded.DecodeMultiByte | src/sidebar.tsx:136 | An escaped multi-byte UTF-8 encoding decodes to its character |
| FormUrlEncoded.DecodeEncodeChar | src/sidebar.tsx:136 | Decoding undoes encoding one character at a time, space excepted |
| FormUrlEncoded.DecodeEncode | src/sidebar.tsx:136 | `decodeURIComponent` inverts the form encoding of every string without a space |
| UrlPatterns.FindParam | src/sidebar.tsx:135 | Returns the leftmost index where the pattern matches, or none if it matches nowhere |
| UrlPatterns.RunEnd | src/sidebar.tsx:135 | `[^&]+` extends to the next `&` or to the end |
| UrlPatterns.FirstMatchAt | src/api/regions.ts:42 | A match preceded by no separator is the first match |
| UrlPatterns.NoMatch | src/api/regions.ts:42 | No separator before `from` and no match from there means no match |
| UrlPatterns.RunEndAt | src/sidebar.tsx:135 | A run of non-`&` characters ended by `&` or by the end is the run the pattern takes |
| UrlPatterns.ParamAtShift | src/api/regions.ts:42 | Matching after a prefix is matching in the rest |
| UrlPatterns.FindAfterBase | src/api/regions.ts:42 | After a separator-free base, a match at the start of the rest is the first match |
| UrlPatterns.NoneAfterBase | src/api/regions.ts:42 | After a separator-free base, a rest without a match gives no match |
| UrlPatterns.ParamAtHead | src/api/regions.ts:42 | A separator, `name=` and a character other than `&` form a match |
| UrlPatterns.RunAfter | src/sidebar.tsx:135 | A value without `&` followed by `&` or by the end is exactly the run after `=` |
| UrlPatterns.HeadNotParam | src/api/regions.ts:42 | After a separator, a piece containing `=` that does not start with `name=` gives no match |
| UrlPatterns.InsidePiece | src/api/regions.ts:42 | No match starts inside a piece without separators |
| UrlPatterns.NoParamAtJoin | src/api/regions.ts:42 | `&`-joined pieces of that kind contain no match for the name |
| UrlPatterns.LeadingMatch | src/api/regions.ts:42 | In `base?name=value…` the match is at the `?` |
| FeatureTable.Keys | src/feature-table.tsx:17 | `Object.keys` lists the property names in order |
| FeatureTable.AllPropertyKeys | src/feature-table.tsx:13-20 | The nested loops compute the reference column list `Columns` |
| FeatureTable.AddKeys | src/feature-table.tsx:17 | Adding one feature's keys to the set gives the de-duplication of the keys seen so far plus them |
| FeatureTable.DedupSnoc | src/feature-table.tsx:17 | Adding a key to an insertion-ordered set appends it iff it is new |
| FeatureTable.KeyInStream | src/feature-table.tsx:16-17 | Every property key of every feature is in the key stream |
| FeatureTable.StreamHasKey | src/feature-table.tsx:16-17 | Every key in the stream is a property key of some feature |
| FeatureTable.ColumnsAreKeys | src/feature-table.tsx:13-20 | The columns are distinct and contain every property key of every feature and nothing else |
| FeatureTable.ColumnsFirstSeen | src/feature-table.tsx:13-20 | Columns appear in the order of their first occurrence across features |
| FeatureTable.NoColumns | src/feature-table.tsx:14 | No collection, or no features, gives no columns |
| FeatureTable.RowProjection | src/feature-table.tsx:62-69 | There is one row per feature. Each row has the feature's properties, plus `polygon_count`: the number of coordinates when they are an array, else 0 |
| FeatureTable.StringCompareAntisymmetric | src/feature-table.tsx:39 | The string fallback's sign flips when its arguments are swapped |
| FeatureTable.CompareAntisymmetric | src/feature-table.tsx:33-40 | `sign(compare(a,b)) == -sign(compare(b,a))` |
| FeatureTable.CompareReflexive | src/feature-table.tsx:33-40 | Every value compares equal to itself |
| FeatureTable.CompareNumbers | src/feature-table.tsx:35-37 | When both sides coerce to numbers, the comparison is numeric |
| FeatureTable.TenAfterNine | src/feature-table.tsx:35-39 | `"10"` sorts after `"9"`, although it is before `"9"` as a string |
| FeatureTable.OrderAntisymmetric | src/feature-table.tsx:73-76 | If `a` sorts after `b`, then `b` sorts before `a` |
| FeatureTable.InsertFacts | src/feature-table.tsx:73 | A stable insertion adds exactly one row and keeps the others |
| FeatureTable.InsertOrdered | src/feature-table.tsx:73 | Insertion keeps an ordered list ordered |
| FeatureTable.SortByCorrect | src/feature-table.tsx:73-76 | The sorted copy is a permutation of the rows, ordered by the callback |
| FeatureTable.SortedRowsCorrect | src/feature-table.tsx:71-77 | `sortedRows` is always a permutation of `rows`, equal to `rows` without a sort column, and ordered with one |
| FeatureTable.NumericColumnSorted | src/feature-table.tsx:73-76 | On an all-numeric column, ascending order is numerically non-decreasing between any two positions |
| FeatureTable.SortState.constructor | src/feature-table.tsx:59-60 | Starts unsorted, ascending |
| FeatureTable.SortState.HandleSort | src/feature-table.tsx:79-86 | Selecting a column makes it the sort column. The direction flips when it was already selected and resets to `asc` otherwise |
| FeatureTable.FlipTwice | src/feature-table.tsx:81 | Flipping changes the direction, and flipping twice restores it |
| FeatureTable.SelectTwice | src/feature-table.tsx:79-86 | Selecting a column twice sorts by it. A new column ends `desc`; the current column returns to its direction and never to unsorted |
| FeatureTable.CsvFields | src/feature-table.tsx:26-27 | A data line has one field per column, plus `polygon_count` |
| FeatureTable.CsvLines | src/feature-table.tsx:22-31 | There is one line per row plus the header |
| FeatureTable.ToCsv | src/feature-table.tsx:22-31 | The `for` loop builds the `\n`-join of the header and data lines |
| FeatureTable.LineHasNoBreak | src/feature-table.tsx:26-28 | A data line contains no newline, because `JSON.stringify` escapes it |
| FeatureTable.CsvLineCount | src/feature-table.tsx:22-31 | With newline-free column names, splitting the CSV at `\n` gives back its lines, `rows.length + 1` of them |
| FeatureTable.CsvRowFields | src/feature-table.tsx:26-27 | A missing or null cell is written `""`, and the last field is the unquoted polygon count |
| FeatureTable.CsvFieldRoundTrip | src/feature-table.tsx:26 | A string cell's field parses back as the JSON string of that cell |
| FeatureTable.SortState.DownloadCsv | src/feature-table.tsx:88-89 | The download is the CSV text of the displayed rows under the current sort column and direction, `DownloadText` |
| FeatureTable.CsvFollowsDisplay | src/feature-table.tsx:71-89 | With newline-free column names, the downloaded text splits at `\n` into the header and then the line of each displayed row, in the displayed order; those rows are the table's rows rearranged |
| FeatureTable.CsvHeaderLine | src/feature-table.tsx:23-24 | Line 0 is the columns and `polygon_count` joined by `,` |
| FeatureTable.IsoDatePositions | src/feature-table.tsx:42-44 | iff the first 16 characters have digits and the fixed `-`, `T`, `:` at the given positions |
| FeatureTable.IsoDatePrefix | src/feature-table.tsx:42-44 | Any continuation of a match still matches; numbers and missing values never do |
| FeatureTable.LowerAscii | src/feature-table.tsx:210-211 | Case folding keeps the length |
| FeatureTable.DisplayPlain | src/feature-table.tsx:209-225 | A cell that is not a date cell is shown as `String(raw ?? '')` |
| FeatureTable.DisplayDate | src/feature-table.tsx:46-51 | A date cell is shown formatted when dayjs accepts it, else as it is |
| FeatureTable.LowerOfLower | src/feature-table.tsx:210 | Case folding leaves a string without upper-case letters unchanged |
| FeatureTable.LowerAppend | src/feature-table.tsx:210 | Case folding distributes over concatenation |
| FeatureTable.LowerWords | src/feature-table.tsx:210 | `time`, `date`, `TIME` and `DATE` fold to `time` and `date` |
| FeatureTable.DateColumnByName | src/feature-table.tsx:209-211 | A column whose name contains `time` or `date` in any mix of upper and lower case, holding an ISO date, is a date column |
| FeatureTable.MixedCaseDateColumn | src/feature-table.tsx:209-211 | `valid_Time` is a date column for ISO values, as the case-insensitive `/time\|date/i` test makes it |
| FeatureTable.NotInThreshold | src/feature-table.tsx:210 | `threshold` contains neither `time` nor `date` |
| FeatureTable.ThresholdNotDateColumn | src/feature-table.tsx:209-211 | The `threshold` column is never formatted as a date |
| Json.Get | src/feature-table.tsx:26 | A property lookup finds a value iff some member has that name |
| Json.OrEmpty | src/feature-table.tsx:26 | `value ?? ''` is never null |
| Json.EscapeChar | src/feature-table.tsx:26 | `JSON.stringify` escapes a character into non-control characters |
| Json.EscapeAll | src/feature-table.tsx:26 | An escaped string has no control character |
| Json.Quote | src/feature-table.tsx:26 | A stringified string is quoted at both ends and has no control character |
| Json.Stringify | src/feature-table.tsx:26 | `JSON.stringify` output has no control character, so no line break |
| Json.NoControlInJoin | src/feature-table.tsx:28 | Joining control-free parts with a control-free separator stays control-free |
| Json.HexDigitValue | src/feature-table.tsx:26 | A hex digit's value is below 16 |
| Json.UnicodeEscapeThenRest | src/feature-table.tsx:26 | A `\u00XX` escape parses back to its control character |
| Json.ShortEscapeThenRest | src/feature-table.tsx:26 | A short escape such as `\n` or `\"` parses back to its character |
| Json.EscapeCharThenRest | src/feature-table.tsx:26 | Every escaped character parses back to itself, then parsing continues |
| Json.UnquoteQuote | src/feature-table.tsx:26 | Parsing the JSON string of `s` gives back `s` |
| Json.UnescapeEscapeAll | src/feature-table.tsx:26 | Unescaping inverts escaping |
| Json.NumberOfDigits | src/feature-table.tsx:35 | `Number` of a digit string is its decimal value |
| Json.NumberOfNegatedDigits | src/feature-table.tsx:35 | `Number("-" + digits)` is the negated value |
| Json.NumberOfDecimal | src/feature-table.tsx:35 | `Number` reads back every integer's decimal form |
| Text.TrimStartSuffix | src/api/regions.ts:22 | Trimming the start removes the longest whitespace prefix and nothing else |
| Text.TrimEndPrefix | src/api/regions.ts:22 | Trimming the end removes the longest whitespace suffix and nothing else |
| Text.TrimIsMaximal | src/api/regions.ts:22 | The trimmed string is the infix between the whitespace ends and neither starts nor ends with whitespace |
| Text.TrimUnchanged | src/api/regions.ts:22 | A string without whitespace at its ends is unchanged |
| Text.Split | src/api/regions.ts:21 | Splitting gives at least one piece |
| Text.JoinSplit | src/api/regions.ts:21 | Joining the pieces of a split with the separator gives back the string |
| Text.SplitPiecesFree | src/api/regions.ts:21 | No piece of a split contains the separator |
| Text.SplitPrefix | src/api/regions.ts:21 | A separator-free prefix extends the first piece only |
| Text.SplitJoin | src/sidebar.tsx:67 | Splitting a join of separator-free pieces gives back the pieces |
| Text.NotInJoin | src/sidebar.tsx:67 | A character in neither the pieces nor the separator is not in their join |
| Text.JoinLength | src/feature-table.tsx:28 | A join's length is the parts' lengths plus one separator between each two |
| Text.NonEmpty | src/api/regions.ts:24 | Dropping empties leaves only non-empty tokens, no more than there were |
| Text.NonEmptyMembers | src/api/regions.ts:24 | A token survives iff it was there and is non-empty |
| Text.TrimAll | src/api/regions.ts:22 | Each piece is trimmed, in place |
| Text.Dedup | src/feature-table.tsx:15-19 | Insertion-ordered set: distinct elements, exactly those of the input |
| Text.FirstIndex | src/feature-table.tsx:15-19 | The first position of an element |
| Text.DedupFirstSeenOrder | src/feature-table.tsx:15-19 | The de-duplicated elements are in order of first occurrence |
| Text.FirstIndexPrefix | src/feature-table.tsx:15-19 | Appending does not move an element's first occurrence |
| Text.FirstIndexLast | src/feature-table.tsx:15-19 | A new last element first occurs at the end |
| Text.NatToDecimal | src/feature-table.tsx:27 | The decimal form of a count is non-empty digits without a leading zero |
| Text.DecimalRoundTrip | src/feature-table.tsx:27 | The decimal form reads back as the number |
| Text.PadStartZero | src/sidebar.tsx:252 | `padStart(2, '0')` of a one-digit form is two digits |
| Text.Utf16Length | src/api/regions.ts:52 | A string's `length` counts characters beyond U+FFFF twice |
| Text.AsciiUtf16Length | src/api/regions.ts:46 | An ASCII string's `length` is its number of characters |
| Text.LessEqTotal | src/sidebar.tsx:99 | Any two strings are comparable |
| Text.LessEqReflexive | src/sidebar.tsx:99 | Every string is at most itself |
| Text.LessEqTransitive | src/sidebar.tsx:99 | The order is transitive |
| Text.LessEqAntisymmetric | src/sidebar.tsx:99 | Strings that are each at most the other are equal |
| Text.CodeUnits | src/sidebar.tsx:99 | A character is one code unit up to U+FFFF and two (a surrogate pair) above |
| Text.Utf16LengthCountsUnits | src/api/regions.ts:46 | `length` is the number of UTF-16 code units |
| Text.RankInjective | src/sidebar.tsx:99 | Different characters occupy different places in the order |
| Text.UnitsCommonPrefix | src/sidebar.tsx:99 | A common prefix of code units does not decide the order |
| Text.SurrogateOrder | src/sidebar.tsx:99 | Two characters above U+FFFF compare by their high surrogates, and on equal high surrogates by their low ones, as their code points do |
| Text.FirstDifference | src/sidebar.tsx:99 | At the first differing character, the code-unit comparison agrees with the character order |
| Text.LessEqIsCodeUnitOrder | src/sidebar.tsx:99 | The string order is exactly lexicographic order of the UTF-16 code units, which is what the default `sort()` compares |
| App.OnTheHour | src/app.tsx:23 | A time is on the hour iff its minute, second and millisecond are all 0 |
| App.ClearMinute | src/app.tsx:26 | Setting the minute to 0 leaves less than a minute past the hour and subtracts only that minute part |
| App.ClearSecond | src/app.tsx:26 | Setting the second to 0 likewise |
| App.ClearMillisecond | src/app.tsx:26 | Setting the millisecond to 0 lands on the hour |
| App.AddHour | src/app.tsx:24 | Adding one hour keeps the position within the hour |
| App.NextFullHour | src/app.tsx:22-26 | The conditional add and the three resets give the next full hour |
| App.NextFullHourUnique | src/app.tsx:21-26 | The next full hour is unique |
| App.OnTheHourKept | src/app.tsx:23-26 | A time already on the hour is kept |
| App.InitialFilters | src/app.tsx:20-33 | The initial time is the ISO form of the next full hour, and the other three fields are `""` |
| App.ErrorText | src/app.tsx:53 | `err?.message \|\| 'Unknown error'` is never empty |
| App.ErrorTexts | src/app.tsx:53 | Each error shows its message; a transport error without one falls back to "Unknown error" |
| App.Begin | src/app.tsx:36-40 | Start of apply: the new filters, loading, and no error, data or metadata |
| App.Finish | src/app.tsx:41-54 | Completion: not loading, filters untouched |
| App.NonEmptySuccess | src/app.tsx:43-48 | A non-empty success stores the data and metadata with no error |
| App.EmptySuccess | src/app.tsx:43-48 | An empty success stores the empty collection and sets "No regions found for the selected filters." |
| App.FailedApply | src/app.tsx:49-54 | A failure clears data and metadata, stops loading and shows the error text |
| App.ApplySettles | src/app.tsx:35-55 | Every apply ends not loading, with the new filters; the error is null iff the result is a non-empty success |
| App.ApplyForgetsPast | src/app.tsx:35-55 | The state after an apply does not depend on the state before it |
| App.ApplyWithoutKey | src/app.tsx:49-54 | Without a key, an apply ends with the missing-key message and no data |
| App.Controller.constructor | src/app.tsx:14-33 | The initial state: next-full-hour filters, not loading, nothing fetched, no apply yet |
| App.Controller.BeginApply | src/app.tsx:36-40 | The start transition on the five state cells |
| App.Controller.FinishApply | src/app.tsx:41-54 | The completion transition on the five state cells |
| App.Controller.ApplyFilters | src/app.tsx:35-55 | The whole apply reaches the reference state of the call's outcome and records one apply |
| App.Controller.Mount | src/app.tsx:58-61 | Mounting applies the current filters exactly once |
| App.Start | src/app.tsx:20-61 | After mount exactly one apply was issued, with the next-full-hour filters, and the state is settled |
| Sidebar.RequestFilters | src/sidebar.tsx:19-28 | Copies every field and replaces a falsy aircraft class by undefined |
| Sidebar.RequestFiltersIdempotent | src/sidebar.tsx:19-28 | Applying it twice is applying it once |
| Sidebar.RequestFiltersSameQuery | src/sidebar.tsx:19-28 | The copy yields the same regions query as the original |
| Sidebar.FlightLevelsRange | src/sidebar.tsx:9 | 18 levels from 270 to 440, in steps of 10 |
| Sidebar.SelectedNumerals | src/sidebar.tsx:63-66 | Selected values of numeral options are numerals |
| Sidebar.NonEmptyKeeps | src/api/regions.ts:24 | Dropping empties keeps a list without empties unchanged |
| Sidebar.NumeralNoComma | src/sidebar.tsx:67 | A numeral contains no comma |
| Sidebar.NumeralTrimmed | src/api/regions.ts:22 | A numeral is unchanged by trimming |
| Sidebar.NumeralsTrimmed | src/api/regions.ts:22 | A list of numerals is unchanged by trimming each |
| Sidebar.SelectionRoundTrip | src/sidebar.tsx:67 | The joined selection is expanded back into the same levels by the query builder |
| Sidebar.LevelOptionsNumerals | src/sidebar.tsx:295-296 | Every flight-level option value is a numeral |
| Sidebar.LevelSelectionSent | src/sidebar.tsx:61-67 | Any level selection is sent as exactly those levels, in option order |
| Sidebar.NewTimeNeedsBoth | src/sidebar.tsx:158-162 | A non-empty time needs both date and hour; with both, it is the ISO form of `<date>T<hour>:00:00Z` when valid |
| Sidebar.HourOptionDigits | src/sidebar.tsx:251-252 | Every hour option value is two digits |
| Sidebar.Panel.constructor | src/sidebar.tsx:12-17 | The panel starts with the given filters and no request |
| Sidebar.Panel.HandleInputBlur | src/sidebar.tsx:31-40 | No request when the effective time is empty; otherwise exactly one, with the request filters |
| Sidebar.Panel.HandleSelectChange | src/sidebar.tsx:41-55 | Sets the field and issues exactly one request for the new filters |
| Sidebar.Panel.HandleChange | src/sidebar.tsx:56-73 | Sets `time`, or the `,`-join of the selected option values in option order, or the named field; no request |
| Sidebar.Panel.HandleDateHourChange | src/sidebar.tsx:155-168 | Sets the composed time and requests once exactly when it is non-empty |
| Sidebar.PropertyValues | src/sidebar.tsx:79-84 | One value per feature |
| Sidebar.Truthies | src/sidebar.tsx:80-85 | `filter(Boolean)` keeps only truthy values |
| Sidebar.TruthiesMembers | src/sidebar.tsx:80 | A value survives the filter iff it was there and is truthy |
| Sidebar.TruthiesSnoc | src/sidebar.tsx:80 | The filter of a list grown by one |
| Sidebar.DedupSnoc | src/sidebar.tsx:79 | The set of a list grown by one |
| Sidebar.DedupMembers | src/sidebar.tsx:79 | The set holds exactly the list's elements |
| Sidebar.FalsyStep | src/sidebar.tsx:77-86 | A falsy value does not change the stats |
| Sidebar.TruthyStep | src/sidebar.tsx:77-86 | A truthy value joins the stats iff it is new |
| Sidebar.DistinctStatsFirstSeen | src/sidebar.tsx:77-86 | De-duplicating then filtering equals filtering then de-duplicating: first-seen order of the truthy values |
| Sidebar.DistinctStatsContents | src/sidebar.tsx:77-86 | The stats are distinct; they hold every truthy value and nothing else |
| Sidebar.FeatureStatsContents | src/sidebar.tsx:77-86 | `flightLevels` and `aircraftClasses` of a collection: the features' truthy values of the property, each once, in first-seen order, nothing else; none without a collection |
| Sidebar.InsertStringBound | src/sidebar.tsx:99 | Insertion keeps a lower bound |
| Sidebar.ConsSorted | src/sidebar.tsx:99 | A lower bound in front of a sorted list keeps it sorted |
| Sidebar.InsertStringSorted | src/sidebar.tsx:99 | Insertion keeps a sorted list sorted |
| Sidebar.InsertStringPerm | src/sidebar.tsx:99 | Insertion adds exactly one element |
| Sidebar.SortStringsFacts | src/sidebar.tsx:99 | `slice().sort()` is a permutation, sorted in the string order that `LessEqIsCodeUnitOrder` identifies as code-unit order |
| Sidebar.SortedByCodeUnits | src/sidebar.tsx:99 | Any two entries of the sorted copy are in lexicographic order of their UTF-16 code units |
| Sidebar.AstralBeforeFullwidth | src/sidebar.tsx:99 | U+1F600 sorts before U+FF21 in either input order, because its high surrogate U+D83D is the smaller first code unit |
| Sidebar.SortedMember | src/sidebar.tsx:99 | Sorting keeps membership |
| Sidebar.MinMaxExtremes | src/sidebar.tsx:97-104 | For a non-empty list, min and max are the smallest and largest inputs in UTF-16 code-unit order. Both are inputs, min ≤ max, and each is shown through `formatUtc` |
| Sidebar.MinMaxEmpty | src/sidebar.tsx:98 | An empty list gives `-`/`-` |
| Sidebar.DecodeWithoutTime | src/sidebar.tsx:133-138 | A URL without a `time` parameter is returned unchanged |
| Sidebar.DecodeKeepsRest | src/sidebar.tsx:133-138 | Only the first `time=` value changes: the text before and after it is kept and the decoded value takes its place |
| Sidebar.DecodeAt | src/sidebar.tsx:133-138 | With the match and the value's end known, the decoded URL is the prefix, the decoded value and the tail |
| Sidebar.TimeUrlPieces | src/sidebar.tsx:135 | In `base?time=v tail` the match is at the `?` and the value runs to the end of `v` |
| Sidebar.DecodeShape | src/sidebar.tsx:133-138 | Decoding a form-encoded `time` value gives back the original time |
| Sidebar.DecodeLeadingTime | src/sidebar.tsx:133-138 | A leading `time` pair is shown decoded, the rest still encoded |
| Sidebar.TimeFollowsKey | src/api/regions.ts:16-18 | With a time, the second parameter is `time` |
| Sidebar.MetaUrlShowsTime | src/sidebar.tsx:412 | The metadata URL is shown with its time decoded right after `?`, the key gone |
| Sidebar.SpaceShownAsPlus | src/sidebar.tsx:136 | A space, encoded as `+`, is shown as `+`, because `decodeURIComponent` does not turn `+` back into a space |

## Left out

- I/O is not modelled: `fetch`, `res.text()`, `res.blob()`, `JSON.parse` and dayjs are parameters that may return anything. The console calls and `debugger` are dropped.
- `performance.now()` and `Math.round`: the duration is the reply's `elapsed` field, taken as given.
- The model uses no floating point. `formatBytes`, the turf `area`, the km² conversion and the coverage percentage (src/sidebar.tsx:116-130) are not modelled.
- Json.ToJsNumber: models `Number()` on integers only: trimmed `[+-]?digits`, with `""` as 0. Fractions, exponents, hex and `Infinity` count as NaN, so such cells compare as strings.
- FeatureTable.StringCompare: `localeCompare` is modelled as code-unit order, not as a locale's collation.
- FeatureTable.SortByCorrect: `Array.prototype.sort` is modelled as a stable insertion sort. It is stated as ordered neighbours plus a permutation, because the comparator is not transitive on mixed columns.
- Concurrency is not modelled. Overlapping applies, their out-of-order completion and the `setTimeout(…, 0)` deferral in src/sidebar.tsx:46-50 are out of scope. An apply is one start step followed by one completion step.
- Sidebar.Panel: records the requests it would hand to `onApplyFilters`; it is not wired to `App.Controller`, and `onApplyFilters` is taken as present.
- Sidebar.WithField: models `{...prev, [name]: value}` for the four filter names only. Any other name leaves the filters unchanged, since `Filters` has no other fields.
- JSON objects may not have duplicate keys in this model; the first member with a name wins.
- `new Set` compares values structurally. JavaScript's identity comparison of objects is not modelled; the stats are of primitive properties.
- Strings are sequences of Unicode scalar values. UTF-16 code units are derived from them (`Text.Utf16Units`) for `length` and for the sort order. Lone surrogates are not representable.
- JSON numbers are exact unbounded integers. The rounding of doubles above 2^53 is not modelled, and neither is the exponent form `String()` uses from 1e21 on. `CsvField`, `DisplayPlain` and `Compare` therefore differ from the source for such cells.
- FeatureTable: treats every feature as well-typed (`Types.WellTyped`). Its properties are a JSON object, and its coordinates are any JSON value.
- The CSV header writes column names unquoted, as the source does. `CsvLineCount` and `CsvFollowsDisplay` assume the names have no newline.
- `src/map-view.tsx` and `src/feature-tooltip.tsx` are markup and library wrappers. The tab state and the rest of the React rendering are not modelled either.
- `src/api/index.ts` is not part of this model: it dispatches straight to `getRegions`.
- The CSV download plumbing (Blob, object URL, anchor click) in src/feature-table.tsx:90-100 is not modelled.
- Sidebar.GetMinMax: the times are compared as plain strings, as `sort()` does; dayjs enters only through `formatUtc`.
