# arcgis-navigator deep links, modelled in Dafny

This project models `NavigatorURLScheme`, the builder that turns an itinerary into an
`arcgis-navigator:` deep link. An itinerary is an optional start, an ordered run of stops and
an optional callback. The model covers:

- the `&`-escaping query-argument percent-encoder;
- the encoding of locations, stops and the callback;
- the builder object, its setters and `generateURL`.

Swift strings are modelled as sequences of UTF-16 code units (`Utf16.Text`). The percent-encoder
first converts the text to UTF-8. That conversion fails exactly when the text holds an unpaired
surrogate. In that case the encoder returns nil, which is the case where the source throws
`URLSchemeError`. Each successful UTF-8 byte is either kept literally, when it is an ASCII
character allowed in a query argument, or written as `%XX` with upper-case hex digits.

The allowed set is the query-character set of RFC 3986:
- unreserved characters;
- sub-delimiters, without `&`;
- `:`, `@`, `/` and `?`.

Modules:

- `Utf16`: unpaired surrogates, UTF-16 to UTF-8 (RFC 3629) and a reference decoder back, with
  the round trip between them.
- `PercentEncoding`: `queryArgumentEncodedString`, a percent-decoder, and the round trip
  "decode, then convert back to UTF-16, gives the original text".
- `QueryString`: a reference reading of a query string. The string is split at `&`, and each
  piece is split at its first `=`. The model states what a produced link means in these terms.
- `Navigator`: `LocationType`, `StopType`, `NavigatorStop`, `Callback`, `URLSchemeError`.
  It also holds the pure composition `ComposeURL` and the class `NavigatorURLScheme`. The
  class's `GenerateURL` builds the string step by step. It is proved equal to `ComposeURL` of
  the builder's state.
- `NavigatorProperties`: what a composed link says. Its query parses back, field for field,
  into the itinerary's parameters in order: flags, start, stops in insertion order, callback.
  Each text value percent-decodes to the caller's text. When composition fails, it fails with
  the first unencodable text in evaluation order.
- `NavigatorScenarios`: an example itinerary and its link, a name containing `&`, an unencodable
  callback prompt, and two small client programs that drive the class.

Two things from outside the core are parameters:
- the platform's decimal rendering of a coordinate, `fmt`. It is only assumed never to produce
  `&`.
- the `NSURL(string:)` parser, `parse`.

Behaviour of the source worth noting:
- `generateURL` (line 109) returns an optional URL. When the parser rejects the string, the
  result is `nil`, not a thrown error. The model returns `Success(parse(url))`.
- A point is written `point.y`, a comma, then `point.x` (line 48).
- A stop's name is encoded before its location (lines 128-138). So when both fail, the error
  carries the name.

## Model

| member | source | states |
|---|---|---|
| Utf16.Utf8OfFailsIffUnencodable | src/Swift/NavigatorURLScheme.swift:24 | the UTF-8 conversion inside the percent-encoder fails exactly when the text holds an unpaired surrogate |
| Utf16.Utf16OfConverts | src/Swift/NavigatorURLScheme.swift:24 | text made of Unicode scalars converts to exactly the UTF-8 of those scalars |
| Utf16.WellFormedTextIsEncodable | src/Swift/NavigatorURLScheme.swift:24 | no text built from Unicode scalars is unencodable |
| Utf16.Utf8ScalarRoundTrip | src/Swift/NavigatorURLScheme.swift:24 | decoding one scalar's UTF-8 bytes gives the scalar back |
| Utf16.Utf8RoundTrip | src/Swift/NavigatorURLScheme.swift:24 | decoding the UTF-8 of any encodable text gives the text back |
| Utf16.Utf8Of | src/Swift/NavigatorURLScheme.swift:24 | the UTF-8 conversion the encoder starts with; when it succeeds, it yields between one and three bytes per code unit |
| PercentEncoding.IsQueryArgumentAllowed | src/Swift/NavigatorURLScheme.swift:21-22 | the characters written literally: ASCII only, and never `&`, `%` or `#` |
| PercentEncoding.EncodeByte | src/Swift/NavigatorURLScheme.swift:24 | a literal byte is written as itself; any other byte becomes `%` and two hex digits whose value is the byte |
| PercentEncoding.HexDigit | src/Swift/NavigatorURLScheme.swift:24 | an escape digit is an allowed upper-case hex digit whose value is the nibble |
| PercentEncoding.DelimitersAreNotAllowed | src/Swift/NavigatorURLScheme.swift:21-22 | neither `&` nor `%` is in the allowed set, so both are always escaped |
| PercentEncoding.EncodeBytes | src/Swift/NavigatorURLScheme.swift:24 | the encoded form uses only allowed characters and `%`, and never holds `&` |
| PercentEncoding.DecodeEncodeBytes | src/Swift/NavigatorURLScheme.swift:24 | percent-decoding the encoded bytes gives back exactly those bytes |
| PercentEncoding.LiteralBytesPassThrough | src/Swift/NavigatorURLScheme.swift:21-24 | bytes that are all allowed characters are copied unchanged, one character per byte |
| PercentEncoding.QueryArgumentEncodedString | src/Swift/NavigatorURLScheme.swift:19-25 | nil exactly when the text is unencodable; otherwise a string with no `&` |
| PercentEncoding.QueryArgumentRoundTrip | src/Swift/NavigatorURLScheme.swift:19-25 | an encoded argument percent-decodes to the text's UTF-8, and decodes back to the text itself |
| PercentEncoding.AsciiUtf8 | src/Swift/NavigatorURLScheme.swift:24 | ASCII text is its own UTF-8 |
| PercentEncoding.AllowedTextPassesThrough | src/Swift/NavigatorURLScheme.swift:20-25 | text made only of allowed characters encodes to itself |
| PercentEncoding.AmpersandIsEscaped | src/Swift/NavigatorURLScheme.swift:21-24 | `&` is encoded as `%26` |
| Navigator.QueryArgument | src/Swift/NavigatorURLScheme.swift:45-56 | a point gives latitude, comma, longitude and never fails; an address fails exactly when it is unencodable, with the address as the error; success holds no `&`, and an encoded address decodes back to the address |
| Navigator.StopType.RawValue | src/Swift/NavigatorURLScheme.swift:59-63 | the role key (`start` or `stop`) is non-empty and holds no `&` or `=`, alone or followed by `name`, so it cannot break the query |
| Navigator.EncodeStop | src/Swift/NavigatorURLScheme.swift:124-139 | fails exactly when the name or the address is unencodable, with the first of them (name before address) as the error; success is a non-empty fragment run |
| Navigator.EncodedArgumentString | src/Swift/NavigatorURLScheme.swift:152-173 | fails exactly when the scheme or the prompt is unencodable, with the first of them as the error; success is a non-empty fragment run |
| Navigator.FirstUnencodableIsFirst | src/Swift/NavigatorURLScheme.swift:96-107 | the reported text is unencodable and every text before it is encodable; none is reported exactly when all are encodable |
| Navigator.FirstUnencodableAppend | src/Swift/NavigatorURLScheme.swift:96-107 | for texts checked one group after another, the first unencodable one is in the first group, or else in the second |
| Navigator.EncodeStops | src/Swift/NavigatorURLScheme.swift:100-103 | the joined stop fragments form a fragment run |
| Navigator.EncodeStopsFirstError | src/Swift/NavigatorURLScheme.swift:100-103 | encoding the stops fails exactly when one of their texts is unencodable, with the first such text in stop order as the error |
| Navigator.EncodeStopsInOrder | src/Swift/NavigatorURLScheme.swift:101 | the loop's result, fragments joined in stop order or the first stop's error, equals the stop encoding |
| Navigator.Header | src/Swift/NavigatorURLScheme.swift:94 | the header starts with `arcgis-navigator://?` and is longer than it |
| Navigator.ComposeURL | src/Swift/NavigatorURLScheme.swift:94-107 | the assembled string exists exactly when the start, the stops and the callback all encode; otherwise the composition fails as a whole |
| Navigator.ToURL | src/Swift/NavigatorURLScheme.swift:109 | an encoding error is returned as it is; a composed string is handed to the URL parser, and its answer (possibly nil) is the result |
| Navigator.NavigatorURLScheme.constructor | src/Swift/NavigatorURLScheme.swift:65-78 | the flags are as given, with no start, no stops and no callback |
| Navigator.NavigatorURLScheme.SetStartAtLocation | src/Swift/NavigatorURLScheme.swift:80-82 | the start is replaced by a `start` stop; nothing else changes |
| Navigator.NavigatorURLScheme.AddStopAtLocation | src/Swift/NavigatorURLScheme.swift:84-86 | a `stop` stop is appended after the existing stops; nothing else changes |
| Navigator.NavigatorURLScheme.SetCallbackScheme | src/Swift/NavigatorURLScheme.swift:88-90 | the callback is replaced; nothing else changes |
| Navigator.NavigatorURLScheme.GenerateURL | src/Swift/NavigatorURLScheme.swift:92-110 | the step-by-step build returns the first error, or the parse of the composed string |
| NavigatorProperties.EncodedTextDenotes | src/Swift/NavigatorURLScheme.swift:19-25 | an encoded text, read as a query value, stands for that text |
| NavigatorProperties.EncodeStopShape | src/Swift/NavigatorURLScheme.swift:124-139 | a successful stop is `&<role>=<location>`, followed by `&<role>name=<name>` exactly when it has a name |
| NavigatorProperties.EncodeStopReadsBack | src/Swift/NavigatorURLScheme.swift:124-139 | a stop's fragment parses into its location field, followed by one name field exactly when it has a name |
| NavigatorProperties.EncodeStopsReadsBack | src/Swift/NavigatorURLScheme.swift:100-103 | the joined stop fragments parse into every stop's fields, in insertion order |
| NavigatorProperties.EncodedArgumentStringShape | src/Swift/NavigatorURLScheme.swift:152-173 | a successful callback is `&callback=<scheme>`, followed by `&callbackprompt=<prompt>` exactly when it has a prompt |
| NavigatorProperties.EncodedArgumentStringReadsBack | src/Swift/NavigatorURLScheme.swift:152-173 | the callback fragment parses into the scheme field and, when present, the prompt field |
| NavigatorProperties.ComposeURLShape | src/Swift/NavigatorURLScheme.swift:94-107 | a composed link is the header and flags, then the start, the stops and the callback fragments, in that order |
| NavigatorProperties.ComposeURLReadsBack | src/Swift/NavigatorURLScheme.swift:94-107 | a composed link starts with `arcgis-navigator://?`, and its query parses, field for field, into the flags, start, stops and callback parameters |
| NavigatorProperties.ComposeURLFirstErrorWins | src/Swift/NavigatorURLScheme.swift:96-107 | composition fails exactly when some itinerary text is unencodable, and the error carries the first such text in start, stops, callback order |
| NavigatorScenarios.HomeToMainStreet | src/Swift/NavigatorURLScheme.swift:94-107 | start 34.0,-118.0 named Home, then stop "1 Main St", with optimize on and navigate off, gives `arcgis-navigator://?optimize=true&navigate=false&start=34.0,-118.0&startname=Home&stop=1%20Main%20St` |
| NavigatorScenarios.AmpersandNameReadsBack | src/Swift/NavigatorURLScheme.swift:128-138 | a start named "A & B" gives exactly two fields, the second being `startname` = `A%20%26%20B` |
| NavigatorScenarios.NameErrorWinsOverAddress | src/Swift/NavigatorURLScheme.swift:128-138 | when both a stop's name and its address are unencodable, the error carries the name |
| NavigatorScenarios.UnencodablePromptFails | src/Swift/NavigatorURLScheme.swift:161-167 | a good scheme with an unencodable prompt gives no link, and the error carries the prompt |
| NavigatorScenarios.StartSetTwice | src/Swift/NavigatorURLScheme.swift:80-82 | setting the start twice links only the second start |
| NavigatorScenarios.StopsInInsertionOrder | src/Swift/NavigatorURLScheme.swift:84-86 | two added stops are linked in the order they were added |

## Left out

- `canOpen` (lines 32-34) asks the operating system whether the app is installed. It is I/O and
  plays no part in composing the link.
- Coordinate formatting (line 48) is Swift's default rendering of a `Double`. It is the abstract
  parameter `fmt`. The only thing assumed of it is that its output holds no `&`. Floating point
  is not modelled.
- `NSURL(string:)` (line 109) is the abstract parameter `parse`. The model does not state which
  strings Foundation accepts.
- PercentEncoding.QueryArgumentEncodedString: Foundation's `URLQueryAllowedCharacterSet` and
  its exact failure conditions are not part of this model. The allowed set is RFC 3986's query
  characters without `&`, and failure is ill-formed UTF-16. There is no claim of parity with
  the platform's set beyond `&` being escaped.
- Utf16.Utf16OfUtf8 is a reference decoder used only to state the round trip. It does not
  reject overlong or surrogate encodings in arbitrary byte strings.
- Navigator.EncodeStopsInOrder: in the source, the stops are encoded by a throwing `flatMap` and
  then joined. The model writes this as a loop that stops at the first failure. The two give the
  same result, but the model does not keep the intermediate array.
- Threading is not modelled: the builder is not safe to mutate from several threads, and the
  model treats it as used from one thread.
