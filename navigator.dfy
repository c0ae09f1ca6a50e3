/**
 * The deep-link builder for the `arcgis-navigator:` URL scheme: typed
 * locations, the start and stop fragments, the callback fragment, and the
 * builder object that accumulates an itinerary and composes the URL.
 */
module Navigator {
  import opened Wrappers
  import opened Utf16
  import opened PercentEncoding
  import opened QueryString

  const Scheme: string := "arcgis-navigator:"

  /** The scheme and an empty authority, after which the query starts. */
  const SchemePrefix: string := Scheme + "//?"

  /** The error thrown when caller text cannot be percent-encoded; it carries that text. */
  datatype URLSchemeError = URLSchemeError(unencodableString: Text)

  /** A WGS84 point: `x` is the longitude, `y` the latitude. */
  datatype Point = Point(x: real, y: real)

  /**
   * The platform's decimal rendering of a coordinate, left uninterpreted.
   * The one thing assumed of it is that a number's text holds no `&`.
   */
  type CoordinateFormatter = f: real -> string | forall v :: '&' !in f(v) witness (v: real) => ""

  datatype LocationType = WGS84(point: Point) | Address(address: Text)

  /**
   * The first text in `ts` that cannot be encoded: the error a run of
   * encodings that stops at its first failure reports.
   */
  ghost function FirstUnencodable(ts: seq<Text>): Option<Text> {
    if ts == [] then
      None
    else if Unencodable(ts[0]) then
      Some(ts[0])
    else
      FirstUnencodable(ts[1..])
  }

  /** There is no unencodable text, or there is one and it has none before it. */
  lemma {:induction false} FirstUnencodableIsFirst(ts: seq<Text>)
    ensures FirstUnencodable(ts).None? <==> forall i :: 0 <= i < |ts| ==> !Unencodable(ts[i])
    ensures FirstUnencodable(ts).Some? ==>
      exists k :: 0 <= k < |ts| && ts[k] == FirstUnencodable(ts).value && Unencodable(ts[k])
        && forall j :: 0 <= j < k ==> !Unencodable(ts[j])
  {
    if ts != [] && !Unencodable(ts[0]) {
      FirstUnencodableIsFirst(ts[1..]);
      assert forall i :: 1 <= i < |ts| ==> ts[i] == ts[1..][i - 1];
      if FirstUnencodable(ts).Some? {
        var k :| 0 <= k < |ts[1..]| && ts[1..][k] == FirstUnencodable(ts).value && Unencodable(ts[1..][k])
          && forall j :: 0 <= j < k ==> !Unencodable(ts[1..][j]);
        assert ts[k + 1] == ts[1..][k];
      }
    }
  }

  function OptionalTexts(t: Option<Text>): seq<Text> {
    match t
    case None => []
    case Some(text) => [text]
  }

  /** The caller texts the encoding of a location examines. */
  function LocationTexts(location: LocationType): seq<Text> {
    match location
    case WGS84(_) => []
    case Address(address) => [address]
  }

  /**
   * LocationType.queryArgument: latitude, comma, longitude for a point; the
   * percent-encoded address, or an error carrying the address, for an address.
   */
  function QueryArgument(location: LocationType, fmt: CoordinateFormatter): (r: Result<string, URLSchemeError>)
    ensures location.WGS84? ==> r == Success(fmt(location.point.y) + "," + fmt(location.point.x))
    ensures location.Address? ==> (r.Failure? <==> Unencodable(location.address))
    ensures r.Failure? ==> location.Address? && r.error == URLSchemeError(location.address)
    ensures r.Success? ==> '&' !in r.value
    ensures r.Success? && location.Address? ==> DecodeQueryArgument(r.value) == Some(location.address)
  {
    match location
    case WGS84(point) =>
      Success(fmt(point.y) + "," + fmt(point.x))
    case Address(address) =>
      QueryArgumentRoundTrip(address);
      match QueryArgumentEncodedString(address)
      case Some(encoded) => Success(encoded)
      case None => Failure(URLSchemeError(address))
  }

  /** The role of a stop, and the query key it is written under. */
  datatype StopType = Start | Stop {
    function RawValue(): (key: string)
      ensures key != [] && '&' !in key && '=' !in key
      ensures '&' !in key + "name" && '=' !in key + "name"
    {
      match this
      case Start => "start"
      case Stop => "stop"
    }
  }

  datatype NavigatorStop = NavigatorStop(location: LocationType, name: Option<Text>, stopType: StopType)

  /** The caller texts a stop's encoding examines, in the order it examines them. */
  function StopTexts(stop: NavigatorStop): seq<Text> {
    OptionalTexts(stop.name) + LocationTexts(stop.location)
  }

  /**
   * NavigatorStop.encodeStop: `&<role>=<location>`, then `&<role>name=<name>`
   * when the stop has a name.  The name is encoded first, so when both name
   * and address fail the error carries the name.
   */
  function EncodeStop(stop: NavigatorStop, fmt: CoordinateFormatter): (r: Result<string, URLSchemeError>)
    ensures r.Failure? <==> FirstUnencodable(StopTexts(stop)).Some?
    ensures r.Failure? ==> r.error == URLSchemeError(FirstUnencodable(StopTexts(stop)).value)
    ensures r.Success? ==> r.value != [] && IsFragmentRun(r.value)
  {
    FirstUnencodableAppend(OptionalTexts(stop.name), LocationTexts(stop.location));
    var role := stop.stopType.RawValue();
    var nameArgument :-
      match stop.name
      case None => Success("")
      case Some(name) =>
        match QueryArgumentEncodedString(name)
        case Some(encoded) => Success(Fragment(role + "name", encoded))
        case None => Failure(URLSchemeError(name));
    var locationArgument :- QueryArgument(stop.location, fmt);
    Success(Fragment(role, locationArgument) + nameArgument)
  }

  /** A callback scheme the navigation app calls when done, and an optional prompt. */
  datatype Callback = Callback(callbackScheme: Text, callbackPrompt: Option<Text>)

  function CallbackTexts(callback: Callback): seq<Text> {
    [callback.callbackScheme] + OptionalTexts(callback.callbackPrompt)
  }

  /**
   * Callback.encodedArgumentString: `&callback=<scheme>`, then
   * `&callbackprompt=<prompt>` when there is a prompt; the scheme is
   * examined first, and any failure yields no fragment at all.
   */
  function EncodedArgumentString(callback: Callback): (r: Result<string, URLSchemeError>)
    ensures r.Failure? <==> FirstUnencodable(CallbackTexts(callback)).Some?
    ensures r.Failure? ==> r.error == URLSchemeError(FirstUnencodable(CallbackTexts(callback)).value)
    ensures r.Success? ==> r.value != [] && IsFragmentRun(r.value)
  {
    FirstUnencodableAppend([callback.callbackScheme], OptionalTexts(callback.callbackPrompt));
    var encodedScheme :-
      match QueryArgumentEncodedString(callback.callbackScheme)
      case Some(encoded) => Success(Fragment("callback", encoded))
      case None => Failure(URLSchemeError(callback.callbackScheme));
    var encodedPrompt :-
      match callback.callbackPrompt
      case None => Success("")
      case Some(prompt) =>
        match QueryArgumentEncodedString(prompt)
        case Some(encoded) => Success(Fragment("callbackprompt", encoded))
        case None => Failure(URLSchemeError(prompt));
    Success(encodedScheme + encodedPrompt)
  }

  /** The caller texts of a run of stops, in the order they are encoded. */
  function StopsTexts(stops: seq<NavigatorStop>): seq<Text> {
    if stops == [] then [] else StopTexts(stops[0]) + StopsTexts(stops[1..])
  }

  /** The first encoding failure of `a + b` is that of `a` if it has one, else that of `b`. */
  lemma {:induction false} FirstUnencodableAppend(a: seq<Text>, b: seq<Text>)
    ensures FirstUnencodable(a + b)
         == if FirstUnencodable(a).Some? then FirstUnencodable(a) else FirstUnencodable(b)
  {
    if a == [] {
      assert a + b == b;
    } else {
      var ab := a + b;
      assert ab[0] == a[0] && ab[1..] == a[1..] + b;
      if !Unencodable(a[0]) {
        FirstUnencodableAppend(a[1..], b);
        assert FirstUnencodable(ab) == FirstUnencodable(a[1..] + b);
        assert FirstUnencodable(a) == FirstUnencodable(a[1..]);
      }
    }
  }

  /** The stop fragments one after another, stopping at the first failure. */
  function EncodeStops(stops: seq<NavigatorStop>, fmt: CoordinateFormatter): (r: Result<string, URLSchemeError>)
    ensures r.Success? ==> IsFragmentRun(r.value)
  {
    if stops == [] then
      Success("")
    else
      var encodedFirst :- EncodeStop(stops[0], fmt);
      var encodedRest :- EncodeStops(stops[1..], fmt);
      Success(encodedFirst + encodedRest)
  }

  /** Encoding the stops fails exactly when one of their texts is unencodable, and reports the first. */
  lemma {:induction false} EncodeStopsFirstError(stops: seq<NavigatorStop>, fmt: CoordinateFormatter)
    ensures EncodeStops(stops, fmt).Failure? <==> FirstUnencodable(StopsTexts(stops)).Some?
    ensures EncodeStops(stops, fmt).Failure? ==>
      EncodeStops(stops, fmt).error == URLSchemeError(FirstUnencodable(StopsTexts(stops)).value)
  {
    if stops != [] {
      EncodeStopsFirstError(stops[1..], fmt);
      FirstUnencodableAppend(StopTexts(stops[0]), StopsTexts(stops[1..]));
    }
  }

  /** The itinerary and options a builder holds. */
  datatype BuilderState = BuilderState(
    optimize: bool,
    navigate: bool,
    start: Option<NavigatorStop>,
    stops: seq<NavigatorStop>,
    callback: Option<Callback>)

  function BoolText(b: bool): string {
    if b then "true" else "false"
  }

  /** The scheme, the empty authority, and the two option flags. */
  function Header(optimize: bool, navigate: bool): (h: string)
    ensures |SchemePrefix| < |h| && h[..|SchemePrefix|] == SchemePrefix
  {
    SchemePrefix + Pair("optimize", BoolText(optimize)) + Fragment("navigate", BoolText(navigate))
  }

  /**
   * The string generateURL assembles: header, start fragment, stop
   * fragments in order, callback fragment; the first encoding error aborts.
   */
  function ComposeURL(st: BuilderState, fmt: CoordinateFormatter): (r: Result<string, URLSchemeError>)
    ensures r.Success? <==>
      && (st.start.Some? ==> EncodeStop(st.start.value, fmt).Success?)
      && (st.callback.Some? ==> EncodedArgumentString(st.callback.value).Success?)
      && EncodeStops(st.stops, fmt).Success?
  {
    var startFragment :-
      match st.start
      case None => Success("")
      case Some(start) => EncodeStop(start, fmt);
    var stopFragments :- EncodeStops(st.stops, fmt);
    var callbackFragment :-
      match st.callback
      case None => Success("")
      case Some(callback) => EncodedArgumentString(callback);
    Success(Header(st.optimize, st.navigate) + startFragment + stopFragments + callbackFragment)
  }

  /** What generateURL returns for a composition: the error, or the parsed URL (nil if rejected). */
  function ToURL<U>(composed: Result<string, URLSchemeError>, parse: string -> Option<U>): (r: Result<Option<U>, URLSchemeError>)
    ensures r.Failure? <==> composed.Failure?
    ensures r.Failure? ==> r.error == composed.error
    ensures r.Success? ==> r.value == parse(composed.value)
  {
    match composed
    case Failure(e) => Failure(e)
    case Success(url) => Success(parse(url))
  }

  /** Header, start, stops and callback fragments joined into the composed URL. */
  lemma ComposeFromFragments(st: BuilderState, fmt: CoordinateFormatter, a: string, b: string, c: string)
    requires st.start.None? ==> a == ""
    requires st.start.Some? ==> EncodeStop(st.start.value, fmt) == Success(a)
    requires EncodeStops(st.stops, fmt) == Success(b)
    requires st.callback.None? ==> c == ""
    requires st.callback.Some? ==> EncodedArgumentString(st.callback.value) == Success(c)
    ensures ComposeURL(st, fmt) == Success(Header(st.optimize, st.navigate) + a + b + c)
  {
  }

  /** `r` with `prefix` put in front of what it encodes; a failure stays the same failure. */
  function Prefixed(prefix: string, r: Result<string, URLSchemeError>): Result<string, URLSchemeError> {
    match r
    case Failure(e) => Failure(e)
    case Success(s) => Success(prefix + s)
  }

  /** The stops from `i` on: stop `i`'s failure, or its fragment in front of the rest's encoding. */
  lemma EncodeStopsFrom(stops: seq<NavigatorStop>, i: nat, fmt: CoordinateFormatter)
    requires i < |stops|
    ensures EncodeStop(stops[i], fmt).Failure? ==>
      EncodeStops(stops[i..], fmt) == Failure(EncodeStop(stops[i], fmt).error)
    ensures EncodeStop(stops[i], fmt).Success? ==>
      EncodeStops(stops[i..], fmt) == Prefixed(EncodeStop(stops[i], fmt).value, EncodeStops(stops[i + 1..], fmt))
  {
    var rest := stops[i..];
    assert rest[0] == stops[i] && rest[1..] == stops[i + 1..];
  }

  lemma PrefixedEmpty(r: Result<string, URLSchemeError>)
    ensures Prefixed("", r) == r
  {
    if r.Success? {
      assert "" + r.value == r.value;
    }
  }

  /** Putting two prefixes in front, one after the other, is putting their concatenation. */
  lemma PrefixedTwice(a: string, b: string, r: Result<string, URLSchemeError>)
    ensures Prefixed(a, Prefixed(b, r)) == Prefixed(a + b, r)
  {
    if r.Success? {
      assert a + (b + r.value) == (a + b) + r.value;
    }
  }

  /** The stops' fragments joined in order (the flatMap and join of generateURL). */
  method EncodeStopsInOrder(stops: seq<NavigatorStop>, fmt: CoordinateFormatter) returns (r: Result<string, URLSchemeError>)
    ensures r == EncodeStops(stops, fmt)
  {
    var encodedStops := "";
    var i := 0;
    assert stops[0..] == stops;
    PrefixedEmpty(EncodeStops(stops, fmt));
    while i < |stops|
      invariant 0 <= i <= |stops|
      invariant EncodeStops(stops, fmt) == Prefixed(encodedStops, EncodeStops(stops[i..], fmt))
    {
      var fragment := EncodeStop(stops[i], fmt);
      EncodeStopsFrom(stops, i, fmt);
      if fragment.Failure? {
        return Failure(fragment.error);
      }
      PrefixedTwice(encodedStops, fragment.value, EncodeStops(stops[i + 1..], fmt));
      encodedStops := encodedStops + fragment.value;
      i := i + 1;
    }
    assert stops[|stops|..] == [] && encodedStops + "" == encodedStops;
    r := Success(encodedStops);
  }

  /**
   * The builder.  `optimize` and `navigate` are fixed at construction; the
   * start stop and the callback are replaced by their setters, and stops
   * are only ever appended.
   */
  class NavigatorURLScheme {
    const optimize: bool
    const navigate: bool
    var start: Option<NavigatorStop>
    var stops: seq<NavigatorStop>
    var callback: Option<Callback>

    function State(): BuilderState
      reads this
    {
      BuilderState(optimize, navigate, start, stops, callback)
    }

    constructor (optimize: bool := false, navigate: bool := false)
      ensures State() == BuilderState(optimize, navigate, None, [], None)
    {
      this.optimize := optimize;
      this.navigate := navigate;
      start := None;
      stops := [];
      callback := None;
    }

    method SetStartAtLocation(location: LocationType, name: Option<Text> := None)
      modifies this
      ensures State() == old(State()).(start := Some(NavigatorStop(location, name, Start)))
    {
      start := Some(NavigatorStop(location, name, Start));
    }

    method AddStopAtLocation(location: LocationType, name: Option<Text> := None)
      modifies this
      ensures State() == old(State()).(stops := old(stops) + [NavigatorStop(location, name, Stop)])
    {
      stops := stops + [NavigatorStop(location, name, Stop)];
    }

    method SetCallbackScheme(scheme: Text, prompt: Option<Text>)
      modifies this
      ensures State() == old(State()).(callback := Some(Callback(scheme, prompt)))
    {
      callback := Some(Callback(scheme, prompt));
    }

    /**
     * generateURL: builds the string piece by piece, throwing the first
     * encoding error, and hands the result to the URL parser.  The builder
     * is left as it was.
     */
    method GenerateURL<U>(fmt: CoordinateFormatter, parse: string -> Option<U>) returns (r: Result<Option<U>, URLSchemeError>)
      ensures r == ToURL(ComposeURL(State(), fmt), parse)
    {
      var st := State();
      var stringBuilder := Header(optimize, navigate);
      var startFragment := "";
      if st.start.Some? {
        var fragment := EncodeStop(st.start.value, fmt);
        if fragment.Failure? {
          assert ComposeURL(st, fmt) == Failure(fragment.error);
          return Failure(fragment.error);
        }
        startFragment := fragment.value;
        stringBuilder := stringBuilder + startFragment;
      }
      assert stringBuilder == Header(optimize, navigate) + startFragment;
      var encodedStops := "";
      if st.stops != [] {
        var encoded := EncodeStopsInOrder(st.stops, fmt);
        if encoded.Failure? {
          assert ComposeURL(st, fmt) == Failure(encoded.error);
          return Failure(encoded.error);
        }
        encodedStops := encoded.value;
        stringBuilder := stringBuilder + encodedStops;
      }
      assert stringBuilder == Header(optimize, navigate) + startFragment + encodedStops;
      var callbackFragment := "";
      if st.callback.Some? {
        var fragment := EncodedArgumentString(st.callback.value);
        if fragment.Failure? {
          assert ComposeURL(st, fmt) == Failure(fragment.error);
          return Failure(fragment.error);
        }
        callbackFragment := fragment.value;
        stringBuilder := stringBuilder + callbackFragment;
      }
      assert stringBuilder == Header(optimize, navigate) + startFragment + encodedStops + callbackFragment;
      ComposeFromFragments(st, fmt, startFragment, encodedStops, callbackFragment);
      r := Success(parse(stringBuilder));
    }
  }
}
