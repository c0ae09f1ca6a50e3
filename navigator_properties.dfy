/**
 * What a composed deep link means.  Read back with the reference query
 * parser, the URL has exactly the itinerary's parameters, in order, with
 * values that percent-decode to the caller's text; and a composition that
 * fails reports the first unencodable text in encoding order.
 */
module NavigatorProperties {
  import opened Wrappers
  import opened Utf16
  import opened PercentEncoding
  import opened QueryString
  import opened Navigator

  /** What a query parameter is meant to carry. */
  datatype Argument = FlagArg(flag: bool) | PointArg(point: Point) | TextArg(text: Text)

  datatype Parameter = Parameter(name: string, argument: Argument)

  function LocationArgument(location: LocationType): Argument {
    match location
    case WGS84(point) => PointArg(point)
    case Address(address) => TextArg(address)
  }

  /** The parameters a stop stands for: its location, then its name if it has one. */
  function StopParameters(stop: NavigatorStop): seq<Parameter> {
    var role := stop.stopType.RawValue();
    [Parameter(role, LocationArgument(stop.location))]
      + match stop.name
        case None => []
        case Some(name) => [Parameter(role + "name", TextArg(name))]
  }

  function StopsParameters(stops: seq<NavigatorStop>): seq<Parameter> {
    if stops == [] then [] else StopParameters(stops[0]) + StopsParameters(stops[1..])
  }

  function CallbackParameters(callback: Callback): seq<Parameter> {
    [Parameter("callback", TextArg(callback.callbackScheme))]
      + match callback.callbackPrompt
        case None => []
        case Some(prompt) => [Parameter("callbackprompt", TextArg(prompt))]
  }

  /** The parameters of a whole itinerary, in the order the deep link lists them. */
  function ItineraryParameters(st: BuilderState): seq<Parameter> {
    [Parameter("optimize", FlagArg(st.optimize))]
      + ([Parameter("navigate", FlagArg(st.navigate))]
         + StartParameters(st) + StopsParameters(st.stops) + OptionalCallbackParameters(st))
  }

  /** The caller texts of an itinerary, in the order composition encodes them. */
  function ItineraryTexts(st: BuilderState): seq<Text> {
    (match st.start case None => [] case Some(start) => StopTexts(start))
      + StopsTexts(st.stops)
      + (match st.callback case None => [] case Some(callback) => CallbackTexts(callback))
  }

  /** The text `value` of a query field carries `argument`. */
  ghost predicate Denotes(value: string, argument: Argument, fmt: CoordinateFormatter) {
    match argument
    case FlagArg(flag) => value == BoolText(flag)
    case PointArg(point) => value == fmt(point.y) + "," + fmt(point.x)
    case TextArg(text) => DecodeQueryArgument(value) == Some(text)
  }

  /** A field carries a parameter: same name, and a value that denotes its argument. */
  ghost predicate Carries(field: Field, parameter: Parameter, fmt: CoordinateFormatter) {
    field.key == parameter.name && Denotes(field.value, parameter.argument, fmt)
  }

  /** Parsed fields, one for one, carry the intended parameters. */
  ghost predicate Matches(fields: seq<Field>, parameters: seq<Parameter>, fmt: CoordinateFormatter) {
    && |fields| == |parameters|
    && forall i :: 0 <= i < |fields| ==> Carries(fields[i], parameters[i], fmt)
  }

  lemma MatchesAppend(f1: seq<Field>, p1: seq<Parameter>, f2: seq<Field>, p2: seq<Parameter>, fmt: CoordinateFormatter)
    requires Matches(f1, p1, fmt) && Matches(f2, p2, fmt)
    ensures Matches(f1 + f2, p1 + p2, fmt)
  {
    var fs, ps := f1 + f2, p1 + p2;
    forall i | 0 <= i < |fs|
      ensures Carries(fs[i], ps[i], fmt)
    {
      if i < |f1| {
        assert fs[i] == f1[i] && ps[i] == p1[i];
      } else {
        assert fs[i] == f2[i - |f1|] && ps[i] == p2[i - |p1|];
      }
    }
  }

  /** The fixed query keys contain neither delimiter. */
  lemma KeysArePlain()
    ensures '&' !in "callback" && '=' !in "callback"
    ensures '&' !in "callbackprompt" && '=' !in "callbackprompt"
    ensures '&' !in "navigate" && '=' !in "navigate"
    ensures '&' !in "optimize" && '=' !in "optimize"
  {
  }

  /** The percent-encoded form of encodable text carries that text. */
  lemma EncodedTextDenotes(t: Text, fmt: CoordinateFormatter)
    requires QueryArgumentEncodedString(t).Some?
    ensures Denotes(QueryArgumentEncodedString(t).value, TextArg(t), fmt)
  {
    QueryArgumentRoundTrip(t);
  }

  /** A plain fragment whose value carries `p` reads back as `[p]`. */
  lemma FragmentReadsBack(key: string, value: string, p: Parameter, fmt: CoordinateFormatter)
    requires IsPlainField(key, value) && p.name == key && Denotes(value, p.argument, fmt)
    ensures Matches(ParseFragments(Fragment(key, value)), [p], fmt)
  {
    ParseFragment(key, value);
  }

  /** One plain fragment, then optionally a second: the shape of stop and callback fragments. */
  lemma OneOrTwoFragmentsReadBack(k1: string, v1: string, p1: Parameter,
                                  second: Option<(string, string, Parameter)>, fmt: CoordinateFormatter)
    requires IsPlainField(k1, v1) && p1.name == k1 && Denotes(v1, p1.argument, fmt)
    requires second.Some? ==> IsPlainField(second.value.0, second.value.1)
    requires second.Some? ==> second.value.2.name == second.value.0
    requires second.Some? ==> Denotes(second.value.1, second.value.2.argument, fmt)
    ensures Matches(ParseFragments(Fragment(k1, v1) + (if second.Some? then Fragment(second.value.0, second.value.1) else "")),
                    [p1] + (if second.Some? then [second.value.2] else []), fmt)
  {
    FragmentReadsBack(k1, v1, p1, fmt);
    if second.Some? {
      var (k2, v2, p2) := second.value;
      FragmentReadsBack(k2, v2, p2, fmt);
      ParseFragmentsAppend(Fragment(k1, v1), Fragment(k2, v2));
      MatchesAppend(ParseFragments(Fragment(k1, v1)), [p1], ParseFragments(Fragment(k2, v2)), [p2], fmt);
    } else {
      assert Fragment(k1, v1) + "" == Fragment(k1, v1);
      assert [p1] + [] == [p1];
    }
  }

  /** The string a successful stop encoding produces, piece by piece. */
  lemma EncodeStopShape(stop: NavigatorStop, fmt: CoordinateFormatter)
    requires EncodeStop(stop, fmt).Success?
    ensures QueryArgument(stop.location, fmt).Success?
    ensures stop.name.Some? ==> QueryArgumentEncodedString(stop.name.value).Some?
    ensures EncodeStop(stop, fmt).value
         == Fragment(stop.stopType.RawValue(), QueryArgument(stop.location, fmt).value)
          + (if stop.name.Some?
             then Fragment(stop.stopType.RawValue() + "name", QueryArgumentEncodedString(stop.name.value).value)
             else "")
  {
  }

  /** A stop's fragment reads back as its location and, when named, its name. */
  lemma EncodeStopReadsBack(stop: NavigatorStop, fmt: CoordinateFormatter)
    requires EncodeStop(stop, fmt).Success?
    ensures Matches(ParseFragments(EncodeStop(stop, fmt).value), StopParameters(stop), fmt)
  {
    EncodeStopShape(stop, fmt);
    var role := stop.stopType.RawValue();
    var location := QueryArgument(stop.location, fmt).value;
    var p1 := Parameter(role, LocationArgument(stop.location));
    assert Denotes(location, p1.argument, fmt);
    var second: Option<(string, string, Parameter)> := None;
    if stop.name.Some? {
      var name := stop.name.value;
      EncodedTextDenotes(name, fmt);
      second := Some((role + "name", QueryArgumentEncodedString(name).value, Parameter(role + "name", TextArg(name))));
    }
    OneOrTwoFragmentsReadBack(role, location, p1, second, fmt);
  }

  /** The stop fragments read back as every stop's parameters, in insertion order. */
  lemma {:induction false} EncodeStopsReadsBack(stops: seq<NavigatorStop>, fmt: CoordinateFormatter)
    requires EncodeStops(stops, fmt).Success?
    ensures Matches(ParseFragments(EncodeStops(stops, fmt).value), StopsParameters(stops), fmt)
  {
    if stops == [] {
      assert ParseFragments("") == [];
    } else {
      var first, rest := stops[0], stops[1..];
      EncodeStopReadsBack(first, fmt);
      EncodeStopsReadsBack(rest, fmt);
      var a, b := EncodeStop(first, fmt).value, EncodeStops(rest, fmt).value;
      ParseFragmentsAppend(a, b);
      MatchesAppend(ParseFragments(a), StopParameters(first), ParseFragments(b), StopsParameters(rest), fmt);
    }
  }

  /** The string a successful callback encoding produces, piece by piece. */
  lemma EncodedArgumentStringShape(callback: Callback)
    requires EncodedArgumentString(callback).Success?
    ensures QueryArgumentEncodedString(callback.callbackScheme).Some?
    ensures callback.callbackPrompt.Some? ==> QueryArgumentEncodedString(callback.callbackPrompt.value).Some?
    ensures EncodedArgumentString(callback).value
         == Fragment("callback", QueryArgumentEncodedString(callback.callbackScheme).value)
          + (if callback.callbackPrompt.Some?
             then Fragment("callbackprompt", QueryArgumentEncodedString(callback.callbackPrompt.value).value)
             else "")
  {
  }

  /** The callback fragment reads back as the scheme and, when present, the prompt. */
  lemma EncodedArgumentStringReadsBack(callback: Callback, fmt: CoordinateFormatter)
    requires EncodedArgumentString(callback).Success?
    ensures Matches(ParseFragments(EncodedArgumentString(callback).value), CallbackParameters(callback), fmt)
  {
    EncodedArgumentStringShape(callback);
    KeysArePlain();
    var scheme := QueryArgumentEncodedString(callback.callbackScheme).value;
    EncodedTextDenotes(callback.callbackScheme, fmt);
    var p1 := Parameter("callback", TextArg(callback.callbackScheme));
    var second: Option<(string, string, Parameter)> := None;
    if callback.callbackPrompt.Some? {
      var prompt := callback.callbackPrompt.value;
      EncodedTextDenotes(prompt, fmt);
      second := Some(("callbackprompt", QueryArgumentEncodedString(prompt).value, Parameter("callbackprompt", TextArg(prompt))));
    }
    OneOrTwoFragmentsReadBack("callback", scheme, p1, second, fmt);
  }

  /** The fragments of a successful composition that follow the header. */
  function StartFragment(st: BuilderState, fmt: CoordinateFormatter): string
    requires ComposeURL(st, fmt).Success?
  {
    match st.start
    case None => ""
    case Some(start) => EncodeStop(start, fmt).value
  }

  function CallbackFragment(st: BuilderState, fmt: CoordinateFormatter): string
    requires ComposeURL(st, fmt).Success?
  {
    match st.callback
    case None => ""
    case Some(callback) => EncodedArgumentString(callback).value
  }

  function StartParameters(st: BuilderState): seq<Parameter> {
    match st.start
    case None => []
    case Some(start) => StopParameters(start)
  }

  function OptionalCallbackParameters(st: BuilderState): seq<Parameter> {
    match st.callback
    case None => []
    case Some(callback) => CallbackParameters(callback)
  }

  /** The string a successful composition produces, piece by piece. */
  lemma ComposeURLShape(st: BuilderState, fmt: CoordinateFormatter)
    requires ComposeURL(st, fmt).Success?
    ensures EncodeStops(st.stops, fmt).Success?
    ensures ComposeURL(st, fmt).value
         == SchemePrefix + Pair("optimize", BoolText(st.optimize))
          + Fragment("navigate", BoolText(st.navigate))
          + StartFragment(st, fmt) + EncodeStops(st.stops, fmt).value + CallbackFragment(st, fmt)
  {
  }

  /** Four fragment runs read as their fields one after another. */
  lemma ParseFourRuns(n: string, a: string, b: string, c: string)
    requires IsFragmentRun(a) && IsFragmentRun(b) && IsFragmentRun(c)
    ensures ParseFragments(n + a + b + c)
         == ParseFragments(n) + ParseFragments(a) + ParseFragments(b) + ParseFragments(c)
  {
    ParseFragmentsAppend(n, a);
    ParseFragmentsAppend(n + a, b);
    ParseFragmentsAppend(n + a + b, c);
  }

  lemma MatchesFour(f1: seq<Field>, f2: seq<Field>, f3: seq<Field>, f4: seq<Field>,
                    p1: seq<Parameter>, p2: seq<Parameter>, p3: seq<Parameter>, p4: seq<Parameter>,
                    fmt: CoordinateFormatter)
    requires Matches(f1, p1, fmt) && Matches(f2, p2, fmt) && Matches(f3, p3, fmt) && Matches(f4, p4, fmt)
    ensures Matches(f1 + f2 + f3 + f4, p1 + p2 + p3 + p4, fmt)
  {
    MatchesAppend(f1, p1, f2, p2, fmt);
    MatchesAppend(f1 + f2, p1 + p2, f3, p3, fmt);
    MatchesAppend(f1 + f2 + f3, p1 + p2 + p3, f4, p4, fmt);
  }

  /** The fragments after the header read back as navigate, start, stops and callback. */
  lemma FragmentsReadBack(st: BuilderState, fmt: CoordinateFormatter)
    requires ComposeURL(st, fmt).Success?
    ensures EncodeStops(st.stops, fmt).Success?
    ensures Matches(ParseFragments(Fragment("navigate", BoolText(st.navigate))
                                   + StartFragment(st, fmt) + EncodeStops(st.stops, fmt).value + CallbackFragment(st, fmt)),
                    [Parameter("navigate", FlagArg(st.navigate))]
                      + StartParameters(st) + StopsParameters(st.stops) + OptionalCallbackParameters(st), fmt)
  {
    ComposeURLShape(st, fmt);
    var nav := Fragment("navigate", BoolText(st.navigate));
    var a, b, c := StartFragment(st, fmt), EncodeStops(st.stops, fmt).value, CallbackFragment(st, fmt);
    KeysArePlain();
    FragmentReadsBack("navigate", BoolText(st.navigate), Parameter("navigate", FlagArg(st.navigate)), fmt);
    if st.start.Some? {
      EncodeStopReadsBack(st.start.value, fmt);
    } else {
      assert ParseFragments(a) == [];
    }
    EncodeStopsReadsBack(st.stops, fmt);
    if st.callback.Some? {
      EncodedArgumentStringReadsBack(st.callback.value, fmt);
    } else {
      assert ParseFragments(c) == [];
    }
    ParseFourRuns(nav, a, b, c);
    MatchesFour(ParseFragments(nav), ParseFragments(a), ParseFragments(b), ParseFragments(c),
                [Parameter("navigate", FlagArg(st.navigate))], StartParameters(st), StopsParameters(st.stops),
                OptionalCallbackParameters(st), fmt);
  }

  /** The six pieces of a composed URL regrouped as the prefix, then the query (kept apart to keep that proof small). */
  lemma Regroup(p: string, q: string, n: string, a: string, b: string, c: string)
    ensures p + q + n + a + b + c == p + (q + (n + a + b + c))
  {
  }

  /**
   * A composed URL is the scheme prefix followed by a query that reads back
   * as exactly the itinerary's parameters: no caller text adds, removes or
   * reorders a field.
   */
  lemma ComposeURLReadsBack(st: BuilderState, fmt: CoordinateFormatter)
    requires ComposeURL(st, fmt).Success?
    ensures |ComposeURL(st, fmt).value| >= |SchemePrefix|
    ensures ComposeURL(st, fmt).value[..|SchemePrefix|] == SchemePrefix
    ensures Matches(ParseQuery(ComposeURL(st, fmt).value[|SchemePrefix|..]), ItineraryParameters(st), fmt)
  {
    ComposeURLShape(st, fmt);
    FragmentsReadBack(st, fmt);
    KeysArePlain();
    var o := BoolText(st.optimize);
    var rest := Fragment("navigate", BoolText(st.navigate))
              + StartFragment(st, fmt) + EncodeStops(st.stops, fmt).value + CallbackFragment(st, fmt);
    var url := ComposeURL(st, fmt).value;
    var nav := Fragment("navigate", BoolText(st.navigate));
    var a, b, c := StartFragment(st, fmt), EncodeStops(st.stops, fmt).value, CallbackFragment(st, fmt);
    assert url == SchemePrefix + Pair("optimize", o) + nav + a + b + c;
    Regroup(SchemePrefix, Pair("optimize", o), nav, a, b, c);
    assert url == SchemePrefix + (Pair("optimize", o) + rest);
    assert url[..|SchemePrefix|] == SchemePrefix;
    assert url[|SchemePrefix|..] == Pair("optimize", o) + rest;
    ParseQueryOfPairAndFragments("optimize", o, rest);
    var po := [Parameter("optimize", FlagArg(st.optimize))];
    var pr := [Parameter("navigate", FlagArg(st.navigate))]
              + StartParameters(st) + StopsParameters(st.stops) + OptionalCallbackParameters(st);
    MatchesAppend([Field("optimize", o)], po, ParseFragments(rest), pr, fmt);
  }

  /**
   * Composition fails exactly when some caller text is unencodable, and then
   * with the first such text in the order start, stops, callback.
   */
  lemma ComposeURLFirstErrorWins(st: BuilderState, fmt: CoordinateFormatter)
    ensures ComposeURL(st, fmt).Failure? <==> FirstUnencodable(ItineraryTexts(st)).Some?
    ensures ComposeURL(st, fmt).Failure? ==>
      ComposeURL(st, fmt).error == URLSchemeError(FirstUnencodable(ItineraryTexts(st)).value)
  {
    var ta := match st.start case None => [] case Some(start) => StopTexts(start);
    var tc := match st.callback case None => [] case Some(callback) => CallbackTexts(callback);
    EncodeStopsFirstError(st.stops, fmt);
    FirstUnencodableAppend(ta, StopsTexts(st.stops));
    FirstUnencodableAppend(ta + StopsTexts(st.stops), tc);
  }
}
