/**
 * Worked deep links: an example itinerary, a name holding an
 * ampersand, an unencodable callback prompt, and clients of the builder
 * that show last-write-wins for the start and insertion order for stops.
 */
module NavigatorScenarios {
  import opened Wrappers
  import opened Utf16
  import opened PercentEncoding
  import opened QueryString
  import opened Navigator
  import opened NavigatorProperties

  /** Percent-encoding distributes over concatenation of byte sequences. */
  lemma {:induction false} EncodeBytesAppend(a: seq<Byte>, b: seq<Byte>)
    ensures EncodeBytes(a + b) == EncodeBytes(a) + EncodeBytes(b)
  {
    if a == [] {
      assert a + b == b;
    } else {
      var ab := a + b;
      assert ab[0] == a[0] && ab[1..] == a[1..] + b;
      EncodeBytesAppend(a[1..], b);
      calc {
        EncodeBytes(ab);
        EncodeByte(a[0]) + EncodeBytes(a[1..] + b);
        EncodeByte(a[0]) + (EncodeBytes(a[1..]) + EncodeBytes(b));
        (EncodeByte(a[0]) + EncodeBytes(a[1..])) + EncodeBytes(b);
      }
    }
  }

  lemma {:induction false} Utf8OfScalarsAppend(a: string, b: string)
    ensures Utf8OfScalars(a + b) == Utf8OfScalars(a) + Utf8OfScalars(b)
  {
    if a == [] {
      assert a + b == b;
    } else {
      var ab := a + b;
      assert ab[0] == a[0] && ab[1..] == a[1..] + b;
      Utf8OfScalarsAppend(a[1..], b);
      calc {
        Utf8OfScalars(ab);
        ScalarToUtf8(a[0] as int) + Utf8OfScalars(a[1..] + b);
        ScalarToUtf8(a[0] as int) + (Utf8OfScalars(a[1..]) + Utf8OfScalars(b));
        (ScalarToUtf8(a[0] as int) + Utf8OfScalars(a[1..])) + Utf8OfScalars(b);
      }
    }
  }

  /** The query-argument encoding of a string of Unicode scalars. */
  function EncodedString(s: string): string {
    EncodeBytes(Utf8OfScalars(s))
  }

  lemma EncodedStringIsQueryArgument(s: string)
    ensures QueryArgumentEncodedString(Utf16Of(s)) == Some(EncodedString(s))
  {
    Utf16OfConverts(s);
  }

  lemma EncodedStringAppend(a: string, b: string)
    ensures EncodedString(a + b) == EncodedString(a) + EncodedString(b)
  {
    Utf8OfScalarsAppend(a, b);
    EncodeBytesAppend(Utf8OfScalars(a), Utf8OfScalars(b));
  }

  /** Allowed ASCII characters are written as themselves. */
  lemma {:induction false} EncodedAllowedString(s: string)
    requires forall i :: 0 <= i < |s| ==> s[i] < 0x80 as char && IsQueryArgumentAllowed(s[i])
    ensures EncodedString(s) == s
  {
    if s != [] {
      EncodedAllowedString(s[1..]);
      assert [s[0]] + s[1..] == s;
      EncodedStringAppend([s[0]], s[1..]);
      assert Utf8OfScalars([s[0]]) == [s[0] as int];
      assert EncodeBytes([s[0] as int]) == EncodeByte(s[0] as int) + EncodeBytes([]);
    }
  }

  lemma EncodedSpace()
    ensures EncodedString(" ") == "%20"
  {
    assert Utf8OfScalars(" ") == [0x20];
    assert !IsLiteral(0x20);
    assert HexDigit(2) == '2' && HexDigit(0) == '0';
    assert EncodeBytes([0x20]) == EncodeByte(0x20) + EncodeBytes([]);
  }

  lemma EncodeHome()
    ensures QueryArgumentEncodedString(Utf16Of("Home")) == Some("Home")
  {
    EncodedStringIsQueryArgument("Home");
    EncodedAllowedString("Home");
  }

  /** A space is escaped wherever it occurs. */
  lemma EncodedSpaceBetween(x: string, y: string)
    ensures EncodedString(x + " " + y) == EncodedString(x) + "%20" + EncodedString(y)
  {
    EncodedStringAppend(x + " ", y);
    EncodedStringAppend(x, " ");
    EncodedSpace();
  }

  /*
   * The literal strings of these scenarios are cut into words and glued back
   * in small lemmas such as this one, which receive each literal as a
   * parameter fixed by a `requires`: the verifier then unfolds a literal only
   * inside its own small lemma, which keeps the scenario proofs cheap.
   */
  lemma SplitMainStreet(s: string)
    requires s == "1 Main St"
    ensures s == s[..1] + " " + (s[2..6] + " " + s[7..])
    ensures s[..1] == "1" && s[2..6] == "Main" && s[7..] == "St"
  {
  }

  lemma JoinMainStreet(encoded: string, one: string, main: string, st: string)
    requires encoded == "1%20Main%20St" && one == "1" && main == "Main" && st == "St"
    ensures encoded == one + "%20" + (main + "%20" + st)
  {
  }

  lemma EncodedMainStreet(s: string, encoded: string)
    requires s == "1 Main St" && encoded == "1%20Main%20St"
    ensures EncodedString(s) == encoded
  {
    SplitMainStreet(s);
    var one, main, st := s[..1], s[2..6], s[7..];
    EncodedThreeWords(one, main, st);
    EncodedAllowedString(one);
    EncodedAllowedString(main);
    EncodedAllowedString(st);
    JoinMainStreet(encoded, one, main, st);
  }

  lemma EncodeMainStreet()
    ensures QueryArgumentEncodedString(Utf16Of("1 Main St")) == Some("1%20Main%20St")
  {
    EncodedStringIsQueryArgument("1 Main St");
    EncodedMainStreet("1 Main St", "1%20Main%20St");
  }

  /** A named point stop: the point fragment, then the name fragment. */
  lemma EncodeNamedPoint(point: Point, name: Text, encodedName: string, stopType: StopType, fmt: CoordinateFormatter)
    requires QueryArgumentEncodedString(name) == Some(encodedName)
    ensures EncodeStop(NavigatorStop(WGS84(point), Some(name), stopType), fmt)
         == Success(Fragment(stopType.RawValue(), fmt(point.y) + "," + fmt(point.x))
                    + Fragment(stopType.RawValue() + "name", encodedName))
  {
  }

  lemma JoinCoordinates(lat: string, lon: string)
    requires lat == "34.0" && lon == "-118.0"
    ensures lat + "," + lon == "34.0,-118.0"
  {
  }

  lemma HomeStart(fmt: CoordinateFormatter, home: Text)
    requires fmt(34.0) == "34.0" && fmt(-118.0) == "-118.0"
    requires QueryArgumentEncodedString(home) == Some("Home")
    ensures EncodeStop(NavigatorStop(WGS84(Point(-118.0, 34.0)), Some(home), Start), fmt)
         == Success(Fragment("start", "34.0,-118.0") + Fragment("startname", "Home"))
  {
    EncodeNamedPoint(Point(-118.0, 34.0), home, "Home", Start, fmt);
    JoinCoordinates(fmt(34.0), fmt(-118.0));
    assert Start.RawValue() + "name" == "startname";
  }

  lemma MainStreetStop(fmt: CoordinateFormatter, mainSt: Text)
    requires QueryArgumentEncodedString(mainSt) == Some("1%20Main%20St")
    ensures EncodeStops([NavigatorStop(Address(mainSt), None, Stop)], fmt) == Success(Fragment("stop", "1%20Main%20St"))
  {
    var stops := [NavigatorStop(Address(mainSt), None, Stop)];
    assert stops[..0] == [];
    var f := Fragment("stop", "1%20Main%20St");
    assert EncodeStop(stops[0], fmt) == Success(f + "");
    assert f + "" == f && "" + f == f;
  }

  lemma ExampleLinkText()
    ensures Header(true, false) + (Fragment("start", "34.0,-118.0") + Fragment("startname", "Home"))
            + Fragment("stop", "1%20Main%20St") + ""
         == "arcgis-navigator://?optimize=true&navigate=false" + "&start=34.0,-118.0"
            + "&startname=Home" + "&stop=1%20Main%20St"
  {
    ExampleHeader();
    ExampleFragments();
  }

  lemma ExampleHeader()
    ensures Header(true, false) == "arcgis-navigator://?optimize=true&navigate=false"
  {
    assert BoolText(true) == "true" && BoolText(false) == "false";
    HeaderPieces();
    JoinHeader("arcgis-navigator://?optimize=true&navigate=false", Scheme, "//?",
               Pair("optimize", "true"), Fragment("navigate", "false"));
  }

  lemma HeaderPieces()
    ensures Scheme == "arcgis-navigator:"
    ensures Pair("optimize", "true") == "optimize=true"
    ensures Fragment("navigate", "false") == "&navigate=false"
  {
  }

  lemma JoinHeader(h: string, scheme: string, slashes: string, optimize: string, navigate: string)
    requires scheme == "arcgis-navigator:" && slashes == "//?"
    requires optimize == "optimize=true" && navigate == "&navigate=false"
    requires h == "arcgis-navigator://?optimize=true&navigate=false"
    ensures h == scheme + slashes + optimize + navigate
  {
  }

  lemma ExampleFragments()
    ensures Fragment("start", "34.0,-118.0") == "&start=34.0,-118.0"
    ensures Fragment("startname", "Home") == "&startname=Home"
    ensures Fragment("stop", "1%20Main%20St") == "&stop=1%20Main%20St"
  {
  }

  /**
   * optimize=true, navigate=false, start at latitude 34.0, longitude -118.0
   * named "Home", one unnamed stop at the address "1 Main St", no callback.
   */
  lemma HomeToMainStreet(fmt: CoordinateFormatter)
    requires fmt(34.0) == "34.0" && fmt(-118.0) == "-118.0"
    ensures ComposeURL(
              BuilderState(true, false,
                           Some(NavigatorStop(WGS84(Point(-118.0, 34.0)), Some(Utf16Of("Home")), Start)),
                           [NavigatorStop(Address(Utf16Of("1 Main St")), None, Stop)],
                           None),
              fmt)
         == Success("arcgis-navigator://?optimize=true&navigate=false" + "&start=34.0,-118.0"
                    + "&startname=Home" + "&stop=1%20Main%20St")
  {
    EncodeHome();
    EncodeMainStreet();
    var home, mainSt := Utf16Of("Home"), Utf16Of("1 Main St");
    HomeStart(fmt, home);
    MainStreetStop(fmt, mainSt);
    var st := BuilderState(true, false,
                           Some(NavigatorStop(WGS84(Point(-118.0, 34.0)), Some(home), Start)),
                           [NavigatorStop(Address(mainSt), None, Stop)],
                           None);
    ComposeFromFragments(st, fmt, Fragment("start", "34.0,-118.0") + Fragment("startname", "Home"),
                         Fragment("stop", "1%20Main%20St"), "");
    ExampleLinkText();
  }

  /** Three words separated by spaces, each encoded on its own. */
  lemma EncodedThreeWords(a: string, b: string, c: string)
    ensures EncodedString(a + " " + (b + " " + c))
         == EncodedString(a) + "%20" + (EncodedString(b) + "%20" + EncodedString(c))
  {
    EncodedSpaceBetween(a, b + " " + c);
    EncodedSpaceBetween(b, c);
  }

  lemma SplitAmpersandName(s: string)
    requires s == "A & B"
    ensures s == s[..1] + " " + (s[2..3] + " " + s[4..])
    ensures s[..1] == "A" && s[2..3] == "&" && s[4..] == "B"
  {
  }

  lemma JoinAmpersandName(encoded: string, a: string, b: string)
    requires encoded == "A%20%26%20B" && a == "A" && b == "B"
    ensures encoded == a + "%20" + ("%26" + "%20" + b)
  {
  }

  /** An ampersand in a name is escaped, so it cannot start a new field. */
  lemma EncodedAmpersandName(s: string, encoded: string)
    requires s == "A & B" && encoded == "A%20%26%20B"
    ensures EncodedString(s) == encoded
  {
    SplitAmpersandName(s);
    var a, amp, b := s[..1], s[2..3], s[4..];
    EncodedThreeWords(a, amp, b);
    EncodedAllowedString(a);
    EncodedStringIsQueryArgument(amp);
    assert Utf16Of(amp) == ['&' as int];
    AmpersandIsEscaped();
    EncodedAllowedString(b);
    JoinAmpersandName(encoded, a, b);
  }

  /** A start named "A & B" reads back as exactly its two fields. */
  lemma AmpersandNameReadsBack(location: LocationType, fmt: CoordinateFormatter, s: string, encoded: string)
    requires location.Address? ==> !Unencodable(location.address)
    requires s == "A & B" && encoded == "A%20%26%20B"
    ensures var stop := NavigatorStop(location, Some(Utf16Of(s)), Start);
      EncodeStop(stop, fmt).Success?
      && var fields := ParseFragments(EncodeStop(stop, fmt).value);
      |fields| == 2 && fields[1] == Field("startname", encoded)
  {
    var name := Utf16Of(s);
    EncodedStringIsQueryArgument(s);
    EncodedAmpersandName(s, encoded);
    var stop := NavigatorStop(location, Some(name), Start);
    var loc :- assert QueryArgument(location, fmt);
    var role := "start";
    assert role + "name" == "startname";
    assert EncodeStop(stop, fmt) == Success(Fragment(role, loc) + Fragment("startname", encoded));
    assert '&' !in encoded;
    ParseFragmentsAppend(Fragment(role, loc), Fragment("startname", encoded));
    ParseFragment(role, loc);
    ParseFragment("startname", encoded);
  }

  /** A lone high surrogate is ill-formed UTF-16. */
  lemma LoneSurrogateIsUnencodable()
    ensures Unencodable([0xD800])
  {
    assert IsUnpairedAt([0xD800], 0);
  }

  /** When both the name and the address of a stop fail, the name is reported. */
  lemma NameErrorWinsOverAddress(name: Text, address: Text, stopType: StopType, fmt: CoordinateFormatter)
    requires Unencodable(name) && Unencodable(address)
    ensures EncodeStop(NavigatorStop(Address(address), Some(name), stopType), fmt) == Failure(URLSchemeError(name))
  {
    assert StopTexts(NavigatorStop(Address(address), Some(name), stopType)) == [name, address];
  }

  /**
   * An encodable callback scheme with an unencodable prompt: no URL, and the
   * error carries the prompt.
   */
  lemma UnencodablePromptFails(scheme: string, fmt: CoordinateFormatter)
    ensures ComposeURL(BuilderState(false, false, None, [], Some(Callback(Utf16Of(scheme), Some([0xD800])))), fmt)
         == Failure(URLSchemeError([0xD800]))
  {
    WellFormedTextIsEncodable(scheme);
    LoneSurrogateIsUnencodable();
    var callback := Callback(Utf16Of(scheme), Some([0xD800]));
    assert CallbackTexts(callback) == [Utf16Of(scheme), [0xD800]];
    assert EncodedArgumentString(callback) == Failure(URLSchemeError([0xD800]));
    assert EncodeStops([], fmt) == Success("");
  }

  /** A client that sets the start twice: only the second start is in the link. */
  method StartSetTwice<U>(first: LocationType, second: LocationType, fmt: CoordinateFormatter, parse: string -> Option<U>)
    returns (r: Result<Option<U>, URLSchemeError>)
    ensures r == ToURL(ComposeURL(BuilderState(false, false, Some(NavigatorStop(second, None, Start)), [], None), fmt), parse)
  {
    var scheme := new NavigatorURLScheme();
    scheme.SetStartAtLocation(first);
    scheme.SetStartAtLocation(second);
    r := scheme.GenerateURL(fmt, parse);
  }

  /** A client that adds two stops: they appear in the order they were added. */
  method StopsInInsertionOrder<U>(a: LocationType, b: LocationType, fmt: CoordinateFormatter, parse: string -> Option<U>)
    returns (r: Result<Option<U>, URLSchemeError>)
    ensures r == ToURL(ComposeURL(BuilderState(true, true, None,
                                               [NavigatorStop(a, None, Stop), NavigatorStop(b, None, Stop)], None), fmt), parse)
  {
    var scheme := new NavigatorURLScheme(optimize := true, navigate := true);
    scheme.AddStopAtLocation(a);
    scheme.AddStopAtLocation(b);
    ghost var stops := [NavigatorStop(a, None, Stop)] + [NavigatorStop(b, None, Stop)];
    assert scheme.State() == BuilderState(true, true, None, stops, None);
    assert stops == [NavigatorStop(a, None, Stop), NavigatorStop(b, None, Stop)];
    r := scheme.GenerateURL(fmt, parse);
  }
}
