/**
 * Text as Foundation stores it: a sequence of UTF-16 code units.
 *
 * Percent-encoding works on the UTF-8 form of a string, so the first step is
 * the conversion from UTF-16 to UTF-8 (RFC 3629).  That conversion is the one
 * place where encoding can fail: a surrogate code unit without its partner
 * does not denote a Unicode scalar value and has no UTF-8 form.
 */
module Utf16 {
  import opened Wrappers

  type CodeUnit = u: int | 0 <= u < 0x1_0000
  type Text = seq<CodeUnit>
  type Byte = b: int | 0 <= b < 0x100

  predicate IsHighSurrogate(u: int) {
    0xD800 <= u < 0xDC00
  }

  predicate IsLowSurrogate(u: int) {
    0xDC00 <= u < 0xE000
  }

  /** The code unit at `i` is a surrogate that is not part of a high/low pair. */
  predicate IsUnpairedAt(t: Text, i: int)
    requires 0 <= i < |t|
  {
    || (IsHighSurrogate(t[i]) && !(i + 1 < |t| && IsLowSurrogate(t[i + 1])))
    || (IsLowSurrogate(t[i]) && !(0 < i && IsHighSurrogate(t[i - 1])))
  }

  /** Text that has no UTF-8 form, and so cannot be percent-encoded. */
  ghost predicate Unencodable(t: Text) {
    exists i :: 0 <= i < |t| && IsUnpairedAt(t, i)
  }

  /** The scalar value denoted by a high/low surrogate pair. */
  function CombineSurrogates(high: CodeUnit, low: CodeUnit): (cp: int)
    requires IsHighSurrogate(high) && IsLowSurrogate(low)
    ensures 0x1_0000 <= cp < 0x11_0000
  {
    0x1_0000 + (high - 0xD800) * 0x400 + (low - 0xDC00)
  }

  /** A continuation byte of a multi-byte UTF-8 sequence. */
  predicate IsContinuation(b: Byte) {
    0x80 <= b < 0xC0
  }

  /** The UTF-8 form of one Unicode scalar value (RFC 3629, section 3). */
  function ScalarToUtf8(cp: int): (r: seq<Byte>)
    requires 0 <= cp < 0x11_0000
    ensures |r| == (if cp < 0x80 then 1 else if cp < 0x800 then 2 else if cp < 0x1_0000 then 3 else 4)
    ensures cp < 0x80 ==> r[0] == cp
    ensures cp >= 0x80 ==> forall i :: 0 <= i < |r| ==> r[i] >= 0x80
    ensures forall i :: 1 <= i < |r| ==> IsContinuation(r[i])
  {
    if cp < 0x80 then
      [cp]
    else if cp < 0x800 then
      [0xC0 + cp / 0x40, 0x80 + cp % 0x40]
    else if cp < 0x1_0000 then
      [0xE0 + cp / 0x1000, 0x80 + cp / 0x40 % 0x40, 0x80 + cp % 0x40]
    else
      [0xF0 + cp / 0x4_0000, 0x80 + cp / 0x1000 % 0x40, 0x80 + cp / 0x40 % 0x40, 0x80 + cp % 0x40]
  }

  /** The scalar value a well-formed UTF-8 sequence of one scalar denotes. */
  function Utf8ToScalar(bs: seq<Byte>): int
    requires 1 <= |bs| <= 4
  {
    if |bs| == 1 then
      bs[0]
    else if |bs| == 2 then
      (bs[0] as int - 0xC0) * 0x40 + (bs[1] as int - 0x80)
    else if |bs| == 3 then
      ((bs[0] as int - 0xE0) * 0x40 + (bs[1] as int - 0x80)) * 0x40 + (bs[2] as int - 0x80)
    else
      (((bs[0] as int - 0xF0) * 0x40 + (bs[1] as int - 0x80)) * 0x40 + (bs[2] as int - 0x80)) * 0x40
        + (bs[3] as int - 0x80)
  }

  /** Splitting off the low six bits of a value. */
  lemma SixBits(v: int)
    requires 0 <= v
    ensures v == (v / 0x40) * 0x40 + v % 0x40 && 0 <= v % 0x40 < 0x40
  {
  }

  /** Decoding the UTF-8 form of a scalar gives the scalar back. */
  lemma Utf8ScalarRoundTrip(cp: int)
    requires 0 <= cp < 0x11_0000
    ensures Utf8ToScalar(ScalarToUtf8(cp)) == cp
  {
    var q1 := cp / 0x40;
    var q2 := q1 / 0x40;
    var q3 := q2 / 0x40;
    SixBits(cp);
    SixBits(q1);
    SixBits(q2);
    assert cp / 0x1000 == q2 && cp / 0x4_0000 == q3;
  }

  /**
   * Conversion of UTF-16 text to UTF-8 bytes; `None` when the text holds an
   * unpaired surrogate.
   */
  function Utf8Of(t: Text): (r: Option<seq<Byte>>)
    ensures r.Some? ==> |t| <= |r.value| <= 3 * |t|
    decreases |t|
  {
    if t == [] then
      Some([])
    else if IsHighSurrogate(t[0]) then
      if 1 < |t| && IsLowSurrogate(t[1]) then
        var rest :- Utf8Of(t[2..]);
        Some(ScalarToUtf8(CombineSurrogates(t[0], t[1])) + rest)
      else
        None
    else if IsLowSurrogate(t[0]) then
      None
    else
      var rest :- Utf8Of(t[1..]);
      Some(ScalarToUtf8(t[0]) + rest)
  }

  /** Dropping a prefix that ends in a non-high code unit keeps pairing unchanged. */
  lemma UnpairedAfterPrefix(t: Text, k: nat, i: int)
    requires 0 < k <= i < |t|
    requires !IsHighSurrogate(t[k - 1])
    ensures IsUnpairedAt(t, i) <==> IsUnpairedAt(t[k..], i - k)
  {
  }

  lemma UnencodableAfterPrefix(t: Text, k: nat)
    requires 0 < k <= |t|
    requires !IsHighSurrogate(t[k - 1])
    requires forall i :: 0 <= i < k ==> !IsUnpairedAt(t, i)
    ensures Unencodable(t) <==> Unencodable(t[k..])
  {
    if Unencodable(t) {
      var i :| 0 <= i < |t| && IsUnpairedAt(t, i);
      UnpairedAfterPrefix(t, k, i);
      assert IsUnpairedAt(t[k..], i - k);
    }
    if Unencodable(t[k..]) {
      var j :| 0 <= j < |t[k..]| && IsUnpairedAt(t[k..], j);
      UnpairedAfterPrefix(t, k, j + k);
      assert IsUnpairedAt(t, j + k);
    }
  }

  /** The conversion fails exactly on text with an unpaired surrogate. */
  lemma {:induction false} Utf8OfFailsIffUnencodable(t: Text)
    ensures Utf8Of(t).None? <==> Unencodable(t)
    decreases |t|
  {
    if t == [] {
    } else if IsHighSurrogate(t[0]) {
      if 1 < |t| && IsLowSurrogate(t[1]) {
        Utf8OfFailsIffUnencodable(t[2..]);
        assert !IsUnpairedAt(t, 0) && !IsUnpairedAt(t, 1);
        UnencodableAfterPrefix(t, 2);
      } else {
        assert IsUnpairedAt(t, 0);
      }
    } else if IsLowSurrogate(t[0]) {
      assert IsUnpairedAt(t, 0);
    } else {
      Utf8OfFailsIffUnencodable(t[1..]);
      assert !IsUnpairedAt(t, 0);
      UnencodableAfterPrefix(t, 1);
    }
  }

  /** The UTF-16 form of a string of Unicode scalar values. */
  function Utf16Of(s: string): Text {
    if s == [] then [] else UnitsOfScalar(s[0] as int) + Utf16Of(s[1..])
  }

  /** The UTF-8 form of a string of Unicode scalar values, scalar by scalar. */
  function Utf8OfScalars(s: string): seq<Byte> {
    if s == [] then [] else ScalarToUtf8(s[0] as int) + Utf8OfScalars(s[1..])
  }

  /**
   * Text that came from Unicode scalar values converts to UTF-8, and to the
   * UTF-8 of those scalars: well-formed text never fails to encode.
   */
  lemma {:induction false} Utf16OfConverts(s: string)
    ensures Utf8Of(Utf16Of(s)) == Some(Utf8OfScalars(s))
  {
    if s != [] {
      Utf16OfConverts(s[1..]);
      var t := Utf16Of(s);
      var c := s[0];
      if c < 0x1_0000 as char {
        assert t[1..] == Utf16Of(s[1..]);
      } else {
        assert t[2..] == Utf16Of(s[1..]);
        assert CombineSurrogates(t[0], t[1]) == c as int;
      }
    }
  }

  lemma WellFormedTextIsEncodable(s: string)
    ensures !Unencodable(Utf16Of(s))
  {
    Utf16OfConverts(s);
    Utf8OfFailsIffUnencodable(Utf16Of(s));
  }

  /** How many bytes a UTF-8 sequence starting with `b` has; 0 for a byte no sequence starts with. */
  function LeadLength(b: Byte): nat {
    if b < 0x80 then 1
    else if 0xC0 <= b < 0xE0 then 2
    else if 0xE0 <= b < 0xF0 then 3
    else if 0xF0 <= b < 0xF8 then 4
    else 0
  }

  /** The first byte of a scalar's UTF-8 form announces its length. */
  lemma LeadLengthOfScalar(cp: int)
    requires 0 <= cp < 0x11_0000
    ensures LeadLength(ScalarToUtf8(cp)[0]) == |ScalarToUtf8(cp)|
  {
  }

  /** The UTF-16 form of one scalar value: one unit, or a surrogate pair. */
  function UnitsOfScalar(cp: int): (t: Text)
    requires 0 <= cp < 0x11_0000
    ensures cp < 0x1_0000 ==> t == [cp]
    ensures cp >= 0x1_0000 ==> |t| == 2 && IsHighSurrogate(t[0]) && IsLowSurrogate(t[1])
                                && CombineSurrogates(t[0], t[1]) == cp
  {
    if cp < 0x1_0000 then
      [cp]
    else
      var v := cp - 0x1_0000;
      [0xD800 + v / 0x400, 0xDC00 + v % 0x400]
  }

  /** A surrogate pair is the UTF-16 form of the scalar it combines to. */
  lemma SplitCombinedSurrogates(high: CodeUnit, low: CodeUnit)
    requires IsHighSurrogate(high) && IsLowSurrogate(low)
    ensures UnitsOfScalar(CombineSurrogates(high, low)) == [high, low]
  {
    var v := CombineSurrogates(high, low) - 0x1_0000;
    assert v == (high - 0xD800) * 0x400 + (low - 0xDC00);
    assert v / 0x400 == high - 0xD800 && v % 0x400 == low - 0xDC00;
  }

  /**
   * Conversion of UTF-8 bytes back to UTF-16 text (RFC 3629, section 3),
   * `None` when a sequence is cut short, has a bad lead or continuation
   * byte, or lies beyond U+10FFFF.
   */
  function Utf16OfUtf8(bs: seq<Byte>): Option<Text>
    decreases |bs|
  {
    if bs == [] then
      Some([])
    else
      var n := LeadLength(bs[0]);
      if n == 0 || |bs| < n || exists i :: 1 <= i < n && !IsContinuation(bs[i]) then
        None
      else
        var cp := Utf8ToScalar(bs[..n]);
        if cp < 0 || 0x11_0000 <= cp then
          None
        else
          var rest :- Utf16OfUtf8(bs[n..]);
          Some(UnitsOfScalar(cp) + rest)
  }

  /** One scalar's UTF-8 form followed by more bytes decodes scalar first. */
  lemma DecodeScalarThenRest(cp: int, rest: seq<Byte>)
    requires 0 <= cp < 0x11_0000
    ensures Utf16OfUtf8(ScalarToUtf8(cp) + rest)
         == match Utf16OfUtf8(rest)
            case None => None
            case Some(t) => Some(UnitsOfScalar(cp) + t)
  {
    var head := ScalarToUtf8(cp);
    var bs := head + rest;
    LeadLengthOfScalar(cp);
    Utf8ScalarRoundTrip(cp);
    assert bs[0] == head[0];
    assert bs[..|head|] == head && bs[|head|..] == rest;
    assert forall i :: 1 <= i < |head| ==> bs[i] == head[i];
  }

  /** Converting to UTF-8 and back gives the text back: no information is lost. */
  lemma {:induction false} Utf8RoundTrip(t: Text)
    requires Utf8Of(t).Some?
    ensures Utf16OfUtf8(Utf8Of(t).value) == Some(t)
    decreases |t|
  {
    if t != [] {
      if IsHighSurrogate(t[0]) {
        var cp := CombineSurrogates(t[0], t[1]);
        Utf8RoundTrip(t[2..]);
        DecodeScalarThenRest(cp, Utf8Of(t[2..]).value);
        SplitCombinedSurrogates(t[0], t[1]);
        assert [t[0], t[1]] + t[2..] == t;
      } else {
        Utf8RoundTrip(t[1..]);
        DecodeScalarThenRest(t[0], Utf8Of(t[1..]).value);
        assert [t[0]] + t[1..] == t;
      }
    }
  }
}
