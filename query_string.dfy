/**
 * How a consumer reads a URL query: split at every `&`, then split each
 * piece at its first `=` into key and value.  This is the reference against
 * which the composed deep link is judged.
 */
module QueryString {

  datatype Field = Field(key: string, value: string)

  /** The pieces of `s` between `&` delimiters, in order. */
  function SplitAtAmpersands(s: string): (r: seq<string>)
    ensures |r| >= 1
  {
    if s == [] then [""] else PrependChar(s[0], SplitAtAmpersands(s[1..]))
  }

  /** The pieces of `[c] + s`, given the pieces of `s`. */
  function PrependChar(c: char, pieces: seq<string>): (r: seq<string>)
    requires |pieces| >= 1
    ensures |r| >= 1
  {
    if c == '&' then [""] + pieces else [[c] + pieces[0]] + pieces[1..]
  }

  /** A piece split at its first `=`; a piece without one is all key. */
  function FieldOf(piece: string): Field {
    if piece == [] then
      Field("", "")
    else if piece[0] == '=' then
      Field("", piece[1..])
    else
      var f := FieldOf(piece[1..]);
      Field([piece[0]] + f.key, f.value)
  }

  function FieldsOf(pieces: seq<string>): (r: seq<Field>)
    ensures |r| == |pieces|
  {
    if pieces == [] then [] else [FieldOf(pieces[0])] + FieldsOf(pieces[1..])
  }

  /** The fields of a query string such as `a=1&b=2`. */
  function ParseQuery(q: string): seq<Field> {
    FieldsOf(SplitAtAmpersands(q))
  }

  /** The fields of a run of fragments such as `&a=1&b=2` (each begins with `&`). */
  function ParseFragments(s: string): seq<Field> {
    FieldsOf(SplitAtAmpersands(s)[1..])
  }

  /** A run of fragments: empty, or beginning with the delimiter. */
  predicate IsFragmentRun(s: string) {
    s == [] || s[0] == '&'
  }

  /** `key=value`, and `&key=value` as a fragment. */
  function Pair(key: string, value: string): string {
    key + "=" + value
  }

  function Fragment(key: string, value: string): string {
    "&" + Pair(key, value)
  }

  /** A field that reads back as itself: no delimiter inside, no `=` in the key. */
  predicate IsPlainField(key: string, value: string) {
    '&' !in key && '=' !in key && '&' !in value
  }

  lemma {:induction false} SplitAppend(a: string, b: string)
    requires IsFragmentRun(b)
    ensures SplitAtAmpersands(a + b) == SplitAtAmpersands(a) + SplitAtAmpersands(b)[1..]
  {
    if a == [] {
      assert a + b == b;
    } else {
      var ab := a + b;
      assert ab[0] == a[0] && ab[1..] == a[1..] + b;
      SplitAppend(a[1..], b);
      PrependCharAppend(a[0], SplitAtAmpersands(a[1..]), SplitAtAmpersands(b)[1..]);
    }
  }

  lemma PrependCharAppend(c: char, pieces: seq<string>, more: seq<string>)
    requires |pieces| >= 1
    ensures PrependChar(c, pieces + more) == PrependChar(c, pieces) + more
  {
    var all := pieces + more;
    assert all[0] == pieces[0] && all[1..] == pieces[1..] + more;
  }

  lemma {:induction false} SplitWithoutAmpersand(a: string)
    requires '&' !in a
    ensures SplitAtAmpersands(a) == [a]
  {
    if a != [] {
      SplitWithoutAmpersand(a[1..]);
      assert [a[0]] + a[1..] == a;
    }
  }

  lemma {:induction false} FieldOfPair(key: string, value: string)
    requires '=' !in key
    ensures FieldOf(Pair(key, value)) == Field(key, value)
  {
    if key == [] {
      assert Pair(key, value) == ['='] + value;
    } else {
      FieldOfPair(key[1..], value);
      assert Pair(key, value)[1..] == Pair(key[1..], value);
      assert [key[0]] + key[1..] == key;
    }
  }

  lemma {:induction false} FieldsOfAppend(a: seq<string>, b: seq<string>)
    ensures FieldsOf(a + b) == FieldsOf(a) + FieldsOf(b)
  {
    if a != [] {
      FieldsOfAppend(a[1..], b);
      assert (a + b)[1..] == a[1..] + b;
    } else {
      assert a + b == b;
    }
  }

  /** Concatenated fragment runs read as the concatenation of their fields. */
  lemma ParseFragmentsAppend(a: string, b: string)
    requires IsFragmentRun(b)
    ensures ParseFragments(a + b) == ParseFragments(a) + ParseFragments(b)
  {
    SplitAppend(a, b);
    var sa, sb := SplitAtAmpersands(a), SplitAtAmpersands(b);
    assert (sa + sb[1..])[1..] == sa[1..] + sb[1..];
    FieldsOfAppend(sa[1..], sb[1..]);
  }

  /** A plain fragment reads back as exactly its field. */
  lemma ParseFragment(key: string, value: string)
    requires IsPlainField(key, value)
    ensures ParseFragments(Fragment(key, value)) == [Field(key, value)]
  {
    assert '&' !in Pair(key, value);
    SplitWithoutAmpersand(Pair(key, value));
    FieldOfPair(key, value);
    assert Fragment(key, value)[1..] == Pair(key, value);
  }

  /** A query made of a plain first pair and a fragment run. */
  lemma ParseQueryOfPairAndFragments(key: string, value: string, rest: string)
    requires IsPlainField(key, value) && IsFragmentRun(rest)
    ensures ParseQuery(Pair(key, value) + rest) == [Field(key, value)] + ParseFragments(rest)
  {
    SplitAppend(Pair(key, value), rest);
    assert '&' !in Pair(key, value);
    SplitWithoutAmpersand(Pair(key, value));
    FieldOfPair(key, value);
    var sr := SplitAtAmpersands(rest);
    FieldsOfAppend([Pair(key, value)], sr[1..]);
  }
}
