/** `encodeURIComponent` and its inverse `decodeURIComponent`, the URI
    handling functions of ECMA-262 section 19.2.6: code points outside the
    unreserved set are written as `%XX` escapes of their UTF-8 octets
    (section 2.1 of RFC 3986), and a lone surrogate is a URIError. */
module UriComponent {

  import opened Wrappers
  import opened JsStrings

  /** The URIError both functions throw. */
  datatype UriError = UriError

  /** An octet of a UTF-8 encoding. */
  type Octet = b: int | 0 <= b < 0x100

  const Percent: CodeUnit := '%' as int

  /** uriUnreserved of ECMA-262: ASCII letters, decimal digits and the marks
      `- _ . ! ~ * ' ( )`. These are the units `encodeURIComponent` keeps. */
  predicate IsUriUnreserved(u: int) {
    ('a' as int <= u <= 'z' as int) || ('A' as int <= u <= 'Z' as int)
    || ('0' as int <= u <= '9' as int)
    || u == '-' as int || u == '_' as int || u == '.' as int || u == '!' as int
    || u == '~' as int || u == '*' as int || u == '\'' as int
    || u == '(' as int || u == ')' as int
  }

  predicate IsUpperHexDigit(u: int) {
    ('0' as int <= u <= '9' as int) || ('A' as int <= u <= 'F' as int)
  }

  /** The upper-case hexadecimal digit for `d`. */
  function HexDigit(d: int): (u: CodeUnit)
    requires 0 <= d < 16
    ensures IsUpperHexDigit(u)
  {
    if d < 10 then '0' as int + d else 'A' as int + (d - 10)
  }

  /** The value of a hexadecimal digit of either case, if `u` is one. */
  function HexValue(u: CodeUnit): (v: Option<int>)
    ensures v.Some? ==> 0 <= v.value < 16
  {
    if '0' as int <= u <= '9' as int then Some(u - '0' as int)
    else if 'A' as int <= u <= 'F' as int then Some(u - 'A' as int + 10)
    else if 'a' as int <= u <= 'f' as int then Some(u - 'a' as int + 10)
    else None
  }

  /** Reading a digit back gives the value it was written for. */
  lemma HexRoundTrip(d: int)
    requires 0 <= d < 16
    ensures HexValue(HexDigit(d)) == Some(d)
  {
  }

  /** The escape `%XY` of one octet, with upper-case hexadecimal digits. */
  function PercentEscape(b: Octet): (e: JsString)
    ensures |e| == 3 && e[0] == Percent
  {
    [Percent, HexDigit(b / 16), HexDigit(b % 16)]
  }

  /** The escapes of a run of octets, one after the other. */
  function PercentEscapes(octets: seq<Octet>): (e: JsString)
    ensures |e| == 3 * |octets|
  {
    if octets == [] then [] else PercentEscape(octets[0]) + PercentEscapes(octets[1..])
  }

  predicate IsContinuation(b: int) { 0x80 <= b <= 0xBF }

  /** The UTF-8 octets of a scalar value (the shortest form). */
  function Utf8Encode(cp: int): (octets: seq<Octet>)
    requires IsScalarValue(cp)
    ensures |octets| == (if cp < 0x80 then 1 else if cp < 0x800 then 2
                         else if cp < 0x1_0000 then 3 else 4)
    ensures forall j :: 1 <= j < |octets| ==> IsContinuation(octets[j])
    ensures |octets| == 1 ==> octets[0] < 0x80
    ensures |octets| == 2 ==> 0xC0 <= octets[0] <= 0xDF
    ensures |octets| == 3 ==> 0xE0 <= octets[0] <= 0xEF
    ensures |octets| == 4 ==> 0xF0 <= octets[0] <= 0xF7
  {
    var c1, m1 := cp / 64, cp % 64;
    var c2, m2 := c1 / 64, c1 % 64;
    var c3, m3 := c2 / 64, c2 % 64;
    if cp < 0x80 then [cp]
    else if cp < 0x800 then [0xC0 + c1, 0x80 + m1]
    else if cp < 0x1_0000 then [0xE0 + c2, 0x80 + m2, 0x80 + m1]
    else [0xF0 + c3, 0x80 + m3, 0x80 + m2, 0x80 + m1]
  }

  /** The code point at the start of `s`, as ECMA-262's CodePointAt reads it:
      a surrogate pair is one code point of two units; any other surrogate is
      unpaired. */
  datatype CodePointRead = CodePointRead(codePoint: int, units: nat, unpaired: bool)

  function CodePointAt(s: JsString): (r: CodePointRead)
    requires |s| > 0
    ensures 1 <= r.units <= |s|
    ensures !r.unpaired ==> IsScalarValue(r.codePoint) && s[..r.units] == EncodeCodePoint(r.codePoint)
    ensures r.unpaired <==> IsTrailSurrogate(s[0])
                            || (IsLeadSurrogate(s[0]) && (|s| == 1 || !IsTrailSurrogate(s[1])))
  {
    var first := s[0];
    if !IsSurrogate(first) then CodePointRead(first, 1, false)
    else if IsTrailSurrogate(first) || |s| == 1 then CodePointRead(first, 1, true)
    else if !IsTrailSurrogate(s[1]) then CodePointRead(first, 1, true)
    else
      PairRoundTrip(first, s[1]);
      CodePointRead(SurrogatePairToCodePoint(first, s[1]), 2, false)
  }

  /** `encodeURIComponent(s)`: unreserved units are copied, every other code
      point becomes the escapes of its UTF-8 octets, and an unpaired surrogate
      throws a URIError. */
  function EncodeUriComponent(s: JsString): (r: Result<JsString, UriError>)
    decreases |s|
  {
    if s == [] then Ok([])
    else if IsUriUnreserved(s[0]) then
      var rest := EncodeUriComponent(s[1..]);
      if rest.Err? then rest else Ok([s[0]] + rest.value)
    else
      var cp := CodePointAt(s);
      if cp.unpaired then Err(UriError)
      else
        var rest := EncodeUriComponent(s[cp.units..]);
        if rest.Err? then rest else Ok(PercentEscapes(Utf8Encode(cp.codePoint)) + rest.value)
  }

  /** The shape of an encoded component: unreserved units and `%XY` escapes
      with upper-case hexadecimal digits, nothing else. */
  predicate IsEncodedForm(e: JsString)
    decreases |e|
  {
    e == []
    || (IsUriUnreserved(e[0]) && IsEncodedForm(e[1..]))
    || (|e| >= 3 && e[0] == Percent && IsUpperHexDigit(e[1]) && IsUpperHexDigit(e[2])
        && IsEncodedForm(e[3..]))
  }

  // ---------------------------------------------------------------------
  // decodeURIComponent
  // ---------------------------------------------------------------------

  /** The octet an escape `%XY` at the start of `s` stands for, if there is one. */
  function EscapedOctet(s: JsString): (b: Option<Octet>)
  {
    if |s| < 3 || s[0] != Percent then None
    else match (HexValue(s[1]), HexValue(s[2]))
      case (Some(hi), Some(lo)) => Some(hi * 16 + lo)
      case _ => None
  }

  /** The number of leading one bits of an octet. */
  function LeadingOnes(b: Octet): (n: nat)
    ensures n <= 8
  {
    if b < 0x80 then 0 else if b < 0xC0 then 1 else if b < 0xE0 then 2
    else if b < 0xF0 then 3 else if b < 0xF8 then 4 else if b < 0xFC then 5
    else if b < 0xFE then 6 else if b < 0xFF then 7 else 8
  }

  /** Reads `count` escaped continuation octets from the start of `s`. */
  function ReadContinuations(s: JsString, count: nat): (r: Option<seq<Octet>>)
    ensures r.Some? ==> |r.value| == count && 3 * count <= |s|
    ensures r.Some? ==> forall j :: 0 <= j < count ==> IsContinuation(r.value[j])
    decreases count
  {
    if count == 0 then Some([])
    else match EscapedOctet(s)
      case None => None
      case Some(b) =>
        if !IsContinuation(b) then None
        else match ReadContinuations(s[3..], count - 1)
          case None => None
          case Some(rest) => Some([b] + rest)
  }

  /** The code point a lead octet and its continuations encode, when they are
      a valid UTF-8 encoding: not overlong, not a surrogate, at most 0x10FFFF. */
  function Utf8Decode(octets: seq<Octet>): (cp: Option<int>)
    requires 1 <= |octets| <= 4
    requires |octets| == 1 ==> octets[0] < 0x80
    requires |octets| == 2 ==> 0xC0 <= octets[0] <= 0xDF
    requires |octets| == 3 ==> 0xE0 <= octets[0] <= 0xEF
    requires |octets| == 4 ==> 0xF0 <= octets[0] <= 0xF7
    requires forall j :: 1 <= j < |octets| ==> IsContinuation(octets[j])
    ensures cp.Some? ==> IsScalarValue(cp.value)
  {
    if |octets| == 1 then Some(octets[0])
    else if |octets| == 2 then
      var v := (octets[0] as int - 0xC0) * 64 + (octets[1] as int - 0x80);
      if 0x80 <= v then Some(v) else None
    else if |octets| == 3 then
      var v := ((octets[0] as int - 0xE0) * 64 + (octets[1] as int - 0x80)) * 64 + (octets[2] as int - 0x80);
      if 0x800 <= v && !IsSurrogate(v) then Some(v) else None
    else
      var v := (((octets[0] as int - 0xF0) * 64 + (octets[1] as int - 0x80)) * 64 + (octets[2] as int - 0x80)) * 64
               + (octets[3] as int - 0x80);
      if 0x1_0000 <= v <= 0x10_FFFF then Some(v) else None
  }

  /** Decodes the run of escapes at the start of `s` (which starts with `%`)
      that encodes one code point; gives its UTF-16 units and the number of
      units of `s` it used. */
  function DecodeEscapeRun(s: JsString): (r: Result<(JsString, nat), UriError>)
    requires |s| > 0 && s[0] == Percent
    ensures r.Ok? ==> 3 <= r.value.1 <= |s|
  {
    match EscapedOctet(s)
    case None => Err(UriError)
    case Some(b) =>
      var n := LeadingOnes(b);
      if n == 0 then Ok(([b], 3))
      else if n == 1 || n > 4 || |s| < 3 * n then Err(UriError)
      else match ReadContinuations(s[3..], n - 1)
        case None => Err(UriError)
        case Some(continuations) =>
          match Utf8Decode([b] + continuations)
          case None => Err(UriError)
          case Some(cp) => Ok((EncodeCodePoint(cp), 3 * n))
  }

  /** `decodeURIComponent(e)`: every run of escapes that is the UTF-8
      encoding of a code point becomes that code point; any other `%` is a
      URIError; every other unit is copied. */
  function DecodeUriComponent(e: JsString): (r: Result<JsString, UriError>)
    decreases |e|
  {
    if e == [] then Ok([])
    else if e[0] != Percent then
      var rest := DecodeUriComponent(e[1..]);
      if rest.Err? then rest else Ok([e[0]] + rest.value)
    else
      match DecodeEscapeRun(e)
      case Err(err) => Err(err)
      case Ok((units, used)) =>
        var rest := DecodeUriComponent(e[used..]);
        if rest.Err? then rest else Ok(units + rest.value)
  }

  // ---------------------------------------------------------------------
  // Properties
  // ---------------------------------------------------------------------

  /** A string is well formed exactly when its first code point is paired and
      the rest after it is well formed. */
  lemma WellFormedStep(s: JsString)
    requires |s| > 0
    ensures WellFormed(s) <==>
      !CodePointAt(s).unpaired && WellFormed(s[CodePointAt(s).units..])
  {
    var cp := CodePointAt(s);
    var rest := s[cp.units..];
    if WellFormed(s) {
      assert PairedAt(s, 0);
      if IsLeadSurrogate(s[0]) { assert PairedAt(s, 1); }
      assert !cp.unpaired;
      forall j | 0 <= j < |rest|
        ensures PairedAt(rest, j)
      {
        var i := j + cp.units;
        assert rest[j] == s[i];
        assert PairedAt(s, i);
        if IsLeadSurrogate(s[i]) { assert rest[j + 1] == s[i + 1]; }
        if IsTrailSurrogate(s[i]) && j > 0 { assert rest[j - 1] == s[i - 1]; }
      }
    }
    if !cp.unpaired && WellFormed(rest) {
      assert s[0] == s[..cp.units][0];
      if cp.units == 2 { assert s[1] == s[..cp.units][1]; }
      forall i | 0 <= i < |s|
        ensures PairedAt(s, i)
      {
        if i >= cp.units {
          var j := i - cp.units;
          assert s[i] == rest[j];
          assert PairedAt(rest, j);
          if j + 1 < |rest| { assert s[i + 1] == rest[j + 1]; }
          if j > 0 { assert s[i - 1] == rest[j - 1]; }
        }
      }
    }
  }

  /** `encodeURIComponent` throws exactly on strings with an unpaired surrogate. */
  lemma {:induction false} EncodeSucceedsIffWellFormed(s: JsString)
    ensures EncodeUriComponent(s).Ok? <==> WellFormed(s)
    decreases |s|
  {
    if s != [] {
      WellFormedStep(s);
      var cp := CodePointAt(s);
      if IsUriUnreserved(s[0]) {
        assert cp.units == 1 && !cp.unpaired;
      }
      if !cp.unpaired {
        EncodeSucceedsIffWellFormed(s[cp.units..]);
      }
    }
  }

  lemma {:induction false} EncodedFormAppend(a: JsString, b: JsString)
    requires IsEncodedForm(a) && IsEncodedForm(b)
    ensures IsEncodedForm(a + b)
    decreases |a|
  {
    if a != [] {
      var ab := a + b;
      if a[0] == Percent {
        assert |a| >= 3 && IsUpperHexDigit(a[1]) && IsUpperHexDigit(a[2]) && IsEncodedForm(a[3..]);
        EncodedFormAppend(a[3..], b);
        assert ab[0] == a[0] && ab[1] == a[1] && ab[2] == a[2];
        assert ab[3..] == a[3..] + b;
      } else {
        assert IsUriUnreserved(a[0]) && IsEncodedForm(a[1..]);
        EncodedFormAppend(a[1..], b);
        assert ab[1..] == a[1..] + b;
      }
    } else {
      assert a + b == b;
    }
  }

  lemma {:induction false} EscapesAreEncodedForm(octets: seq<Octet>)
    ensures IsEncodedForm(PercentEscapes(octets))
    decreases |octets|
  {
    if octets != [] {
      var e := PercentEscapes(octets);
      EscapesAreEncodedForm(octets[1..]);
      assert e[3..] == PercentEscapes(octets[1..]);
    }
  }

  /** The output of `encodeURIComponent` consists of unreserved units and
      `%XY` escapes with upper-case digits only. */
  lemma {:induction false} EncodeGivesEncodedForm(s: JsString)
    requires EncodeUriComponent(s).Ok?
    ensures IsEncodedForm(EncodeUriComponent(s).value)
    decreases |s|
  {
    if s != [] {
      var e := EncodeUriComponent(s).value;
      if IsUriUnreserved(s[0]) {
        EncodeGivesEncodedForm(s[1..]);
        assert e[1..] == EncodeUriComponent(s[1..]).value;
      } else {
        var cp := CodePointAt(s);
        EncodeGivesEncodedForm(s[cp.units..]);
        EscapesAreEncodedForm(Utf8Encode(cp.codePoint));
        EncodedFormAppend(PercentEscapes(Utf8Encode(cp.codePoint)), EncodeUriComponent(s[cp.units..]).value);
      }
    }
  }

  /** Every unit of an encoded component is unreserved, a `%` or an upper-case
      hexadecimal digit. */
  lemma {:induction false} EncodedFormUnits(e: JsString)
    requires IsEncodedForm(e)
    ensures forall i :: 0 <= i < |e| ==>
      IsUriUnreserved(e[i]) || e[i] == Percent || IsUpperHexDigit(e[i])
    decreases |e|
  {
    if e != [] {
      if IsUriUnreserved(e[0]) && IsEncodedForm(e[1..]) {
        EncodedFormUnits(e[1..]);
        assert forall i :: 1 <= i < |e| ==> e[i] == e[1..][i - 1];
      } else {
        EncodedFormUnits(e[3..]);
        assert forall i :: 3 <= i < |e| ==> e[i] == e[3..][i - 3];
      }
    }
  }

  /** So an encoded query value never carries a raw space, `&`, `=`, `#` or
      `+`: it cannot end the parameter, start a fragment or read as a space. */
  lemma EncodedHasNoDelimiters(s: JsString)
    requires EncodeUriComponent(s).Ok?
    ensures forall i :: 0 <= i < |EncodeUriComponent(s).value| ==>
      EncodeUriComponent(s).value[i] !in
        {' ' as int, '&' as int, '=' as int, '#' as int, '+' as int, '?' as int, '/' as int}
  {
    EncodeGivesEncodedForm(s);
    EncodedFormUnits(EncodeUriComponent(s).value);
  }

  /** An escape written for an octet reads back as that octet. */
  lemma EscapedOctetRoundTrip(b: Octet, rest: JsString)
    ensures EscapedOctet(PercentEscape(b) + rest) == Some(b)
  {
    var e := PercentEscape(b) + rest;
    assert e[0] == Percent && e[1] == HexDigit(b / 16) && e[2] == HexDigit(b % 16);
    HexRoundTrip(b / 16);
    HexRoundTrip(b % 16);
  }

  /** Escaped continuation octets read back as themselves. */
  lemma {:induction false} ContinuationsRoundTrip(octets: seq<Octet>, rest: JsString)
    requires forall j :: 0 <= j < |octets| ==> IsContinuation(octets[j])
    ensures ReadContinuations(PercentEscapes(octets) + rest, |octets|) == Some(octets)
    decreases |octets|
  {
    if octets != [] {
      var e := PercentEscapes(octets) + rest;
      assert e == PercentEscape(octets[0]) + (PercentEscapes(octets[1..]) + rest);
      EscapedOctetRoundTrip(octets[0], PercentEscapes(octets[1..]) + rest);
      assert e[3..] == PercentEscapes(octets[1..]) + rest;
      ContinuationsRoundTrip(octets[1..], rest);
      assert octets == [octets[0]] + octets[1..];
    }
  }

  /** UTF-8 decoding inverts UTF-8 encoding. */
  lemma Utf8RoundTrip(cp: int)
    requires IsScalarValue(cp)
    ensures Utf8Decode(Utf8Encode(cp)) == Some(cp)
  {
    var c1, m1 := cp / 64, cp % 64;
    var c2, m2 := c1 / 64, c1 % 64;
    var c3, m3 := c2 / 64, c2 % 64;
    assert cp == c1 * 64 + m1;
    assert c1 == c2 * 64 + m2;
    assert c2 == c3 * 64 + m3;
  }

  /** The escapes of one code point decode, as one run, to its UTF-16 units. */
  lemma EscapeRunRoundTrip(cp: int, rest: JsString)
    requires IsScalarValue(cp)
    ensures var e := PercentEscapes(Utf8Encode(cp));
      |e| > 0 && e[0] == Percent &&
      DecodeEscapeRun(e + rest) == Ok((EncodeCodePoint(cp), |e|))
  {
    var octets := Utf8Encode(cp);
    var e := PercentEscapes(octets);
    var tail := PercentEscapes(octets[1..]) + rest;
    assert e + rest == PercentEscape(octets[0]) + tail;
    EscapedOctetRoundTrip(octets[0], tail);
    assert (e + rest)[3..] == tail;
    ContinuationsRoundTrip(octets[1..], rest);
    assert octets == [octets[0]] + octets[1..];
    Utf8RoundTrip(cp);
  }

  lemma DecodeUnitThenRest(u: CodeUnit, rest: JsString, decoded: JsString)
    requires u != Percent && DecodeUriComponent(rest) == Ok(decoded)
    ensures DecodeUriComponent([u] + rest) == Ok([u] + decoded)
  {
    assert ([u] + rest)[1..] == rest;
  }

  lemma DecodeRunThenRest(cp: int, rest: JsString, decoded: JsString)
    requires IsScalarValue(cp) && DecodeUriComponent(rest) == Ok(decoded)
    ensures DecodeUriComponent(PercentEscapes(Utf8Encode(cp)) + rest)
            == Ok(EncodeCodePoint(cp) + decoded)
  {
    var run := PercentEscapes(Utf8Encode(cp));
    EscapeRunRoundTrip(cp, rest);
    assert (run + rest)[|run|..] == rest;
  }

  /** `decodeURIComponent` inverts `encodeURIComponent`: the query value the
      confirmation page decodes is the string that was encoded. */
  lemma {:induction false} DecodeEncode(s: JsString)
    requires WellFormed(s)
    ensures EncodeUriComponent(s).Ok?
    ensures DecodeUriComponent(EncodeUriComponent(s).value) == Ok(s)
    decreases |s|
  {
    EncodeSucceedsIffWellFormed(s);
    if s != [] {
      WellFormedStep(s);
      var cp := CodePointAt(s);
      var rest := s[cp.units..];
      DecodeEncode(rest);
      var eRest := EncodeUriComponent(rest).value;
      if IsUriUnreserved(s[0]) {
        DecodeUnitThenRest(s[0], eRest, rest);
        assert s == [s[0]] + rest;
      } else {
        DecodeRunThenRest(cp.codePoint, eRest, rest);
        assert s == s[..cp.units] + rest;
      }
    }
  }

  /** A string of unreserved units is its own encoding. */
  lemma {:induction false} EncodeUnreserved(s: JsString)
    requires forall i :: 0 <= i < |s| ==> IsUriUnreserved(s[i])
    ensures EncodeUriComponent(s) == Ok(s)
    decreases |s|
  {
    if s != [] {
      EncodeUnreserved(s[1..]);
      assert s == [s[0]] + s[1..];
    }
  }

  lemma EncodeStep(s: JsString)
    requires |s| > 0 && WellFormed(s)
    ensures !CodePointAt(s).unpaired && WellFormed(s[CodePointAt(s).units..])
    ensures EncodeUriComponent(s).Ok? && EncodeUriComponent(s[CodePointAt(s).units..]).Ok?
    ensures EncodeUriComponent(s).value
            == EncodedHead(s) + EncodeUriComponent(s[CodePointAt(s).units..]).value
  {
    WellFormedStep(s);
    EncodeSucceedsIffWellFormed(s);
    EncodeSucceedsIffWellFormed(s[CodePointAt(s).units..]);
  }

  /** The encoding of the first code point of a well-formed string. */
  function EncodedHead(s: JsString): JsString
    requires |s| > 0 && !CodePointAt(s).unpaired
  {
    if IsUriUnreserved(s[0]) then [s[0]] else PercentEscapes(Utf8Encode(CodePointAt(s).codePoint))
  }

  /** Reading the first code point only looks at the code point itself. */
  lemma CodePointAtAppend(a: JsString, b: JsString)
    requires |a| > 0 && !CodePointAt(a).unpaired
    ensures CodePointAt(a + b) == CodePointAt(a)
  {
    var ab := a + b;
    assert ab[0] == a[0];
    if |a| > 1 { assert ab[1] == a[1]; }
    if IsLeadSurrogate(a[0]) { assert |a| > 1; }
  }

  /** Encoding works piece by piece on well-formed pieces. */
  lemma {:induction false} EncodeAppend(a: JsString, b: JsString)
    requires WellFormed(a) && WellFormed(b)
    ensures EncodeUriComponent(a).Ok? && EncodeUriComponent(b).Ok?
    ensures EncodeUriComponent(a + b)
            == Ok(EncodeUriComponent(a).value + EncodeUriComponent(b).value)
    decreases |a|
  {
    EncodeSucceedsIffWellFormed(a);
    EncodeSucceedsIffWellFormed(b);
    var eb := EncodeUriComponent(b).value;
    if a == [] {
      assert a + b == b && EncodeUriComponent(a).value == [] && [] + eb == eb;
    } else {
      var a' := a[CodePointAt(a).units..];
      var head := EncodedHead(a);
      assert EncodeUriComponent(a).value == head + EncodeUriComponent(a').value
             && WellFormed(a') by {
        EncodeStep(a);
      }
      var ea' := EncodeUriComponent(a').value;
      assert EncodeUriComponent(a' + b) == Ok(ea' + eb) by {
        EncodeAppend(a', b);
      }
      assert EncodeUriComponent(a + b) == Ok(head + (ea' + eb)) by {
        EncodeHeadAppend(a, b);
      }
      assert head + (ea' + eb) == (head + ea') + eb;
    }
  }

  lemma EncodeHeadAppend(a: JsString, b: JsString)
    requires |a| > 0 && !CodePointAt(a).unpaired
    requires EncodeUriComponent(a[CodePointAt(a).units..] + b).Ok?
    ensures EncodeUriComponent(a + b)
            == Ok(EncodedHead(a) + EncodeUriComponent(a[CodePointAt(a).units..] + b).value)
  {
    var ab := a + b;
    CodePointAtAppend(a, b);
    assert ab[0] == a[0];
    assert ab[CodePointAt(a).units..] == a[CodePointAt(a).units..] + b;
  }
}
