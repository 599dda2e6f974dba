/** JavaScript strings as the pages see them: sequences of UTF-16 code units,
    with the few built-in string operations the pages use
    (`length`, `split`, `join`, `toUpperCase`). */
module JsStrings {

  import opened Wrappers

  /** One UTF-16 code unit, the element of a JavaScript string. */
  type CodeUnit = u: int | 0 <= u < 0x1_0000

  /** A JavaScript string value; its `length` is the number of code units. */
  type JsString = seq<CodeUnit>

  const Space: CodeUnit := ' ' as int

  predicate IsLeadSurrogate(u: int) { 0xD800 <= u <= 0xDBFF }

  predicate IsTrailSurrogate(u: int) { 0xDC00 <= u <= 0xDFFF }

  predicate IsSurrogate(u: int) { 0xD800 <= u <= 0xDFFF }

  /** A Unicode scalar value: a code point that is not a surrogate. */
  predicate IsScalarValue(cp: int) { 0 <= cp <= 0x10_FFFF && !IsSurrogate(cp) }

  /** The code point a lead and a trail surrogate stand for together. */
  function SurrogatePairToCodePoint(lead: int, trail: int): (cp: int)
    requires IsLeadSurrogate(lead) && IsTrailSurrogate(trail)
    ensures 0x1_0000 <= cp <= 0x10_FFFF
  {
    (lead - 0xD800) * 0x400 + (trail - 0xDC00) + 0x1_0000
  }

  /** The UTF-16 code units of one scalar value: itself below 0x10000,
      a lead/trail surrogate pair above. */
  function EncodeCodePoint(cp: int): (r: JsString)
    requires IsScalarValue(cp)
    ensures |r| == (if cp < 0x1_0000 then 1 else 2)
    ensures |r| == 1 ==> r[0] == cp && !IsSurrogate(r[0])
    ensures |r| == 2 ==> IsLeadSurrogate(r[0]) && IsTrailSurrogate(r[1])
                         && SurrogatePairToCodePoint(r[0], r[1]) == cp
  {
    if cp < 0x1_0000 then [cp]
    else [0xD800 + (cp - 0x1_0000) / 0x400, 0xDC00 + (cp - 0x1_0000) % 0x400]
  }

  /** A surrogate pair decodes to a code point that encodes back to the pair. */
  lemma PairRoundTrip(lead: int, trail: int)
    requires IsLeadSurrogate(lead) && IsTrailSurrogate(trail)
    ensures IsScalarValue(SurrogatePairToCodePoint(lead, trail))
    ensures EncodeCodePoint(SurrogatePairToCodePoint(lead, trail)) == [lead, trail]
  {
    var x := SurrogatePairToCodePoint(lead, trail) - 0x1_0000;
    DivModUnique(x, lead - 0xD800, trail - 0xDC00);
  }

  /** Division by 0x400 recovers the quotient and remainder of a decomposition. */
  lemma DivModUnique(x: int, q: int, r: int)
    requires 0 <= r < 0x400 && x == q * 0x400 + r
    ensures x / 0x400 == q && x % 0x400 == r
  {
  }

  /** The unit at `i` is not half of a broken pair: a lead surrogate has a
      trail surrogate after it and a trail surrogate has a lead before it. */
  predicate PairedAt(s: JsString, i: int)
    requires 0 <= i < |s|
  {
    (IsLeadSurrogate(s[i]) ==> i + 1 < |s| && IsTrailSurrogate(s[i + 1])) &&
    (IsTrailSurrogate(s[i]) ==> 0 < i && IsLeadSurrogate(s[i - 1]))
  }

  /** No surrogate stands alone (a well-formed UTF-16 string). */
  predicate WellFormed(s: JsString) {
    forall i :: 0 <= i < |s| ==> PairedAt(s, i)
  }

  /** The code unit of a character of a page's literal. Every literal of the
      pages is ASCII; a character beyond U+FFFF, which would take two units,
      never occurs and is mapped to U+FFFD here. */
  function CharUnit(c: char): (u: CodeUnit)
    ensures (c as int) < 0x1_0000 ==> u == c as int
    ensures !IsSurrogate(u)
  {
    if (c as int) < 0x1_0000 then c as int else 0xFFFD
  }

  /** A string literal of the pages as the UTF-16 string JavaScript holds:
      one code unit per character. */
  function Lit(s: string): (r: JsString)
    ensures |r| == |s| && forall i :: 0 <= i < |s| ==> r[i] == CharUnit(s[i])
  {
    seq(|s|, i requires 0 <= i < |s| => CharUnit(s[i]))
  }

  /** Literals never hold a surrogate, so they are well formed. */
  lemma LitWellFormed(s: string)
    ensures WellFormed(Lit(s))
  {
    var r := Lit(s);
    forall i | 0 <= i < |r| ensures PairedAt(r, i) {
      assert !IsSurrogate(r[i]);
    }
  }

  /** `toUpperCase` on one code unit, restricted to the ASCII letters. */
  function UpperUnit(u: CodeUnit): (r: CodeUnit)
    ensures 'a' as int <= u <= 'z' as int ==> r == u - 32
    ensures !('a' as int <= u <= 'z' as int) ==> r == u
  {
    if 'a' as int <= u <= 'z' as int then u - 32 else u
  }

  /** `toUpperCase`, restricted to the ASCII letters: maps unit by unit. */
  function ToUpperCase(s: JsString): (r: JsString)
    ensures |r| == |s|
    ensures forall i :: 0 <= i < |s| ==> r[i] == UpperUnit(s[i])
  {
    seq(|s|, i requires 0 <= i < |s| => UpperUnit(s[i]))
  }

  /** Upper-casing a concatenation upper-cases each half: upper-casing the
      joined initials is joining the upper-cased initials. */
  lemma UpperCaseAppend(a: JsString, b: JsString)
    ensures ToUpperCase(a + b) == ToUpperCase(a) + ToUpperCase(b)
  {
    var l, r := ToUpperCase(a + b), ToUpperCase(a) + ToUpperCase(b);
    forall i | 0 <= i < |l| ensures l[i] == r[i] {
      if i < |a| { assert (a + b)[i] == a[i]; } else { assert (a + b)[i] == b[i - |a|]; }
    }
  }

  /** Upper-casing twice is upper-casing once. */
  lemma UpperCaseIdempotent(s: JsString)
    ensures ToUpperCase(ToUpperCase(s)) == ToUpperCase(s)
  {
  }

  /** No ASCII lower-case letter is left, and no other unit changes. */
  lemma UpperCaseLeavesNoLower(s: JsString)
    ensures forall i :: 0 <= i < |s| ==> !('a' as int <= ToUpperCase(s)[i] <= 'z' as int)
    ensures forall i :: 0 <= i < |s| && !('a' as int <= s[i] <= 'z' as int) ==>
      ToUpperCase(s)[i] == s[i]
  {
  }

  /** Number of occurrences of `u` in `s`. */
  function Count(s: JsString, u: CodeUnit): nat {
    if s == [] then 0 else (if s[0] == u then 1 else 0) + Count(s[1..], u)
  }

  /** `s.split(sep)` for a one-unit separator and no limit: the maximal runs
      between separators, empty runs included, so `"".split(" ")` is `[""]`. */
  function Split(s: JsString, sep: CodeUnit): (parts: seq<JsString>)
    ensures |parts| == Count(s, sep) + 1
    ensures forall k :: 0 <= k < |parts| ==> sep !in parts[k]
    decreases |s|
  {
    if s == [] then [[]]
    else if s[0] == sep then [[]] + Split(s[1..], sep)
    else
      var rest := Split(s[1..], sep);
      [[s[0]] + rest[0]] + rest[1..]
  }

  /** `parts.join(sep)` for a one-unit separator. */
  function Join(parts: seq<JsString>, sep: CodeUnit): JsString
    requires |parts| > 0
  {
    if |parts| == 1 then parts[0] else parts[0] + [sep] + Join(parts[1..], sep)
  }

  /** `parts.join("")`, where an `undefined` element contributes nothing. */
  function Concat(parts: seq<Option<CodeUnit>>): (r: JsString)
    ensures |r| <= |parts|
  {
    if parts == [] then []
    else (if parts[0].Some? then [parts[0].value] else []) + Concat(parts[1..])
  }

  /** Joining the parts of a split gives back the string. */
  lemma {:induction false} JoinSplit(s: JsString, sep: CodeUnit)
    ensures Join(Split(s, sep), sep) == s
    decreases |s|
  {
    if s != [] {
      JoinSplit(s[1..], sep);
      if s[0] != sep {
        var rest := Split(s[1..], sep);
        if |rest| > 1 {
          assert Join(rest, sep) == rest[0] + [sep] + Join(rest[1..], sep);
          assert ([[s[0]] + rest[0]] + rest[1..])[1..] == rest[1..];
        }
      } else {
        assert ([[]] + Split(s[1..], sep))[1..] == Split(s[1..], sep);
      }
    }
  }

  /** Splitting a join of separator-free parts gives back the parts. */
  lemma {:induction false} SplitJoin(parts: seq<JsString>, sep: CodeUnit)
    requires |parts| > 0
    requires forall k :: 0 <= k < |parts| ==> sep !in parts[k]
    ensures Split(Join(parts, sep), sep) == parts
    decreases |parts|, |parts[0]|
  {
    if |parts| == 1 {
      SplitFree(parts[0], sep);
    } else if parts[0] == [] {
      var tail := Join(parts[1..], sep);
      assert Join(parts, sep) == [sep] + tail;
      assert ([sep] + tail)[1..] == tail;
      SplitJoin(parts[1..], sep);
      assert parts == [[]] + parts[1..];
    } else {
      var j := Join(parts, sep);
      var parts' := [parts[0][1..]] + parts[1..];
      assert j == [parts[0][0]] + Join(parts', sep) by {
        assert Join(parts', sep) == parts[0][1..] + [sep] + Join(parts[1..], sep);
        assert parts[0] == [parts[0][0]] + parts[0][1..];
      }
      assert j[1..] == Join(parts', sep);
      assert parts[0][0] in parts[0];
      SplitJoin(parts', sep);
      assert parts == [[parts[0][0]] + parts'[0]] + parts'[1..];
    }
  }

  lemma {:induction false} SplitFree(s: JsString, sep: CodeUnit)
    requires sep !in s
    ensures Split(s, sep) == [s]
    decreases |s|
  {
    if s != [] {
      assert s[0] in s;
      SplitFree(s[1..], sep);
      assert s == [s[0]] + s[1..];
    }
  }
}
