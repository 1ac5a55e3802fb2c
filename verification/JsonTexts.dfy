/** What a JSON text is (RFC 8259, with Python's `NaN` and `Infinity`), stated on the text alone. The decoder answers
    exactly by it. */
module JsonTexts {
  import opened JsonDecoder
  import opened Options
  import TextLines

  // ----- Strings -----

  predicate IsHexDigit(c: char) {
    || c in {'0', '1', '2', '3', '4', '5', '6', '7', '8', '9'}
    || c in {'a', 'b', 'c', 'd', 'e', 'f'}
    || c in {'A', 'B', 'C', 'D', 'E', 'F'}
  }

  /** A character, a simple escape or a Unicode escape. */
  predicate IsItem(t: string) {
    || (|t| == 1 && t[0] >= ' ' && t[0] !in {'"', '\\'})
    || (|t| == 2 && t[0] == '\\' && t[1] in {'"', '\\', '/', 'b', 'f', 'n', 'r', 't'})
    || (|t| == 6 && t[0] == '\\' && t[1] == 'u' && forall k :: 2 <= k < 6 ==> IsHexDigit(t[k]))
  }

  /** What may stand between two quotes. */
  ghost predicate IsRaw(t: string) {
    t == "" || exists n :: 0 < n <= |t| && IsItem(t[..n]) && IsRaw(t[n..])
  }

  ghost predicate IsQuoted(s: string, i: nat, e: nat, raw: string) {
    i + 2 <= e <= |s| && s[i] == '"' && s[e - 1] == '"' && raw == s[i + 1..e - 1] && IsRaw(raw)
  }

  lemma ItemIsItem(s: string, i: nat, n: nat)
    requires i + n <= |s| && n > 0
    ensures IsItem(s[i..i + n]) <==> ItemLength(s, i) == n
  {
    var t := s[i..i + n];
    assert t[0] == s[i];
    if n == 2 { assert t[1] == s[i + 1]; }
    if n == 6 { UnicodeIsItem(s, i); }
  }

  lemma UnicodeIsItem(s: string, i: nat)
    requires i + 6 <= |s|
    ensures IsItem(s[i..i + 6]) <==> ItemLength(s, i) == 6
  {
    var t := s[i..i + 6];
    assert t[1] == s[i + 1] && t[2] == s[i + 2] && t[3] == s[i + 3] && t[4] == s[i + 4] && t[5] == s[i + 5];
    forall k | 2 <= k < 6
      ensures IsHexDigit(t[k]) <==> IsHex(t[k])
    {
      HexDigits(t[k]);
    }
  }

  lemma HexDigits(c: char)
    ensures IsHexDigit(c) <==> IsHex(c)
  {
  }

  /** Raw text starts with an item, which is determined by the text. */
  lemma RawByItem(s: string, i: nat, e: nat)
    requires i < e <= |s|
    ensures IsRaw(s[i..e]) <==> ItemLength(s, i) > 0 && i + ItemLength(s, i) <= e && IsRaw(s[i + ItemLength(s, i)..e])
  {
    var t, n := s[i..e], ItemLength(s, i);
    forall m | 0 < m <= |t|
      ensures IsItem(t[..m]) <==> m == n
      ensures t[m..] == s[i + m..e]
    {
      assert t[..m] == s[i..i + m];
      ItemIsItem(s, i, m);
    }
    if 0 < n <= |t| { assert IsItem(t[..n]); }
  }

  lemma {:induction false} StringEndIsRaw(s: string, i: nat, q: nat)
    requires i < q <= |s|
    ensures StringEnd(s, i) == Some(q) <==> s[q - 1] == '"' && IsRaw(s[i..q - 1])
    decreases q - i
  {
    var n := ItemLength(s, i);
    if i < q - 1 { RawByItem(s, i, q - 1); }
    if s[i] != '"' && 0 < n && i + n < q { StringEndIsRaw(s, i + n, q); }
  }

  // ----- Scalars -----

  ghost predicate AllDigits(t: string) {
    forall k :: 0 <= k < |t| ==> t[k] in {'0', '1', '2', '3', '4', '5', '6', '7', '8', '9'}
  }

  ghost predicate IsDigits(t: string) { t != "" && AllDigits(t) }

  ghost predicate IsFraction(t: string) {
    t == "" || (t[0] == '.' && IsDigits(t[1..]))
  }

  ghost predicate IsExponentPart(t: string) {
    || t == ""
    || (t[0] in {'e', 'E'} && (IsDigits(t[1..]) || (|t| > 1 && t[1] in {'+', '-'} && IsDigits(t[2..]))))
  }

  /** An integer without leading zeros, an optional fraction and an optional exponent. */
  ghost predicate IsDecimal(t: string, whole: string, fraction: string, exponent: string) {
    && t == whole + (fraction + exponent)
    && IsDigits(whole) && (whole[0] == '0' ==> |whole| == 1)
    && IsFraction(fraction)
    && IsExponentPart(exponent)
  }

  ghost predicate IsMagnitude(t: string) {
    exists whole, fraction, exponent :: IsDecimal(t, whole, fraction, exponent)
  }

  /** A literal, or a number that may be negative. */
  ghost predicate IsToken(t: string) {
    || t in {"null", "true", "false", "NaN", "Infinity", "-Infinity"}
    || IsMagnitude(t)
    || (t != "" && t[0] == '-' && IsMagnitude(t[1..]))
  }

  lemma {:induction false} SkipDigitsSkips(digits: string, rest: string)
    requires AllDigits(digits) && (rest == "" || !IsDigit(rest[0]))
    ensures SkipDigits(digits + rest) == rest
  {
    if digits == "" {
      assert digits + rest == rest;
    } else {
      SkipDigitsSkips(digits[1..], rest);
      assert (digits + rest)[1..] == digits[1..] + rest;
      assert (digits + rest)[0] == digits[0];
    }
  }

  lemma {:induction false} SkippedDigits(t: string) returns (digits: string)
    ensures AllDigits(digits) && t == digits + SkipDigits(t)
    ensures SkipDigits(t) == "" || !IsDigit(SkipDigits(t)[0])
    ensures t != "" && IsDigit(t[0]) ==> digits != ""
  {
    digits := "";
    if t != "" && IsDigit(t[0]) {
      digits := SkippedDigits(t[1..]);
      digits := [t[0]] + digits;
    }
  }

  lemma AllDigitsSkipped(t: string)
    ensures SkipDigits(t) == "" <==> AllDigits(t)
  {
    var digits := SkippedDigits(t);
    if AllDigits(t) {
      SkipDigitsSkips(t, "");
      assert t + "" == t;
    }
    if SkipDigits(t) == "" { assert t == digits; }
  }

  lemma ExponentIsPart(t: string)
    ensures IsExponent(t) <==> IsExponentPart(t)
  {
    if |t| >= 2 {
      AllDigitsSkipped(t[1..]);
      AllDigitsSkipped(t[2..]);
      assert t[1..] != "" && t[1..][0] == t[1];
    }
  }

  /** What follows the integer part of a number. */
  ghost predicate IsRest(t: string) {
    if |t| >= 2 && t[0] == '.' && IsDigit(t[1]) then IsExponent(SkipDigits(t[1..])) else IsExponent(t)
  }

  lemma RestParts(t: string) returns (fraction: string, exponent: string)
    requires IsRest(t)
    ensures t == fraction + exponent && IsFraction(fraction) && IsExponentPart(exponent)
  {
    fraction, exponent := "", t;
    if |t| >= 2 && t[0] == '.' && IsDigit(t[1]) {
      var digits := SkippedDigits(t[1..]);
      fraction, exponent := "." + digits, SkipDigits(t[1..]);
      assert fraction[1..] == digits;
      assert t == [t[0]] + t[1..];
    }
    ExponentIsPart(exponent);
  }

  lemma RestOfParts(t: string, fraction: string, exponent: string)
    requires t == fraction + exponent && IsFraction(fraction) && IsExponentPart(exponent)
    ensures IsRest(t)
    ensures t == "" || !IsDigit(t[0])
  {
    ExponentIsPart(exponent);
    if fraction == "" {
      assert t == exponent;
    } else {
      assert t[1] == fraction[1..][0];
      SkipDigitsSkips(fraction[1..], exponent);
      assert t[1..] == fraction[1..] + exponent;
    }
  }

  /** Decided as `IsNumber` does behind the sign. */
  ghost predicate IsUnsigned(u: string) {
    u != "" && IsDigit(u[0]) && IsRest(if u[0] == '0' then u[1..] else SkipDigits(u))
  }

  lemma MagnitudeIsUnsigned(u: string)
    ensures IsUnsigned(u) <==> IsMagnitude(u)
  {
    if IsUnsigned(u) {
      if u[0] == '0' {
        var fraction, exponent := RestParts(u[1..]);
        assert u == "0" + u[1..];
        assert IsDecimal(u, "0", fraction, exponent);
      } else {
        var whole := SkippedDigits(u);
        var fraction, exponent := RestParts(SkipDigits(u));
        assert whole[0] == u[0];
        assert IsDecimal(u, whole, fraction, exponent);
      }
    }
    if IsMagnitude(u) {
      var whole, fraction, exponent :| IsDecimal(u, whole, fraction, exponent);
      RestOfParts(fraction + exponent, fraction, exponent);
      SkipDigitsSkips(whole, fraction + exponent);
      assert u[0] == whole[0];
      if u[0] == '0' { assert u[1..] == fraction + exponent; }
    }
  }

  /** The decoder takes exactly the literals and the numbers. */
  lemma ScalarIsToken(t: string)
    ensures IsScalar(t) <==> IsToken(t)
  {
    MagnitudeIsUnsigned(t);
    if t != "" { MagnitudeIsUnsigned(t[1..]); }
  }

  /** Tokens are made of scalar characters. */
  ghost predicate ScalarChars(t: string) {
    forall k :: 0 <= k < |t| ==> IsScalarChar(t[k])
  }

  lemma TokenChars(t: string)
    requires IsToken(t)
    ensures t != "" && ScalarChars(t)
  {
    if IsMagnitude(t) {
      MagnitudeChars(t);
    } else if t != "" && t[0] == '-' && IsMagnitude(t[1..]) {
      MagnitudeChars(t[1..]);
      assert t == [t[0]] + t[1..];
    }
  }

  lemma MagnitudeChars(t: string)
    requires IsMagnitude(t)
    ensures t != "" && ScalarChars(t)
  {
    var whole, fraction, exponent :| IsDecimal(t, whole, fraction, exponent);
    assert ScalarChars(fraction) by {
      if fraction != "" { assert fraction == [fraction[0]] + fraction[1..]; }
    }
    assert ScalarChars(exponent) by { ExponentChars(exponent); }
  }

  lemma ExponentChars(t: string)
    requires IsExponentPart(t)
    ensures ScalarChars(t)
  {
    if t != "" {
      if IsDigits(t[1..]) {
        assert t == [t[0]] + t[1..];
      } else {
        assert t == [t[0], t[1]] + t[2..];
      }
    }
  }

  lemma {:induction false} ScalarEndEnds(s: string, i: nat, e: nat)
    requires i <= e <= |s| && ScalarChars(s[i..e]) && (e < |s| ==> !IsScalarChar(s[e]))
    ensures ScalarEnd(s, i) == e
    decreases e - i
  {
    if i < e {
      assert s[i] == s[i..e][0];
      assert s[i + 1..e] == s[i..e][1..];
      ScalarEndEnds(s, i + 1, e);
    }
  }

  lemma {:induction false} ScalarEndDelimited(s: string, i: nat)
    requires i <= |s|
    ensures ScalarEnd(s, i) < |s| ==> !IsScalarChar(s[ScalarEnd(s, i)])
    decreases |s| - i
  {
    if i < |s| && IsScalarChar(s[i]) { ScalarEndDelimited(s, i + 1); }
  }

  // ----- Values -----

  /** White space from `i` to `j`. */
  ghost predicate Blank(s: string, i: nat, j: nat) {
    i <= j <= |s| && forall k :: i <= k < j ==> s[k] in {' ', '\t', '\n', '\r'}
  }

  /** What the text between two positions is read as. */
  type Reading<!T> = (nat, nat, T) -> bool

  /** White space around a text of `x`, between `i` and `c`. */
  ghost predicate Around<T>(s: string, reading: Reading<T>, i: nat, c: nat, x: T) {
    exists a: nat, b: nat :: Blank(s, i, a) && reading(a, b, x) && Blank(s, b, c)
  }

  /** From `i` to `e` stand texts of `xs` with commas between them. */
  ghost predicate Separated<T>(s: string, reading: Reading<T>, i: nat, e: nat, xs: seq<T>)
    decreases |xs|
  {
    if xs == [] then Blank(s, i, e)
    else if |xs| == 1 then Around(s, reading, i, e, xs[0])
    else exists c: nat :: c < |s| && s[c] == ',' && Around(s, reading, i, c, xs[0]) && Separated(s, reading, c + 1, e, xs[1..])
  }

  /** A quoted key up to `q`, a colon at `c` and a value at `w`; white space may stand around the colon. */
  ghost predicate IsMember(s: string, reading: Reading<Json>, i: nat, e: nat, x: (string, Json), q: nat, c: nat, w: nat) {
    IsQuoted(s, i, q, x.0) && Blank(s, q, c) && c < |s| && s[c] == ':' && Blank(s, c + 1, w) && reading(w, e, x.1)
  }

  ghost predicate ReadsMember(s: string, reading: Reading<Json>, i: nat, e: nat, x: (string, Json)) {
    exists q: nat, c: nat, w: nat :: IsMember(s, reading, i, e, x, q, c, w)
  }

  ghost function MemberReading(s: string, reading: Reading<Json>): Reading<(string, Json)> {
    (i: nat, e: nat, x: (string, Json)) => ReadsMember(s, reading, i, e, x)
  }

  /** Contents between an opening and a closing bracket. */
  ghost predicate ReadsContainer(s: string, reading: Reading<Json>, i: nat, e: nat, v: Json) {
    && i + 2 <= e <= |s|
    && match v
       case JObject(members) => s[i] == '{' && s[e - 1] == '}' && Separated(s, MemberReading(s, reading), i + 1, e - 1, members)
       case JArray(items) => s[i] == '[' && s[e - 1] == ']' && Separated(s, reading, i + 1, e - 1, items)
       case _ => false
  }

  /** From `i` to `e` stands a text of `v`, with containers nested at most `depth` deep. */
  ghost predicate Reads(s: string, depth: nat, i: nat, e: nat, v: Json) {
    match v
    case JString(raw) => IsQuoted(s, i, e, raw)
    case JScalar(token) => i <= e <= |s| && token == s[i..e] && IsToken(token)
    case _ => depth > 0 && ReadsContainer(s, InnerReading(s, depth - 1), i, e, v)
  }

  ghost function InnerReading(s: string, depth: nat): Reading<Json> {
    (i: nat, e: nat, v: Json) => Reads(s, depth, i, e, v)
  }

  // ----- The decoder reads just these texts -----

  lemma {:induction false} SkipWsIsBlank(s: string, i: nat)
    requires i <= |s|
    ensures Blank(s, i, SkipWs(s, i))
    ensures SkipWs(s, i) < |s| ==> !IsWs(s[SkipWs(s, i)])
    decreases |s| - i
  {
    if i < |s| && IsWs(s[i]) { SkipWsIsBlank(s, i + 1); }
  }

  lemma {:induction false} BlankIsSkipped(s: string, i: nat, j: nat)
    requires Blank(s, i, j) && (j < |s| ==> !IsWs(s[j]))
    ensures SkipWs(s, i) == j
    decreases j - i
  {
    if i < j { BlankIsSkipped(s, i + 1, j); }
  }

  /** A value may start here. */
  predicate Starts(c: char) { c == '"' || IsOpen(c) || IsScalarChar(c) }

  /** No scalar runs on at `b`. */
  predicate EndsAt(s: string, b: nat) { b < |s| && !IsScalarChar(s[b]) }

  /** Where no scalar runs on, `one` decodes what `reading` reads. */
  ghost predicate DecodesRead<T(!new)>(s: string, one: Decoder<T>, reading: Reading<T>) {
    forall a: nat, b: nat, x: T {:trigger reading(a, b, x)} :: reading(a, b, x) ==>
      a < b <= |s| && Starts(s[a]) && (EndsAt(s, b) ==> one(a) == Done(x, b))
  }

  /** Whatever `one` decodes is read by `reading`. */
  ghost predicate ReadsDecoded<T>(one: Decoder<T>, reading: Reading<T>) {
    forall a: nat {:trigger one(a)} :: one(a).Done? ==> reading(a, one(a).end, one(a).value)
  }

  ghost predicate Agree<T(!new)>(s: string, one: Decoder<T>, reading: Reading<T>) {
    DecodesRead(s, one, reading) && ReadsDecoded(one, reading)
  }

  lemma AroundDecodes<T(!new)>(s: string, one: Decoder<T>, reading: Reading<T>, i: nat, c: nat, x: T) returns (a: nat, b: nat)
    requires DecodesRead(s, one, reading) && Around(s, reading, i, c, x) && c < |s| && s[c] in {',', ']', '}'}
    ensures i <= a < b <= c && SkipWs(s, i) == a && one(a) == Done(x, b) && SkipWs(s, b) == c && Starts(s[a])
  {
    a, b :| Blank(s, i, a) && reading(a, b, x) && Blank(s, b, c);
    BlankIsSkipped(s, i, a);
    BlankIsSkipped(s, b, c);
    assert EndsAt(s, b);
  }

  lemma LastDecodes<T(!new)>(s: string, one: Decoder<T>, reading: Reading<T>, close: char, i: nat, e: nat, xs: seq<T>)
    returns (a: nat)
    requires DecodesRead(s, one, reading) && close in {']', '}'}
    requires |xs| == 1 && Around(s, reading, i, e, xs[0]) && e < |s| && s[e] == close
    ensures i <= a < e && SkipWs(s, i) == a && Starts(s[a])
    ensures Elements(s, one, close, a) == Done(xs, e + 1)
  {
    var b;
    a, b := AroundDecodes(s, one, reading, i, e, xs[0]);
    assert xs == [xs[0]];
  }

  lemma FirstDecodes<T(!new)>(s: string, one: Decoder<T>, reading: Reading<T>, i: nat, e: nat, xs: seq<T>)
    returns (a: nat, b: nat, c: nat)
    requires DecodesRead(s, one, reading) && |xs| > 1 && Separated(s, reading, i, e, xs)
    ensures i <= a < b <= c < |s| && s[c] == ',' && Separated(s, reading, c + 1, e, xs[1..])
    ensures SkipWs(s, i) == a && one(a) == Done(xs[0], b) && SkipWs(s, b) == c && Starts(s[a])
  {
    c :| c < |s| && s[c] == ',' && Around(s, reading, i, c, xs[0]) && Separated(s, reading, c + 1, e, xs[1..]);
    a, b := AroundDecodes(s, one, reading, i, c, xs[0]);
  }

  lemma {:induction false} SeparatedDecodes<T(!new)>(s: string, one: Decoder<T>, reading: Reading<T>, close: char, i: nat, e: nat, xs: seq<T>)
    returns (a: nat)
    requires DecodesRead(s, one, reading) && close in {']', '}'}
    requires xs != [] && Separated(s, reading, i, e, xs) && e < |s| && s[e] == close
    ensures i <= a < |s| && SkipWs(s, i) == a && Starts(s[a])
    ensures Elements(s, one, close, a) == Done(xs, e + 1)
    decreases |xs|, 1
  {
    if |xs| == 1 {
      a := LastDecodes(s, one, reading, close, i, e, xs);
    } else {
      var b, c;
      a, b, c := FirstDecodes(s, one, reading, i, e, xs);
      MoreDecode(s, one, reading, close, a, b, c, e, xs);
    }
  }

  lemma {:induction false} MoreDecode<T(!new)>(s: string, one: Decoder<T>, reading: Reading<T>, close: char, a: nat, b: nat, c: nat, e: nat, xs: seq<T>)
    requires DecodesRead(s, one, reading) && close in {']', '}'}
    requires |xs| > 1 && Separated(s, reading, c + 1, e, xs[1..]) && e < |s| && s[e] == close
    requires a < b <= c < |s| && s[c] == ',' && one(a) == Done(xs[0], b) && SkipWs(s, b) == c
    ensures Elements(s, one, close, a) == Done(xs, e + 1)
    decreases |xs|, 0
  {
    var n := SeparatedDecodes(s, one, reading, close, c + 1, e, xs[1..]);
    ElementsOfParts(s, one, close, a, b, c, n, xs, e + 1);
  }

  lemma {:induction false} DecodedSeparated<T(!new)>(s: string, one: Decoder<T>, reading: Reading<T>, close: char, i: nat, j: nat, e: nat, xs: seq<T>)
    requires ReadsDecoded(one, reading) && Blank(s, i, j)
    requires Elements(s, one, close, j) == Done(xs, e)
    ensures xs != [] && j < e <= |s| && s[e - 1] == close && Separated(s, reading, i, e - 1, xs)
    decreases |xs|
  {
    var m, c, n := ElementsParts(s, one, close, j, xs, e);
    SkipWsIsBlank(s, m);
    assert reading(j, m, xs[0]);
    if s[c] != close {
      assert Around(s, reading, i, c, xs[0]);
      SkipWsIsBlank(s, c + 1);
      DecodedSeparated(s, one, reading, close, c + 1, n, e, xs[1..]);
    }
  }

  lemma QuotedIsKey(s: string, i: nat, q: nat, raw: string)
    ensures IsQuoted(s, i, q, raw) <==>
              i < |s| && s[i] == '"' && StringEnd(s, i + 1) == Some(q) && i + 1 < q <= |s| && raw == s[i + 1..q - 1]
  {
    if i + 1 < q <= |s| { StringEndIsRaw(s, i + 1, q); }
  }

  lemma DecodedMember(s: string, inner: Decoder<Json>, reading: Reading<Json>, i: nat, e: nat, x: (string, Json))
    requires Agree(s, inner, reading) && Member(s, inner, i) == Done(x, e)
    ensures ReadsMember(s, reading, i, e, x)
  {
    var q, c, w := MemberParts(s, inner, i, x, e);
    QuotedIsKey(s, i, q, x.0);
    SkipWsIsBlank(s, q);
    SkipWsIsBlank(s, c + 1);
    assert IsMember(s, reading, i, e, x, q, c, w);
  }

  lemma MemberDecodes(s: string, inner: Decoder<Json>, reading: Reading<Json>, i: nat, e: nat, x: (string, Json), q: nat, c: nat, w: nat)
    requires Agree(s, inner, reading) && IsMember(s, reading, i, e, x, q, c, w)
    ensures i < e <= |s| && s[i] == '"'
    ensures EndsAt(s, e) ==> Member(s, inner, i) == Done(x, e)
  {
    assert w < e <= |s| && Starts(s[w]);
    if EndsAt(s, e) {
      assert inner(w) == Done(x.1, e);
      QuotedIsKey(s, i, q, x.0);
      BlankIsSkipped(s, q, c);
      BlankIsSkipped(s, c + 1, w);
      MemberOfParts(s, inner, i, x, e, q, c, w);
    }
  }

  lemma MemberReads(s: string, inner: Decoder<Json>, reading: Reading<Json>, i: nat, e: nat, x: (string, Json))
    requires Agree(s, inner, reading)
    ensures Member(s, inner, i) == Done(x, e) ==> ReadsMember(s, reading, i, e, x)
    ensures ReadsMember(s, reading, i, e, x) && EndsAt(s, e) ==> Member(s, inner, i) == Done(x, e)
    ensures ReadsMember(s, reading, i, e, x) ==> i < e <= |s| && Starts(s[i])
  {
    if Member(s, inner, i) == Done(x, e) { DecodedMember(s, inner, reading, i, e, x); }
    if ReadsMember(s, reading, i, e, x) {
      var q: nat, c: nat, w: nat :| IsMember(s, reading, i, e, x, q, c, w);
      MemberDecodes(s, inner, reading, i, e, x, q, c, w);
    }
  }

  lemma MembersAgree(s: string, inner: Decoder<Json>, reading: Reading<Json>)
    requires Agree(s, inner, reading)
    ensures Agree(s, MemberAt(s, inner), MemberReading(s, reading))
  {
    var one, theirs := MemberAt(s, inner), MemberReading(s, reading);
    forall a: nat, b: nat, x: (string, Json)
      ensures theirs(a, b, x) ==> a < b <= |s| && Starts(s[a])
      ensures theirs(a, b, x) && EndsAt(s, b) ==> one(a) == Done(x, b)
    {
      MemberReads(s, inner, reading, a, b, x);
    }
    forall a: nat | one(a).Done?
      ensures theirs(a, one(a).end, one(a).value)
    {
      MemberReads(s, inner, reading, a, one(a).end, one(a).value);
    }
  }

  lemma EmptyDecodes(s: string, i: nat, e: nat)
    requires i + 2 <= e <= |s| && Blank(s, i + 1, e - 1) && IsOpen(s[i]) && s[e - 1] == Closer(s[i])
    ensures SkipWs(s, i + 1) == e - 1
  {
    BlankIsSkipped(s, i + 1, e - 1);
  }

  lemma MembersDecode(s: string, inner: Decoder<Json>, reading: Reading<Json>, i: nat, e: nat, members: seq<(string, Json)>)
    returns (j: nat)
    requires Agree(s, inner, reading) && members != []
    requires Separated(s, MemberReading(s, reading), i, e, members) && e < |s| && s[e] == '}'
    ensures i <= j < |s| && SkipWs(s, i) == j && Starts(s[j])
    ensures Elements(s, MemberAt(s, inner), '}', j) == Done(members, e + 1)
  {
    MembersAgree(s, inner, reading);
    j := SeparatedDecodes(s, MemberAt(s, inner), MemberReading(s, reading), '}', i, e, members);
  }

  lemma ObjectDecodes(s: string, inner: Decoder<Json>, reading: Reading<Json>, i: nat, e: nat, members: seq<(string, Json)>)
    requires Agree(s, inner, reading) && i + 2 <= e <= |s| && s[i] == '{' && s[e - 1] == '}'
    requires Separated(s, MemberReading(s, reading), i + 1, e - 1, members)
    ensures Container(s, inner, i) == Done(JObject(members), e)
  {
    if members == [] {
      EmptyDecodes(s, i, e);
    } else {
      var j := MembersDecode(s, inner, reading, i + 1, e - 1, members);
      ContainerOfParts(s, inner, i, JObject(members), e, j);
    }
  }

  lemma ArrayDecodes(s: string, inner: Decoder<Json>, reading: Reading<Json>, i: nat, e: nat, items: seq<Json>)
    requires Agree(s, inner, reading) && i + 2 <= e <= |s| && s[i] == '[' && s[e - 1] == ']'
    requires Separated(s, reading, i + 1, e - 1, items)
    ensures Container(s, inner, i) == Done(JArray(items), e)
  {
    if items == [] {
      EmptyDecodes(s, i, e);
    } else {
      var j := SeparatedDecodes(s, inner, reading, ']', i + 1, e - 1, items);
      ContainerOfParts(s, inner, i, JArray(items), e, j);
    }
  }

  lemma ContainerDecodes(s: string, inner: Decoder<Json>, reading: Reading<Json>, i: nat, e: nat, v: Json)
    requires Agree(s, inner, reading) && ReadsContainer(s, reading, i, e, v)
    ensures Container(s, inner, i) == Done(v, e)
  {
    match v {
      case JObject(members) => ObjectDecodes(s, inner, reading, i, e, members);
      case JArray(items) => ArrayDecodes(s, inner, reading, i, e, items);
    }
  }

  lemma DecodedContainer(s: string, inner: Decoder<Json>, reading: Reading<Json>, i: nat, e: nat, v: Json)
    requires Agree(s, inner, reading) && i < |s| && IsOpen(s[i]) && Container(s, inner, i) == Done(v, e)
    ensures ReadsContainer(s, reading, i, e, v)
  {
    var j := ContainerParts(s, inner, i, v, e);
    SkipWsIsBlank(s, i + 1);
    if s[j] != Closer(s[i]) {
      if s[i] == '{' {
        MembersAgree(s, inner, reading);
        DecodedSeparated(s, MemberAt(s, inner), MemberReading(s, reading), '}', i + 1, j, e, v.members);
      } else {
        DecodedSeparated(s, inner, reading, ']', i + 1, j, e, v.items);
      }
    }
  }

  lemma ScalarDecodes(s: string, depth: nat, i: nat, e: nat, token: string)
    ensures Value(s, depth, i) == Done(JScalar(token), e) <==>
              Reads(s, depth, i, e, JScalar(token)) && (e == |s| || EndsAt(s, e))
  {
    if Reads(s, depth, i, e, JScalar(token)) && (e == |s| || EndsAt(s, e)) {
      TokenChars(token);
      ScalarEndEnds(s, i, e);
      ScalarIsToken(token);
      assert token[0] == s[i];
    }
    if Value(s, depth, i) == Done(JScalar(token), e) {
      ScalarEndDelimited(s, i);
      ScalarIsToken(token);
    }
  }

  lemma StringDecodes(s: string, depth: nat, i: nat, e: nat, raw: string)
    ensures Value(s, depth, i) == Done(JString(raw), e) <==> IsQuoted(s, i, e, raw)
  {
    QuotedIsKey(s, i, e, raw);
  }

  /** A value is decoded from `i` to `e` exactly when a text of it stands there and no scalar is cut short. */
  lemma {:induction false} DecodesExactly(s: string, depth: nat, i: nat, e: nat, v: Json)
    ensures Value(s, depth, i) == Done(v, e) <==>
              Reads(s, depth, i, e, v) && (v.JScalar? ==> e == |s| || EndsAt(s, e))
    decreases depth, 1
  {
    match v
    case JString(raw) => StringDecodes(s, depth, i, e, raw);
    case JScalar(token) => ScalarDecodes(s, depth, i, e, token);
    case _ =>
      if depth > 0 {
        InnerAgrees(s, depth - 1);
        if Reads(s, depth, i, e, v) { ContainerDecodes(s, Inner(s, depth - 1), InnerReading(s, depth - 1), i, e, v); }
        if Value(s, depth, i) == Done(v, e) { DecodedContainer(s, Inner(s, depth - 1), InnerReading(s, depth - 1), i, e, v); }
      }
  }

  lemma {:induction false} ReadsStarts(s: string, depth: nat, i: nat, e: nat, v: Json)
    requires Reads(s, depth, i, e, v)
    ensures i < e <= |s| && Starts(s[i])
  {
    if v.JScalar? {
      TokenChars(v.token);
      assert v.token[0] == s[i];
    }
  }

  lemma {:induction false} InnerAgrees(s: string, depth: nat)
    ensures Agree(s, Inner(s, depth), InnerReading(s, depth))
    decreases depth, 2
  {
    var one, theirs := Inner(s, depth), InnerReading(s, depth);
    forall a: nat, b: nat, x: Json
      ensures theirs(a, b, x) ==> a < b <= |s| && Starts(s[a])
      ensures theirs(a, b, x) && EndsAt(s, b) ==> one(a) == Done(x, b)
    {
      if theirs(a, b, x) { ReadsStarts(s, depth, a, b, x); }
      DecodesExactly(s, depth, a, b, x);
    }
    forall a: nat | one(a).Done?
      ensures theirs(a, one(a).end, one(a).value)
    {
      DecodesExactly(s, depth, a, one(a).end, one(a).value);
    }
  }

  /** Loading takes a text with white space around it, and nothing else. */
  lemma LoadsExactly(s: string, depth: nat, v: Json)
    ensures Loads(s, depth) == Some(v) <==> Around(s, InnerReading(s, depth), 0, |s|, v)
  {
    var i := SkipWs(s, 0);
    SkipWsIsBlank(s, 0);
    if Loads(s, depth) == Some(v) {
      var e := Value(s, depth, i).end;
      DecodesExactly(s, depth, i, e, v);
      SkipWsIsBlank(s, e);
      assert InnerReading(s, depth)(i, e, v);
    }
    if Around(s, InnerReading(s, depth), 0, |s|, v) {
      var a: nat, b: nat :| Blank(s, 0, a) && InnerReading(s, depth)(a, b, v) && Blank(s, b, |s|);
      ReadsStarts(s, depth, a, b, v);
      BlankIsSkipped(s, 0, a);
      BlankIsSkipped(s, b, |s|);
      DecodesExactly(s, depth, a, b, v);
    }
  }

  // ----- Nesting too deep -----

  /** From `i` stand texts of `xs` with a comma behind each, and white space up to `p`. */
  ghost predicate Before<T>(s: string, reading: Reading<T>, i: nat, p: nat, xs: seq<T>)
    decreases |xs|
  {
    if xs == [] then Blank(s, i, p)
    else exists c: nat :: c < |s| && s[c] == ',' && Around(s, reading, i, c, xs[0]) && Before(s, reading, c + 1, p, xs[1..])
  }

  /** An element that nests too deep stands behind elements that do not. */
  ghost predicate SomeDeep<T(!new)>(s: string, reading: Reading<T>, i: nat, deep: nat -> bool) {
    exists p: nat, xs: seq<T> :: Before(s, reading, i, p, xs) && deep(p)
  }

  /** A quoted key up to `q`, a colon at `c` and a value at `w` that nests too deep. */
  ghost predicate IsDeepMember(s: string, deep: nat -> bool, i: nat, raw: string, q: nat, c: nat, w: nat) {
    IsQuoted(s, i, q, raw) && Blank(s, q, c) && c < |s| && s[c] == ':' && Blank(s, c + 1, w) && deep(w)
  }

  ghost function MemberDeep(s: string, deep: nat -> bool): nat -> bool {
    (i: nat) => exists raw, q: nat, c: nat, w: nat :: IsDeepMember(s, deep, i, raw, q, c, w)
  }

  /** At `i` stands a bracket whose contents, as far as they are read, nest more than `depth` deep. */
  ghost predicate Deep(s: string, depth: nat, i: nat) {
    && i < |s| && IsOpen(s[i])
    && (depth > 0 ==>
          if s[i] == '{' then SomeDeep(s, MemberReading(s, InnerReading(s, depth - 1)), i + 1, MemberDeep(s, InnerDeep(s, depth - 1)))
          else SomeDeep(s, InnerReading(s, depth - 1), i + 1, InnerDeep(s, depth - 1)))
  }

  ghost function InnerDeep(s: string, depth: nat): nat -> bool {
    (i: nat) => Deep(s, depth, i)
  }

  /** `one` gives up at just the places where something nests too deep. */
  ghost predicate AgreeDeep<T>(s: string, one: Decoder<T>, deep: nat -> bool) {
    forall p: nat {:trigger deep(p)} {:trigger one(p)} :: (deep(p) <==> one(p).TooDeep?) && (deep(p) ==> p < |s| && Starts(s[p]))
  }

  lemma ElementsGiveUp<T>(s: string, one: Decoder<T>, close: char, a: nat, x: T, b: nat, c: nat)
    requires a < b <= c < |s| && one(a) == Done(x, b) && SkipWs(s, b) == c && s[c] == ',' != close
    requires Elements(s, one, close, SkipWs(s, c + 1)).TooDeep?
    ensures Elements(s, one, close, a).TooDeep?
  {
  }

  lemma {:induction false} DeepGivesUp<T(!new)>(s: string, one: Decoder<T>, reading: Reading<T>, deep: nat -> bool, close: char,
                                                i: nat, p: nat, xs: seq<T>)
    returns (a: nat)
    requires DecodesRead(s, one, reading) && AgreeDeep(s, one, deep) && close in {']', '}'}
    requires Before(s, reading, i, p, xs) && deep(p)
    ensures i <= a < |s| && SkipWs(s, i) == a && Starts(s[a])
    ensures Elements(s, one, close, a).TooDeep?
    decreases |xs|, 0
  {
    if xs == [] {
      BlankIsSkipped(s, i, p);
      a := p;
    } else {
      var c: nat :| c < |s| && s[c] == ',' && Around(s, reading, i, c, xs[0]) && Before(s, reading, c + 1, p, xs[1..]);
      var b;
      a, b := AroundDecodes(s, one, reading, i, c, xs[0]);
      MoreGivesUp(s, one, reading, deep, close, a, xs[0], b, c, p, xs[1..]);
    }
  }

  lemma {:induction false} MoreGivesUp<T(!new)>(s: string, one: Decoder<T>, reading: Reading<T>, deep: nat -> bool, close: char,
                                                a: nat, x: T, b: nat, c: nat, p: nat, xs: seq<T>)
    requires DecodesRead(s, one, reading) && AgreeDeep(s, one, deep) && close in {']', '}'}
    requires a < b <= c < |s| && one(a) == Done(x, b) && SkipWs(s, b) == c && s[c] == ','
    requires Before(s, reading, c + 1, p, xs) && deep(p)
    ensures Elements(s, one, close, a).TooDeep?
    decreases |xs|, 1
  {
    var n := DeepGivesUp(s, one, reading, deep, close, c + 1, p, xs);
    ElementsGiveUp(s, one, close, a, x, b, c);
  }

  lemma {:induction false} GivesUpDeep<T(!new)>(s: string, one: Decoder<T>, reading: Reading<T>, deep: nat -> bool, close: char, i: nat, j: nat)
    returns (p: nat, xs: seq<T>)
    requires ReadsDecoded(one, reading) && AgreeDeep(s, one, deep) && Blank(s, i, j)
    requires Elements(s, one, close, j).TooDeep?
    ensures Before(s, reading, i, p, xs) && deep(p)
    decreases |s| - j
  {
    p, xs := j, [];
    if one(j).Done? {
      var m := one(j).end;
      assert reading(j, m, one(j).value);
      SkipWsIsBlank(s, m);
      var c := SkipWs(s, m);
      SkipWsIsBlank(s, c + 1);
      p, xs := GivesUpDeep(s, one, reading, deep, close, c + 1, SkipWs(s, c + 1));
      xs := [one(j).value] + xs;
      assert Around(s, reading, i, c, xs[0]);
    }
  }

  lemma GivesUpAtMember(s: string, inner: Decoder<Json>, deep: nat -> bool, i: nat)
    requires AgreeDeep(s, inner, deep) && Member(s, inner, i).TooDeep?
    ensures MemberDeep(s, deep)(i)
  {
    var q := StringEnd(s, i + 1).value;
    var c := SkipWs(s, q);
    var w := SkipWs(s, c + 1);
    QuotedIsKey(s, i, q, s[i + 1..q - 1]);
    SkipWsIsBlank(s, q);
    SkipWsIsBlank(s, c + 1);
    assert deep(w);
    assert IsDeepMember(s, deep, i, s[i + 1..q - 1], q, c, w);
  }

  lemma MemberGivesUp(s: string, inner: Decoder<Json>, deep: nat -> bool, i: nat)
    requires AgreeDeep(s, inner, deep) && MemberDeep(s, deep)(i)
    ensures i < |s| && s[i] == '"' && Member(s, inner, i).TooDeep?
  {
    var raw, q: nat, c: nat, w: nat :| IsDeepMember(s, deep, i, raw, q, c, w);
    QuotedIsKey(s, i, q, raw);
    BlankIsSkipped(s, q, c);
    BlankIsSkipped(s, c + 1, w);
  }

  lemma MembersAgreeDeep(s: string, inner: Decoder<Json>, deep: nat -> bool)
    requires AgreeDeep(s, inner, deep)
    ensures AgreeDeep(s, MemberAt(s, inner), MemberDeep(s, deep))
  {
    var one, theirs := MemberAt(s, inner), MemberDeep(s, deep);
    forall p: nat
      ensures (theirs(p) <==> one(p).TooDeep?) && (theirs(p) ==> p < |s| && Starts(s[p]))
    {
      if theirs(p) { MemberGivesUp(s, inner, deep, p); }
      if one(p).TooDeep? { GivesUpAtMember(s, inner, deep, p); }
    }
  }

  lemma ContentsGiveUp<T(!new)>(s: string, one: Decoder<T>, reading: Reading<T>, deep: nat -> bool, close: char, i: nat)
    requires Agree(s, one, reading) && AgreeDeep(s, one, deep) && close in {']', '}'} && i <= |s|
    ensures var j := SkipWs(s, i);
            (j < |s| && s[j] != close && Elements(s, one, close, j).TooDeep?) <==> SomeDeep(s, reading, i, deep)
  {
    var j := SkipWs(s, i);
    SkipWsIsBlank(s, i);
    if Elements(s, one, close, j).TooDeep? { var p, xs := GivesUpDeep(s, one, reading, deep, close, i, j); }
    if SomeDeep(s, reading, i, deep) {
      var p: nat, xs: seq<T> :| Before(s, reading, i, p, xs) && deep(p);
      var a := DeepGivesUp(s, one, reading, deep, close, i, p, xs);
    }
  }

  /** Decoding gives up exactly where brackets nest more than `depth` deep behind text that decodes. */
  lemma {:induction false} TooDeepExactly(s: string, depth: nat, i: nat)
    ensures Value(s, depth, i).TooDeep? <==> Deep(s, depth, i)
    decreases depth
  {
    if i < |s| && IsOpen(s[i]) && depth > 0 {
      var one, reading, deep := Inner(s, depth - 1), InnerReading(s, depth - 1), InnerDeep(s, depth - 1);
      InnerAgrees(s, depth - 1);
      forall p: nat
        ensures (deep(p) <==> one(p).TooDeep?) && (deep(p) ==> p < |s| && Starts(s[p]))
      {
        TooDeepExactly(s, depth - 1, p);
      }
      if s[i] == '{' {
        MembersAgree(s, one, reading);
        MembersAgreeDeep(s, one, deep);
        ContentsGiveUp(s, MemberAt(s, one), MemberReading(s, reading), MemberDeep(s, deep), '}', i + 1);
      } else {
        ContentsGiveUp(s, one, reading, deep, ']', i + 1);
      }
    }
  }

  // ----- A writer -----

  /** `v` can be written, and is nested at most `depth` deep. */
  ghost predicate Writable(v: Json, depth: nat) {
    match v
    case JString(raw) => IsRaw(raw)
    case JScalar(token) => IsToken(token)
    case JArray(items) => depth > 0 && forall x :: x in items ==> Writable(x, depth - 1)
    case JObject(members) => depth > 0 && forall x :: x in members ==> IsRaw(x.0) && Writable(x.1, depth - 1)
  }

  function Between(open: char, text: string, close: char): string { [open] + text + [close] }

  /** A key, a colon, a gap and a text. */
  function Keyed(key: string, gap: string, text: string): string {
    Between('"', key, '"') + ([':'] + (gap + text))
  }

  function Commas(gap: string, texts: seq<string>): string {
    TextLines.Join([','] + gap, texts)
  }

  /** `v` as text, with `gap` behind every comma and colon. */
  function Written(v: Json, gap: string): string {
    match v
    case JString(raw) => Between('"', raw, '"')
    case JScalar(token) => token
    case JArray(items) =>
      Between('[', Commas(gap, seq(|items|, k requires 0 <= k < |items| => Written(items[k], gap))), ']')
    case JObject(members) =>
      Between('{', Commas(gap, seq(|members|, k requires 0 <= k < |members| => Keyed(members[k].0, gap, Written(members[k].1, gap)))), '}')
  }

  predicate IsGap(gap: string) { forall k :: 0 <= k < |gap| ==> gap[k] in {' ', '\t', '\n', '\r'} }

  /** The text `t` stands in `s` at `i`. */
  predicate Has(s: string, i: nat, t: string) {
    i + |t| <= |s| && s[i..i + |t|] == t
  }

  lemma HasBoth(s: string, i: nat, t: string, u: string)
    requires Has(s, i, t + u)
    ensures Has(s, i, t) && Has(s, i + |t|, u)
  {
    var m, e := i + |t|, i + |t| + |u|;
    assert s[i..m] == s[i..e][..|t|] == t;
    assert s[m..e] == s[i..e][|t|..] == u;
  }

  lemma HasGap(s: string, i: nat, gap: string)
    requires Has(s, i, gap) && IsGap(gap)
    ensures Blank(s, i, i + |gap|)
  {
    forall k | i <= k < i + |gap|
      ensures s[k] in {' ', '\t', '\n', '\r'}
    {
      assert s[k] == gap[k - i];
    }
  }

  lemma HasChar(s: string, i: nat, c: char)
    requires Has(s, i, [c])
    ensures s[i] == c
  {
    assert s[i..i + 1][0] == c;
  }

  /** Wherever the text of an element stands, it is read as that element. */
  ghost predicate TextsRead<T(!new)>(s: string, reading: Reading<T>, xs: seq<T>, texts: seq<string>) {
    && |xs| == |texts|
    && forall k: nat, a: nat {:trigger reading(a, a + |texts[k]|, xs[k])} {:trigger Has(s, a, texts[k])} ::
         k < |xs| && Has(s, a, texts[k]) ==> reading(a, a + |texts[k]|, xs[k])
  }

  lemma RestRead<T(!new)>(s: string, reading: Reading<T>, xs: seq<T>, texts: seq<string>)
    requires TextsRead(s, reading, xs, texts) && xs != []
    ensures TextsRead(s, reading, xs[1..], texts[1..])
  {
    forall k: nat, a: nat | k < |xs[1..]| && Has(s, a, texts[1..][k])
      ensures reading(a, a + |texts[1..][k]|, xs[1..][k])
    {
      assert texts[1..][k] == texts[k + 1] && xs[1..][k] == xs[k + 1];
    }
  }

  lemma HasBetween(s: string, i: nat, open: char, text: string, close: char)
    requires Has(s, i, Between(open, text, close))
    ensures s[i] == open && Has(s, i + 1, text) && s[i + 1 + |text|] == close
  {
    assert [open] + text + [close] == [open] + (text + [close]);
    HasBoth(s, i, [open], text + [close]);
    HasBoth(s, i + 1, text, [close]);
    HasChar(s, i, open);
    HasChar(s, i + 1 + |text|, close);
  }

  /** A comma and a gap after a first text, and the rest. */
  lemma HasCommas(s: string, a: nat, gap: string, texts: seq<string>) returns (c: nat, n: nat)
    requires |texts| > 1 && IsGap(gap) && Has(s, a, Commas(gap, texts))
    ensures Has(s, a, texts[0]) && c == a + |texts[0]| && s[c] == ',' && Blank(s, c + 1, n)
    ensures Has(s, n, Commas(gap, texts[1..])) && n + |Commas(gap, texts[1..])| == a + |Commas(gap, texts)|
  {
    var sep, rest := [','] + gap, Commas(gap, texts[1..]);
    c, n := a + |texts[0]|, a + |texts[0]| + |sep|;
    assert Commas(gap, texts) == texts[0] + (sep + rest);
    HasBoth(s, a, texts[0], sep + rest);
    HasBoth(s, c, sep, rest);
    HasBoth(s, c, [','], gap);
    HasChar(s, c, ',');
    HasGap(s, c + 1, gap);
  }

  /** Texts joined by commas stand separated; white space may stand before the first. */
  lemma {:induction false} CommasSeparate<T(!new)>(s: string, reading: Reading<T>, i: nat, a: nat, xs: seq<T>, texts: seq<string>, gap: string)
    requires TextsRead(s, reading, xs, texts) && IsGap(gap)
    requires Blank(s, i, a) && Has(s, a, Commas(gap, texts))
    ensures Separated(s, reading, i, a + |Commas(gap, texts)|, xs)
    decreases |xs|
  {
    if |xs| == 1 {
      assert reading(a, a + |texts[0]|, xs[0]);
    } else if |xs| > 1 {
      var c, n := HasCommas(s, a, gap, texts);
      assert reading(a, c, xs[0]);
      assert Around(s, reading, i, c, xs[0]);
      RestRead(s, reading, xs, texts);
      CommasSeparate(s, reading, c + 1, n, xs[1..], texts[1..], gap);
    }
  }

  lemma ContentsRead<T(!new)>(s: string, reading: Reading<T>, i: nat, xs: seq<T>, open: char, texts: seq<string>, gap: string, close: char)
    requires TextsRead(s, reading, xs, texts) && IsGap(gap) && Has(s, i, Between(open, Commas(gap, texts), close))
    ensures var e := i + |Between(open, Commas(gap, texts), close)|;
            s[i] == open && s[e - 1] == close && Separated(s, reading, i + 1, e - 1, xs)
  {
    HasBetween(s, i, open, Commas(gap, texts), close);
    CommasSeparate(s, reading, i + 1, i + 1, xs, texts, gap);
  }

  lemma KeyedReads(s: string, reading: Reading<Json>, i: nat, x: (string, Json), gap: string, text: string)
    requires IsRaw(x.0) && IsGap(gap) && Has(s, i, Keyed(x.0, gap, text))
    requires forall a: nat :: Has(s, a, text) ==> reading(a, a + |text|, x.1)
    ensures ReadsMember(s, reading, i, i + |Keyed(x.0, gap, text)|, x)
  {
    var key := Between('"', x.0, '"');
    var q := i + |key|;
    HasBoth(s, i, key, [':'] + (gap + text));
    HasBetween(s, i, '"', x.0, '"');
    HasBoth(s, q, [':'], gap + text);
    HasChar(s, q, ':');
    HasBoth(s, q + 1, gap, text);
    HasGap(s, q + 1, gap);
    var w := q + 1 + |gap|;
    assert IsMember(s, reading, i, w + |text|, x, q, q, w);
  }

  /** What is written is read back, wherever it stands. */
  lemma {:induction false} WrittenReads(s: string, i: nat, v: Json, gap: string, depth: nat)
    requires Writable(v, depth) && IsGap(gap) && Has(s, i, Written(v, gap))
    ensures Reads(s, depth, i, i + |Written(v, gap)|, v)
    decreases depth, 1
  {
    match v
    case JString(raw) => HasBetween(s, i, '"', raw, '"');
    case JScalar(token) =>
    case JArray(items) => ArrayRead(s, i, items, gap, depth - 1);
    case JObject(members) => ObjectRead(s, i, members, gap, depth - 1);
  }

  lemma {:induction false} ArrayRead(s: string, i: nat, items: seq<Json>, gap: string, depth: nat)
    requires Writable(JArray(items), depth + 1) && IsGap(gap) && Has(s, i, Written(JArray(items), gap))
    ensures Reads(s, depth + 1, i, i + |Written(JArray(items), gap)|, JArray(items))
    decreases depth, 4
  {
    var texts := seq(|items|, k requires 0 <= k < |items| => Written(items[k], gap));
    ItemsRead(s, items, texts, gap, depth);
    ContentsRead(s, InnerReading(s, depth), i, items, '[', texts, gap, ']');
  }

  lemma {:induction false} ObjectRead(s: string, i: nat, members: seq<(string, Json)>, gap: string, depth: nat)
    requires Writable(JObject(members), depth + 1) && IsGap(gap) && Has(s, i, Written(JObject(members), gap))
    ensures Reads(s, depth + 1, i, i + |Written(JObject(members), gap)|, JObject(members))
    decreases depth, 4
  {
    var texts := seq(|members|, k requires 0 <= k < |members| => Keyed(members[k].0, gap, Written(members[k].1, gap)));
    MembersRead(s, members, texts, gap, depth);
    ContentsRead(s, MemberReading(s, InnerReading(s, depth)), i, members, '{', texts, gap, '}');
  }

  lemma {:induction false} ItemsRead(s: string, items: seq<Json>, texts: seq<string>, gap: string, depth: nat)
    requires IsGap(gap) && forall x :: x in items ==> Writable(x, depth)
    requires |texts| == |items| && forall k :: 0 <= k < |items| ==> texts[k] == Written(items[k], gap)
    ensures TextsRead(s, InnerReading(s, depth), items, texts)
    decreases depth, 2
  {
    var reading := InnerReading(s, depth);
    forall k: nat, a: nat | k < |items| && Has(s, a, texts[k])
      ensures reading(a, a + |texts[k]|, items[k])
    {
      WrittenReads(s, a, items[k], gap, depth);
    }
  }

  lemma {:induction false} MembersRead(s: string, members: seq<(string, Json)>, texts: seq<string>, gap: string, depth: nat)
    requires IsGap(gap) && forall x :: x in members ==> IsRaw(x.0) && Writable(x.1, depth)
    requires |texts| == |members| && forall k :: 0 <= k < |members| ==> texts[k] == Keyed(members[k].0, gap, Written(members[k].1, gap))
    ensures TextsRead(s, MemberReading(s, InnerReading(s, depth)), members, texts)
    decreases depth, 3
  {
    var inner := InnerReading(s, depth);
    var reading := MemberReading(s, inner);
    forall k: nat, a: nat | k < |members| && Has(s, a, texts[k])
      ensures reading(a, a + |texts[k]|, members[k])
    {
      MemberRead(s, a, members[k], gap, depth);
    }
  }

  lemma {:induction false} MemberRead(s: string, a: nat, x: (string, Json), gap: string, depth: nat)
    requires IsGap(gap) && IsRaw(x.0) && Writable(x.1, depth)
    requires Has(s, a, Keyed(x.0, gap, Written(x.1, gap)))
    ensures ReadsMember(s, InnerReading(s, depth), a, a + |Keyed(x.0, gap, Written(x.1, gap))|, x)
    decreases depth, 2
  {
    var inner, text := InnerReading(s, depth), Written(x.1, gap);
    forall b: nat | Has(s, b, text)
      ensures inner(b, b + |text|, x.1)
    {
      WrittenReads(s, b, x.1, gap, depth);
    }
    KeyedReads(s, inner, a, x, gap, text);
  }

  /** What is written is decoded back, whatever stands behind it; a scalar must not run on. */
  lemma WrittenDecodes(s: string, v: Json, gap: string, depth: nat, i: nat)
    requires Writable(v, depth) && IsGap(gap) && Has(s, i, Written(v, gap))
    requires v.JScalar? && i + |Written(v, gap)| < |s| ==> !IsScalarChar(s[i + |Written(v, gap)|])
    ensures Value(s, depth, i) == Done(v, i + |Written(v, gap)|)
  {
    WrittenReads(s, i, v, gap, depth);
    DecodesExactly(s, depth, i, i + |Written(v, gap)|, v);
  }
}
