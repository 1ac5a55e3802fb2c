/** A JSON decoder in the manner of Python's: objects, arrays and strings (sections 4, 5 and 7 of
    RFC 8259), with scalars as checked tokens. */
module JsonDecoder {
  import opened Options

  /** Members are kept in order, repeated keys included; strings are kept as written. */
  datatype Json =
    | JObject(members: seq<(string, Json)>)
    | JArray(items: seq<Json>)
    | JString(raw: string)
    | JScalar(token: string)

  /** `TooDeep` is Python's RecursionError, `Fail` its decode error. */
  datatype Parsed<T> = Fail | TooDeep | Done(value: T, end: nat)

  predicate IsWs(c: char) { c == ' ' || c == '\t' || c == '\n' || c == '\r' }

  function SkipWs(s: string, i: nat): (j: nat)
    requires i <= |s|
    ensures i <= j <= |s|
    decreases |s| - i
  {
    if i < |s| && IsWs(s[i]) then SkipWs(s, i + 1) else i
  }

  // ----- Strings -----

  predicate IsHex(c: char) { '0' <= c <= '9' || 'a' <= c <= 'f' || 'A' <= c <= 'F' }

  predicate IsSimpleEscape(c: char) {
    c == '"' || c == '\\' || c == '/' || c == 'b' || c == 'f' || c == 'n' || c == 'r' || c == 't'
  }

  /** The length of the string item at `i`: a character, or an escape; 0 if there is none. */
  function ItemLength(s: string, i: nat): nat
    requires i < |s|
  {
    if s[i] == '"' || s[i] < ' ' then 0
    else if s[i] != '\\' then 1
    else if i + 1 < |s| && IsSimpleEscape(s[i + 1]) then 2
    else if i + 5 < |s| && s[i + 1] == 'u' && IsHex(s[i + 2]) && IsHex(s[i + 3]) && IsHex(s[i + 4]) && IsHex(s[i + 5]) then 6
    else 0
  }

  /** Where the string whose opening quote is just before `i` ends: just after its closing quote. */
  function StringEnd(s: string, i: nat): (e: Option<nat>)
    requires i <= |s|
    ensures e.Some? ==> i < e.value <= |s|
    decreases |s| - i
  {
    if i == |s| then None
    else if s[i] == '"' then Some(i + 1)
    else if ItemLength(s, i) == 0 then None
    else StringEnd(s, i + ItemLength(s, i))
  }

  // ----- Scalars -----

  predicate IsDigit(c: char) { '0' <= c <= '9' }

  predicate IsScalarChar(c: char) {
    IsDigit(c) || 'a' <= c <= 'z' || 'A' <= c <= 'Z' || c == '+' || c == '-' || c == '.'
  }

  function ScalarEnd(s: string, i: nat): (j: nat)
    requires i <= |s|
    ensures i <= j <= |s|
    decreases |s| - i
  {
    if i < |s| && IsScalarChar(s[i]) then ScalarEnd(s, i + 1) else i
  }

  function SkipDigits(t: string): string {
    if t != "" && IsDigit(t[0]) then SkipDigits(t[1..]) else t
  }

  predicate IsExponent(t: string) {
    t == "" || (|t| >= 2 && (t[0] == 'e' || t[0] == 'E') &&
                var u := if t[1] == '+' || t[1] == '-' then t[2..] else t[1..];
                u != "" && SkipDigits(u) == "")
  }

  predicate IsNumber(t: string) {
    var u := if t != "" && t[0] == '-' then t[1..] else t;
    u != "" && IsDigit(u[0]) &&
    var afterInt := if u[0] == '0' then u[1..] else SkipDigits(u);
    if |afterInt| >= 2 && afterInt[0] == '.' && IsDigit(afterInt[1]) then IsExponent(SkipDigits(afterInt[1..]))
    else IsExponent(afterInt)
  }

  /** A scalar is taken as the longest run of its characters. Inside a container this decides like
      Python's scanner, since there a scalar must be followed by white space, a comma or a bracket. */
  predicate IsScalar(t: string) {
    t == "null" || t == "true" || t == "false" || t == "NaN" || t == "Infinity" || t == "-Infinity" || IsNumber(t)
  }

  // ----- Values -----

  predicate IsOpen(c: char) { c == '{' || c == '[' }

  predicate IsContainer(v: Json) { v.JObject? || v.JArray? }

  /** What stands at a position. */
  type Decoder<T> = nat -> Parsed<T>

  /** The value at `i`, with containers nested at most `depth` deep: `raw_decode`. */
  function Value(s: string, depth: nat, i: nat): Parsed<Json> {
    if i >= |s| then Fail
    else if s[i] == '"' then
      var e := StringEnd(s, i + 1);
      if e.None? then Fail else Done(JString(s[i + 1..e.value - 1]), e.value)
    else if IsOpen(s[i]) then
      if depth == 0 then TooDeep else Container(s, Inner(s, depth - 1), i)
    else
      var e := ScalarEnd(s, i);
      if IsScalar(s[i..e]) then Done(JScalar(s[i..e]), e) else Fail
  }

  function Inner(s: string, depth: nat): Decoder<Json> {
    (k: nat) => Value(s, depth, k)
  }

  function Container(s: string, inner: Decoder<Json>, i: nat): Parsed<Json>
    requires i < |s| && IsOpen(s[i])
  {
    var j := SkipWs(s, i + 1);
    if j < |s| && s[j] == Closer(s[i]) then Done(if s[i] == '{' then JObject([]) else JArray([]), j + 1)
    else if s[i] == '{' then AsObject(Elements(s, MemberAt(s, inner), '}', j))
    else AsArray(Elements(s, inner, ']', j))
  }

  function Closer(open: char): char { if open == '{' then '}' else ']' }

  function AsObject(r: Parsed<seq<(string, Json)>>): Parsed<Json> {
    match r
    case Fail => Fail
    case TooDeep => TooDeep
    case Done(ms, e) => Done(JObject(ms), e)
  }

  function AsArray(r: Parsed<seq<Json>>): Parsed<Json> {
    match r
    case Fail => Fail
    case TooDeep => TooDeep
    case Done(vs, e) => Done(JArray(vs), e)
  }

  function MemberAt(s: string, inner: Decoder<Json>): Decoder<(string, Json)> {
    (k: nat) => Member(s, inner, k)
  }

  /** A key, a colon and a value, up to the end of the value. */
  function Member(s: string, inner: Decoder<Json>, i: nat): Parsed<(string, Json)> {
    if i >= |s| || s[i] != '"' then Fail
    else
      var k := StringEnd(s, i + 1);
      if k.None? then Fail
      else
        var c := SkipWs(s, k.value);
        if c == |s| || s[c] != ':' then Fail
        else
          match inner(SkipWs(s, c + 1))
          case Fail => Fail
          case TooDeep => TooDeep
          case Done(v, e) => Done((s[i + 1..k.value - 1], v), e)
  }

  /** A decode at `i` that makes progress and stays inside the text, as every decode does. */
  predicate Sane<T>(s: string, i: nat, r: Parsed<T>) {
    r.Done? ==> i < r.end <= |s|
  }

  /** The elements of a container from `i` on, up to just after the closing bracket. */
  function Elements<T>(s: string, one: Decoder<T>, close: char, i: nat): Parsed<seq<T>>
    requires i <= |s|
    decreases |s| - i
  {
    var v := one(i);
    if v.TooDeep? then TooDeep
    else if v.Fail? || !Sane(s, i, v) then Fail
    else
      var j := SkipWs(s, v.end);
      if j < |s| && s[j] == close then Done([v.value], j + 1)
      else if j < |s| && s[j] == ',' then Prepend(v.value, Elements(s, one, close, SkipWs(s, j + 1)))
      else Fail
  }

  function Prepend<T>(x: T, r: Parsed<seq<T>>): Parsed<seq<T>> {
    match r
    case Fail => Fail
    case TooDeep => TooDeep
    case Done(xs, e) => Done([x] + xs, e)
  }

  /** `json.loads`: one value, white space around it, and nothing else. */
  function Loads(s: string, depth: nat): Option<Json> {
    var r := Value(s, depth, SkipWs(s, 0));
    if r.Done? && r.end <= |s| && SkipWs(s, r.end) == |s| then Some(r.value) else None
  }

  // ----- Every decode makes progress -----

  lemma {:induction false} ElementsSane<T>(s: string, one: Decoder<T>, close: char, i: nat)
    requires i <= |s|
    ensures Sane(s, i, Elements(s, one, close, i))
    ensures Elements(s, one, close, i).Done? ==> s[Elements(s, one, close, i).end - 1] == close
    decreases |s| - i
  {
    var v := one(i);
    if v.Done? && Sane(s, i, v) {
      var j := SkipWs(s, v.end);
      if j < |s| && s[j] == ',' { ElementsSane(s, one, close, SkipWs(s, j + 1)); }
    }
  }

  /** A decoded container ends with its closing bracket. */
  lemma ContainerSane(s: string, inner: Decoder<Json>, i: nat)
    requires i < |s| && IsOpen(s[i])
    ensures Sane(s, i, Container(s, inner, i))
    ensures Container(s, inner, i).Done? ==>
              && IsContainer(Container(s, inner, i).value)
              && s[Container(s, inner, i).end - 1] == Closer(s[i])
  {
    var j := SkipWs(s, i + 1);
    if s[i] == '{' { ElementsSane(s, MemberAt(s, inner), '}', j); } else { ElementsSane(s, inner, ']', j); }
  }

  lemma ValueSane(s: string, depth: nat, i: nat)
    ensures Sane(s, i, Value(s, depth, i))
  {
    if i < |s| && IsOpen(s[i]) && depth > 0 { ContainerSane(s, Inner(s, depth - 1), i); }
  }

  ghost predicate AllSane(s: string, inner: Decoder<Json>) {
    forall k: nat {:trigger inner(k)} :: Sane(s, k, inner(k))
  }

  // ----- What a decode is made of -----

  /** Decoded elements are a first one and, after a comma, the rest. */
  lemma ElementsParts<T>(s: string, one: Decoder<T>, close: char, i: nat, xs: seq<T>, e: nat) returns (m: nat, j: nat, n: nat)
    requires i <= |s| && Elements(s, one, close, i) == Done(xs, e)
    ensures xs != [] && one(i) == Done(xs[0], m) && i < m <= j < e <= |s| && j == SkipWs(s, m)
    ensures s[j] == close ==> |xs| == 1 && e == j + 1
    ensures s[j] != close ==>
              && s[j] == ',' && j < n < e && n == SkipWs(s, j + 1)
              && Elements(s, one, close, n) == Done(xs[1..], e)
  {
    m := one(i).end;
    j := SkipWs(s, m);
    n := j;
    if s[j] != close {
      n := SkipWs(s, j + 1);
      ElementsSane(s, one, close, n);
      assert ([one(i).value] + Elements(s, one, close, n).value)[1..] == Elements(s, one, close, n).value;
    }
  }

  lemma ElementsOfParts<T>(s: string, one: Decoder<T>, close: char, i: nat, m: nat, j: nat, n: nat, xs: seq<T>, e: nat)
    requires xs != [] && i < m <= j < |s| && one(i) == Done(xs[0], m)
    requires j == SkipWs(s, m) && s[j] == ',' != close
    requires n == SkipWs(s, j + 1) && Elements(s, one, close, n) == Done(xs[1..], e)
    ensures Elements(s, one, close, i) == Done(xs, e)
  {
    assert [xs[0]] + xs[1..] == xs;
  }

  /** A decoded member is a key up to `q`, a colon at `c` and a value at `w`. */
  lemma MemberParts(s: string, inner: Decoder<Json>, i: nat, x: (string, Json), e: nat) returns (q: nat, c: nat, w: nat)
    requires Member(s, inner, i) == Done(x, e)
    ensures i < |s| && s[i] == '"' && StringEnd(s, i + 1) == Some(q) && i + 1 < q <= |s| && x.0 == s[i + 1..q - 1]
    ensures c == SkipWs(s, q) < |s| && s[c] == ':'
    ensures w == SkipWs(s, c + 1) && inner(w) == Done(x.1, e)
  {
    q := StringEnd(s, i + 1).value;
    c := SkipWs(s, q);
    w := SkipWs(s, c + 1);
  }

  lemma MemberOfParts(s: string, inner: Decoder<Json>, i: nat, x: (string, Json), e: nat, q: nat, c: nat, w: nat)
    requires i < |s| && s[i] == '"' && StringEnd(s, i + 1) == Some(q) && x.0 == s[i + 1..q - 1]
    requires c == SkipWs(s, q) < |s| && s[c] == ':'
    requires w == SkipWs(s, c + 1) && inner(w) == Done(x.1, e)
    ensures Member(s, inner, i) == Done(x, e)
  {
  }

  /** The elements of the container `v` stand from `j` to `e`. */
  ghost predicate HasElements(s: string, inner: Decoder<Json>, open: char, j: nat, v: Json, e: nat)
    requires j <= |s|
  {
    if open == '{' then v.JObject? && Elements(s, MemberAt(s, inner), '}', j) == Done(v.members, e)
    else v.JArray? && Elements(s, inner, ']', j) == Done(v.items, e)
  }

  /** A decoded container is empty or has elements, from `j` on. */
  lemma ContainerParts(s: string, inner: Decoder<Json>, i: nat, v: Json, e: nat) returns (j: nat)
    requires i < |s| && IsOpen(s[i]) && Container(s, inner, i) == Done(v, e)
    ensures i < j < e <= |s| && j == SkipWs(s, i + 1)
    ensures s[j] == Closer(s[i]) ==> e == j + 1 && v == if s[i] == '{' then JObject([]) else JArray([])
    ensures s[j] != Closer(s[i]) ==> HasElements(s, inner, s[i], j, v, e)
  {
    j := SkipWs(s, i + 1);
    if s[i] == '{' { ElementsSane(s, MemberAt(s, inner), '}', j); } else { ElementsSane(s, inner, ']', j); }
  }

  lemma ContainerOfParts(s: string, inner: Decoder<Json>, i: nat, v: Json, e: nat, j: nat)
    requires i < |s| && IsOpen(s[i]) && j == SkipWs(s, i + 1) < |s|
    requires s[j] == Closer(s[i]) ==> e == j + 1 && v == if s[i] == '{' then JObject([]) else JArray([])
    requires s[j] != Closer(s[i]) ==> HasElements(s, inner, s[i], j, v, e)
    ensures Container(s, inner, i) == Done(v, e)
  {
  }

  // ----- A decode depends only on the text it consumes -----

  /** From `lo` to `hi` the characters of `s` stand in `t` too, `d` places further on. */
  ghost predicate SameText(s: string, lo: nat, hi: nat, t: string, d: int) {
    && lo <= hi <= |s| && 0 <= lo + d && hi + d <= |t|
    && forall j {:trigger s[j]} :: lo <= j < hi ==> t[j + d] == s[j]
  }

  lemma SameSlice(s: string, lo: nat, hi: nat, t: string, d: int, a: nat, b: nat)
    requires SameText(s, lo, hi, t, d) && lo <= a <= b <= hi
    ensures s[a..b] == t[a + d..b + d]
  {
    forall n | 0 <= n < b - a
      ensures s[a..b][n] == t[a + d..b + d][n]
    {
      assert s[a + n] == t[a + n + d];
    }
  }

  lemma {:induction false} SkipWsElsewhere(s: string, lo: nat, hi: nat, t: string, d: int, i: nat)
    requires SameText(s, lo, hi, t, d) && lo <= i <= |s| && SkipWs(s, i) < hi
    ensures SkipWs(t, i + d) == SkipWs(s, i) + d && t[SkipWs(s, i) + d] == s[SkipWs(s, i)]
    decreases |s| - i
  {
    if IsWs(s[i]) { SkipWsElsewhere(s, lo, hi, t, d, i + 1); }
  }

  lemma {:induction false} ScalarEndElsewhere(s: string, lo: nat, hi: nat, t: string, d: int, i: nat)
    requires SameText(s, lo, hi, t, d) && lo <= i <= |s| && ScalarEnd(s, i) < hi
    ensures ScalarEnd(t, i + d) == ScalarEnd(s, i) + d
    decreases |s| - i
  {
    if IsScalarChar(s[i]) { ScalarEndElsewhere(s, lo, hi, t, d, i + 1); }
  }

  lemma ItemLengthElsewhere(s: string, lo: nat, hi: nat, t: string, d: int, i: nat)
    requires SameText(s, lo, hi, t, d) && lo <= i < hi && i + ItemLength(s, i) <= hi && ItemLength(s, i) > 0
    ensures ItemLength(t, i + d) == ItemLength(s, i)
  {
    var n := ItemLength(s, i);
    assert s[i] == t[i + d];
    if n >= 2 { assert s[i + 1] == t[i + 1 + d]; }
    if n == 6 {
      assert s[i + 2] == t[i + 2 + d] && s[i + 3] == t[i + 3 + d];
      assert s[i + 4] == t[i + 4 + d] && s[i + 5] == t[i + 5 + d];
    }
  }

  lemma {:induction false} StringEndElsewhere(s: string, lo: nat, hi: nat, t: string, d: int, i: nat)
    requires SameText(s, lo, hi, t, d) && lo <= i <= |s| && StringEnd(s, i).Some? && StringEnd(s, i).value <= hi
    ensures StringEnd(t, i + d) == Some(StringEnd(s, i).value + d)
    decreases |s| - i
  {
    if s[i] != '"' {
      ItemLengthElsewhere(s, lo, hi, t, d, i);
      StringEndElsewhere(s, lo, hi, t, d, i + ItemLength(s, i));
    }
  }

  /** On the same text, one character beyond the decode included, `there` decodes in `t` what `here` decodes in `s`. */
  ghost predicate SameDecode<T(!new)>(s: string, here: Decoder<T>, lo: nat, hi: nat, t: string, there: Decoder<T>, d: int) {
    && SameText(s, lo, hi, t, d)
    && forall i: nat {:trigger here(i)} :: lo <= i && here(i).Done? && i < here(i).end < hi ==>
         there(i + d) == Done(here(i).value, here(i).end + d)
  }

  lemma {:induction false} ElementsElsewhere<T(!new)>(s: string, here: Decoder<T>, lo: nat, hi: nat, t: string, there: Decoder<T>,
                                                      d: int, close: char, i: nat, xs: seq<T>, e: nat)
    requires SameDecode(s, here, lo, hi, t, there, d) && lo <= i <= |s|
    requires Elements(s, here, close, i) == Done(xs, e) && i < e <= hi
    ensures Elements(t, there, close, i + d) == Done(xs, e + d)
    decreases |s| - i
  {
    var m, j, n := ElementsParts(s, here, close, i, xs, e);
    SkipWsElsewhere(s, lo, hi, t, d, m);
    if s[j] != close {
      SkipWsElsewhere(s, lo, hi, t, d, j + 1);
      ElementsElsewhere(s, here, lo, hi, t, there, d, close, n, xs[1..], e);
      ElementsOfParts(t, there, close, i + d, m + d, j + d, n + d, xs, e + d);
    }
  }

  lemma KeyElsewhere(s: string, lo: nat, hi: nat, t: string, d: int, i: nat, q: nat)
    requires SameText(s, lo, hi, t, d) && lo <= i < hi && s[i] == '"' && StringEnd(s, i + 1) == Some(q) && q <= hi
    ensures t[i + d] == '"' && StringEnd(t, i + 1 + d) == Some(q + d) && t[i + 1 + d..q - 1 + d] == s[i + 1..q - 1]
  {
    assert s[i] == t[i + d];
    StringEndElsewhere(s, lo, hi, t, d, i + 1);
    SameSlice(s, lo, hi, t, d, i + 1, q - 1);
  }

  lemma MemberElsewhere(s: string, here: Decoder<Json>, lo: nat, hi: nat, t: string, there: Decoder<Json>, d: int,
                        i: nat, x: (string, Json), e: nat)
    requires SameDecode(s, here, lo, hi, t, there, d) && lo <= i
    requires AllSane(s, here)
    requires Member(s, here, i) == Done(x, e) && e < hi
    ensures 0 <= i + d && Member(t, there, i + d) == Done(x, e + d)
  {
    var q, c, w := MemberParts(s, here, i, x, e);
    assert Sane(s, w, here(w));
    KeyElsewhere(s, lo, hi, t, d, i, q);
    SkipWsElsewhere(s, lo, hi, t, d, q);
    SkipWsElsewhere(s, lo, hi, t, d, c + 1);
    MemberOfParts(t, there, i + d, x, e + d, q + d, c + d, w + d);
  }

  lemma MembersElsewhere(s: string, here: Decoder<Json>, lo: nat, hi: nat, t: string, there: Decoder<Json>, d: int)
    requires SameDecode(s, here, lo, hi, t, there, d)
    requires AllSane(s, here)
    ensures SameDecode(s, MemberAt(s, here), lo, hi, t, MemberAt(t, there), d)
  {
    var mine, theirs := MemberAt(s, here), MemberAt(t, there);
    forall i: nat {:trigger mine(i)} | lo <= i && mine(i).Done? && i < mine(i).end < hi
      ensures theirs(i + d) == Done(mine(i).value, mine(i).end + d)
    {
      MemberElsewhere(s, here, lo, hi, t, there, d, i, mine(i).value, mine(i).end);
    }
  }

  lemma ContentsElsewhere(s: string, here: Decoder<Json>, lo: nat, hi: nat, t: string, there: Decoder<Json>, d: int,
                          open: char, j: nat, v: Json, e: nat)
    requires SameDecode(s, here, lo, hi, t, there, d) && AllSane(s, here)
    requires lo <= j < e <= hi && HasElements(s, here, open, j, v, e)
    ensures HasElements(t, there, open, j + d, v, e + d)
  {
    if open == '{' {
      MembersElsewhere(s, here, lo, hi, t, there, d);
      ElementsElsewhere(s, MemberAt(s, here), lo, hi, t, MemberAt(t, there), d, '}', j, v.members, e);
    } else {
      ElementsElsewhere(s, here, lo, hi, t, there, d, ']', j, v.items, e);
    }
  }

  lemma ContainerElsewhere(s: string, here: Decoder<Json>, lo: nat, hi: nat, t: string, there: Decoder<Json>, d: int,
                           i: nat, v: Json, e: nat)
    requires SameDecode(s, here, lo, hi, t, there, d) && AllSane(s, here)
    requires lo <= i < e <= hi && IsOpen(s[i]) && t[i + d] == s[i]
    requires Container(s, here, i) == Done(v, e)
    ensures Container(t, there, i + d) == Done(v, e + d)
  {
    var j := ContainerParts(s, here, i, v, e);
    assert s[j] == t[j + d];
    SkipWsElsewhere(s, lo, hi, t, d, i + 1);
    if s[j] != Closer(s[i]) { ContentsElsewhere(s, here, lo, hi, t, there, d, s[i], j, v, e); }
    ContainerOfParts(t, there, i + d, v, e + d, j + d);
  }

  /** Elsewhere, the same text decodes to the same value; a scalar needs one more character. */
  lemma {:induction false} ValueElsewhere(s: string, depth: nat, lo: nat, hi: nat, t: string, d: int, i: nat, v: Json, e: nat)
    requires SameText(s, lo, hi, t, d) && lo <= i
    requires Value(s, depth, i) == Done(v, e) && i < e <= hi && (e < hi || IsOpen(s[i]))
    ensures Value(t, depth, i + d) == Done(v, e + d)
    decreases depth, 1
  {
    assert s[i] == t[i + d];
    if s[i] == '"' {
      KeyElsewhere(s, lo, hi, t, d, i, e);
    } else if IsOpen(s[i]) {
      InnerElsewhere(s, depth, lo, hi, t, d);
      ContainerElsewhere(s, Inner(s, depth - 1), lo, hi, t, Inner(t, depth - 1), d, i, v, e);
    } else {
      ScalarEndElsewhere(s, lo, hi, t, d, i);
      SameSlice(s, lo, hi, t, d, i, e);
    }
  }

  lemma {:induction false} InnerElsewhere(s: string, depth: nat, lo: nat, hi: nat, t: string, d: int)
    requires depth > 0 && SameText(s, lo, hi, t, d)
    ensures AllSane(s, Inner(s, depth - 1))
    ensures SameDecode(s, Inner(s, depth - 1), lo, hi, t, Inner(t, depth - 1), d)
    decreases depth, 0
  {
    var here, there := Inner(s, depth - 1), Inner(t, depth - 1);
    forall k: nat
      ensures Sane(s, k, here(k))
    {
      ValueSane(s, depth - 1, k);
    }
    forall i: nat | lo <= i && here(i).Done? && i < here(i).end < hi
      ensures there(i + d) == Done(here(i).value, here(i).end + d)
    {
      ValueElsewhere(s, depth - 1, lo, hi, t, d, i, here(i).value, here(i).end);
    }
  }

  lemma DecodeLoads(s: string, depth: nat, a: nat, b: nat, v: Json)
    requires a <= b < |s| && IsOpen(s[a]) && Value(s, depth, a) == Done(v, b + 1)
    ensures Loads(s[a..b + 1], depth) == Some(v)
  {
    var t := s[a..b + 1];
    assert t[0] == s[a];
    ValueElsewhere(s, depth, a, b + 1, t, 0 - a, a, v, b + 1);
  }

  lemma {:induction false} SkippedIsWs(s: string, i: nat, k: nat)
    requires i <= |s| && i <= k < SkipWs(s, i)
    ensures k < |s| && IsWs(s[k])
    decreases k - i
  {
    if i < k { SkippedIsWs(s, i + 1, k); }
  }

  /** Text that starts with a bracket and does not end in white space is loaded by one decode of all of it. */
  lemma LoadsWhole(t: string, depth: nat, v: Json)
    requires t != "" && IsOpen(t[0]) && !IsWs(t[|t| - 1]) && Loads(t, depth) == Some(v)
    ensures Value(t, depth, 0) == Done(v, |t|)
  {
    var r := Value(t, depth, 0);
    assert SkipWs(t, 0) == 0;
    if r.end < |t| { SkippedIsWs(t, r.end, |t| - 1); }
  }

  lemma LoadsDecodes(s: string, depth: nat, a: nat, b: nat, v: Json)
    requires a <= b < |s| && IsOpen(s[a]) && !IsWs(s[b])
    requires Loads(s[a..b + 1], depth) == Some(v)
    ensures Value(s, depth, a) == Done(v, b + 1)
  {
    var t := s[a..b + 1];
    assert t[0] == s[a] && t[|t| - 1] == s[b];
    LoadsWhole(t, depth, v);
    ValueElsewhere(t, depth, 0, |t|, s, a, 0, v, |t|);
  }

  /** Decoding a container in place and loading exactly its text are the same thing. */
  lemma LoadsIsDecode(s: string, depth: nat, a: nat, b: nat, v: Json)
    requires a <= b < |s| && IsOpen(s[a]) && !IsWs(s[b])
    ensures Loads(s[a..b + 1], depth) == Some(v) <==> Value(s, depth, a) == Done(v, b + 1)
  {
    if Value(s, depth, a) == Done(v, b + 1) { DecodeLoads(s, depth, a, b, v); }
    if Loads(s[a..b + 1], depth) == Some(v) { LoadsDecodes(s, depth, a, b, v); }
  }
}
