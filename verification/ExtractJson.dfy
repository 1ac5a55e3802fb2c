/** Finding the first JSON object or array in a model's answer: a fast path over the spans of one
    bracket scan, and a slow path that decodes at every open bracket. */
module ExtractJson {
  import opened JsonDecoder
  import opened JsonSpans
  import opened JsonTexts
  import opened Options
  import StableSorting
  import TextLines

  const MAX_SPAN_ATTEMPTS: nat := 250
  const MAX_CANDIDATE_ATTEMPTS: nat := 1000

  /** `Raised` is a RecursionError that reaches the caller. */
  datatype Outcome = Nothing | Found(start: nat, value: Json) | Raised

  // ----- The slow path -----

  /** `s.find(c, i)`. */
  function Find(s: string, c: char, i: nat): (r: int)
    requires i <= |s|
    ensures r == -1 ==> c !in s[i..]
    ensures r != -1 ==> i <= r < |s| && s[r] == c && c !in s[i..r]
    decreases |s| - i
  {
    if i == |s| then -1
    else if s[i] == c then i
    else
      assert s[i..] == [s[i]] + s[i + 1..];
      var r := Find(s, c, i + 1);
      assert r != -1 ==> s[i..r] == [s[i]] + s[i + 1..r];
      r
  }

  /** The first open bracket from `i` on; the end of the text if there is none. */
  function NextOpen(s: string, i: nat): (p: nat)
    requires i <= |s|
    ensures i <= p <= |s| && (p < |s| ==> IsOpen(s[p]))
    decreases |s| - i
  {
    if i < |s| && !IsOpen(s[i]) then NextOpen(s, i + 1) else i
  }

  lemma {:induction false} NextOpenIsNext(s: string, i: nat, p: nat)
    requires i <= p <= |s| && (p < |s| ==> IsOpen(s[p]))
    requires forall k :: i <= k < p ==> !IsOpen(s[k])
    ensures NextOpen(s, i) == p
    decreases p - i
  {
    if i < p { NextOpenIsNext(s, i + 1, p); }
  }

  method FindNextOpen(s: string, i: nat) returns (p: nat)
    requires i <= |s|
    ensures p == NextOpen(s, i)
  {
    var brace, bracket := Find(s, '{', i), Find(s, '[', i);
    if brace == -1 && bracket == -1 {
      p := |s|;
    } else if brace == -1 {
      p := bracket;
    } else if bracket == -1 {
      p := brace;
    } else {
      p := if brace <= bracket then brace else bracket;
    }
    forall k | i <= k < p
      ensures !IsOpen(s[k])
    {
      assert brace == -1 ==> s[k] in s[i..];
      assert bracket == -1 ==> s[k] in s[i..];
      assert brace != -1 ==> s[k] in s[i..brace];
      assert bracket != -1 ==> s[k] in s[i..bracket];
    }
    NextOpenIsNext(s, i, p);
  }

  function Slow(s: string, decode: Decoder<Json>, i: nat, tries: nat): Outcome
    requires i <= |s|
    decreases tries
  {
    if tries == 0 then Nothing
    else
      var p := NextOpen(s, i);
      if p == |s| then Nothing
      else
        match decode(p)
        case TooDeep => Raised
        case Fail => Slow(s, decode, p + 1, tries - 1)
        case Done(v, _) => if IsContainer(v) then Found(p, v) else Slow(s, decode, p + 1, tries - 1)
  }

  method PerCandidate(s: string, decode: Decoder<Json>) returns (r: Outcome)
    ensures r == Slow(s, decode, 0, MAX_CANDIDATE_ATTEMPTS)
  {
    var idx: nat := 0;
    for n := 0 to MAX_CANDIDATE_ATTEMPTS
      invariant idx <= |s|
      invariant Slow(s, decode, 0, MAX_CANDIDATE_ATTEMPTS) == Slow(s, decode, idx, MAX_CANDIDATE_ATTEMPTS - n)
    {
      var start := FindNextOpen(s, idx);
      if start == |s| { return Nothing; }
      match decode(start) {
        case TooDeep => return Raised;
        case Fail =>
        case Done(parsed, _) => if IsContainer(parsed) { return Found(start, parsed); }
      }
      idx := start + 1;
    }
    r := Nothing;
  }

  /** How many open brackets stand from `i` to `j`. */
  function Opens(s: string, i: nat, j: nat): nat
    requires i <= j <= |s|
    decreases j - i
  {
    if i == j then 0 else (if IsOpen(s[i]) then 1 else 0) + Opens(s, i + 1, j)
  }

  /** At an open bracket only containers are decoded. */
  ghost predicate OnlyContainers(s: string, decode: Decoder<Json>) {
    forall p: nat {:trigger decode(p)} :: p < |s| && IsOpen(s[p]) && decode(p).Done? ==> IsContainer(decode(p).value)
  }

  /** Decoding succeeds at the open bracket `p`, and fails at every one between `i` and `p`. */
  ghost predicate FirstFrom(s: string, decode: Decoder<Json>, i: nat, p: nat, v: Json) {
    && i <= p < |s| && IsOpen(s[p]) && decode(p).Done? && decode(p).value == v
    && forall q: nat :: i <= q < p && IsOpen(s[q]) ==> decode(q).Fail?
  }

  lemma {:induction false} NoOpensBefore(s: string, i: nat, j: nat)
    requires i <= |s| && i <= j <= NextOpen(s, i)
    ensures Opens(s, i, j) == 0
    ensures forall q :: i <= q < j ==> !IsOpen(s[q])
    decreases j - i
  {
    if i < j { NoOpensBefore(s, i + 1, j); }
  }

  lemma {:induction false} OpensSplit(s: string, i: nat, m: nat, j: nat)
    requires i <= m <= j <= |s|
    ensures Opens(s, i, j) == Opens(s, i, m) + Opens(s, m, j)
    decreases m - i
  {
    if i < m { OpensSplit(s, i + 1, m, j); }
  }

  /** The slow path finds exactly the earliest decodable bracket, if it is within the cap. */
  lemma {:induction false} SlowFindsFirst(s: string, decode: Decoder<Json>, i: nat, tries: nat, p: nat, v: Json)
    requires OnlyContainers(s, decode) && i <= |s|
    ensures Slow(s, decode, i, tries) == Found(p, v) <==> FirstFrom(s, decode, i, p, v) && Opens(s, i, p) < tries
    decreases tries
  {
    var n := NextOpen(s, i);
    NoOpensBefore(s, i, n);
    if tries > 0 && n < |s| && decode(n).Fail? { SlowFindsFirst(s, decode, n + 1, tries - 1, p, v); }
    if i <= p < |s| && n < p {
      OpensSplit(s, i, n, p);
    }
  }

  /** The open bracket `p` nests too deep, decoding fails at every one between `i` and `p`, and those are fewer than `tries`. */
  ghost predicate RaisesFirst(s: string, decode: Decoder<Json>, i: nat, p: nat, tries: nat) {
    && i <= p < |s| && IsOpen(s[p]) && decode(p).TooDeep?
    && (forall q: nat :: i <= q < p && IsOpen(s[q]) ==> decode(q).Fail?)
    && Opens(s, i, p) < tries
  }

  /** Stepping over an open bracket that fails to decode uses up one try. */
  lemma RaisesPast(s: string, decode: Decoder<Json>, i: nat, n: nat, p: nat, tries: nat)
    requires i <= |s| && i <= n == NextOpen(s, i) < |s| && decode(n).Fail? && tries > 0
    ensures RaisesFirst(s, decode, i, p, tries) <==> RaisesFirst(s, decode, n + 1, p, tries - 1)
  {
    NoOpensBefore(s, i, n);
    if n < p < |s| { OpensSplit(s, i, n, p); }
  }

  /** A RecursionError escapes the slow path exactly when the first bracket that does not merely fail to decode nests
      too deep, and is within the cap. */
  lemma {:induction false} SlowRaises(s: string, decode: Decoder<Json>, i: nat, tries: nat)
    requires OnlyContainers(s, decode) && i <= |s|
    ensures Slow(s, decode, i, tries) == Raised <==> exists p: nat :: RaisesFirst(s, decode, i, p, tries)
    decreases tries
  {
    var n := NextOpen(s, i);
    NoOpensBefore(s, i, n);
    if tries > 0 && n < |s| {
      if decode(n).Fail? {
        var m := n + 1;
        SlowRaises(s, decode, m, tries - 1);
        var left: nat := tries - 1;
        if p: nat :| RaisesFirst(s, decode, i, p, tries) {
          RaisesPast(s, decode, i, n, p, tries);
          assert RaisesFirst(s, decode, m, p, left);
        }
        if p: nat :| RaisesFirst(s, decode, m, p, left) {
          RaisesPast(s, decode, i, n, p, tries);
          assert RaisesFirst(s, decode, i, p, tries);
        }
      } else if decode(n).TooDeep? {
        assert RaisesFirst(s, decode, i, n, tries);
      }
    }
  }

  // ----- The fast path -----

  function KeyOf(p: Span): StableSorting.Key {
    (p.start as real, p.end as real)
  }

  function KeysOf(spans: seq<Span>): (keys: seq<StableSorting.Key>)
    ensures |keys| == |spans|
  {
    seq(|spans|, k requires 0 <= k < |spans| => KeyOf(spans[k]))
  }

  /** `sorted(spans)`. */
  function SortedSpans(spans: seq<Span>): (r: seq<Span>)
    ensures |r| == |spans|
  {
    var order := StableSorting.SortedIndices(KeysOf(spans));
    seq(|order|, k requires 0 <= k < |order| => spans[order[k]])
  }

  lemma SortedSpansSorts(spans: seq<Span>)
    ensures forall a, b :: 0 <= a < b < |spans| ==> SortedSpans(spans)[a].start <= SortedSpans(spans)[b].start
    ensures forall p :: p in SortedSpans(spans) <==> p in spans
  {
    var keys := KeysOf(spans);
    var order := StableSorting.SortedIndices(keys);
    var r := SortedSpans(spans);
    StableSorting.SortedIndicesSorts(keys);
    forall a, b | 0 <= a < b < |spans|
      ensures r[a].start <= r[b].start
    {
      assert StableSorting.Precedes(keys, order[a], order[b]);
    }
    forall p | p in spans
      ensures p in r
    {
      var k: nat :| k < |spans| && spans[k] == p;
      assert k in order;
      var a :| 0 <= a < |order| && order[a] == k;
      assert r[a] == p;
    }
  }

  function FirstLoadable(list: seq<Span>, loads: Span -> Option<Json>): Outcome {
    if list == [] then Nothing
    else if loads(list[0]).Some? then Found(list[0].start, loads(list[0]).value)
    else FirstLoadable(list[1..], loads)
  }

  lemma {:induction false} FirstLoadableIsFirst(list: seq<Span>, loads: Span -> Option<Json>) returns (k: nat)
    ensures FirstLoadable(list, loads) == Nothing <==> k == |list|
    ensures k <= |list| && forall j :: 0 <= j < k ==> loads(list[j]).None?
    ensures k < |list| ==> loads(list[k]).Some? && FirstLoadable(list, loads) == Found(list[k].start, loads(list[k]).value)
  {
    if list == [] || loads(list[0]).Some? {
      k := 0;
    } else {
      k := FirstLoadableIsFirst(list[1..], loads);
      k := k + 1;
      assert forall j :: 0 < j < k ==> list[j] == list[1..][j - 1];
    }
  }

  function FirstOf(spans: seq<Span>): seq<Span> {
    var sorted := SortedSpans(spans);
    if |sorted| <= MAX_SPAN_ATTEMPTS then sorted else sorted[..MAX_SPAN_ATTEMPTS]
  }

  /** The first spans by start, 250 of them at the most. */
  lemma FirstOfIsFirst(spans: seq<Span>)
    ensures FirstOf(spans) <= SortedSpans(spans)
    ensures |FirstOf(spans)| == if |spans| < 250 then |spans| else 250
    ensures forall a, b :: 0 <= a < b < |FirstOf(spans)| ==> FirstOf(spans)[a].start <= FirstOf(spans)[b].start
    ensures forall p :: p in FirstOf(spans) ==> p in spans
    ensures forall p, q :: p in FirstOf(spans) && q in spans && q !in FirstOf(spans) ==> p.start <= q.start
  {
    SortedSpansSorts(spans);
    var sorted, first := SortedSpans(spans), FirstOf(spans);
    forall p, q | p in first && q in spans && q !in first
      ensures p.start <= q.start
    {
      var a :| 0 <= a < |first| && first[a] == p;
      var b :| 0 <= b < |sorted| && sorted[b] == q;
      assert b >= |first|;
    }
  }

  /** What follows when the candidate text itself is not JSON. */
  function Tail(spans: seq<Span>, dirty: bool, loads: Span -> Option<Json>, slow: Outcome): Outcome {
    if !dirty && spans == [] then Nothing
    else if !dirty && FirstLoadable(FirstOf(spans), loads).Found? then FirstLoadable(FirstOf(spans), loads)
    else slow
  }

  // ----- Fast and slow agree -----

  /** A span loads exactly when the decode at its open end stops at its close end, and to the same value. */
  ghost predicate LoadsDecode(spans: seq<Span>, decode: Decoder<Json>, loads: Span -> Option<Json>) {
    forall p: Span {:trigger loads(p)} :: p in spans ==>
      match loads(p)
      case Some(v) => decode(p.start) == Done(v, p.end + 1)
      case None => !(decode(p.start).Done? && decode(p.start).end == p.end + 1)
  }

  /** What the fast path finds is decoded at the open end of a span. */
  lemma FastIsSound(spans: seq<Span>, decode: Decoder<Json>, loads: Span -> Option<Json>) returns (p: Span)
    requires LoadsDecode(spans, decode, loads) && FirstLoadable(FirstOf(spans), loads).Found?
    ensures p in spans && FirstLoadable(FirstOf(spans), loads).start == p.start
    ensures decode(p.start) == Done(FirstLoadable(FirstOf(spans), loads).value, p.end + 1)
    ensures forall q :: q in spans && q.start < p.start ==> loads(q).None?
  {
    var list := FirstOf(spans);
    var k := FirstLoadableIsFirst(list, loads);
    SortedSpansSorts(spans);
    p := list[k];
    var sorted := SortedSpans(spans);
    assert p == sorted[k] && p in sorted;
    forall q | q in spans && q.start < p.start
      ensures loads(q).None?
    {
      assert q in sorted;
      var m :| 0 <= m < |sorted| && sorted[m] == q;
      assert m < k ==> list[m] == q;
    }
  }

  lemma FastFindsFirst(s: string, spans: seq<Span>, decode: Decoder<Json>, loads: Span -> Option<Json>, p: nat, v: Json)
    requires LoadsDecode(spans, decode, loads) && FirstFrom(s, decode, 0, p, v)
    requires forall q :: q in spans ==> IsBalanced(s, q)
    requires decode(p).end > 0 && Span(p, decode(p).end - 1) in spans
    requires FirstLoadable(FirstOf(spans), loads).Found?
    ensures FirstLoadable(FirstOf(spans), loads) == Found(p, v)
  {
    var q := FastIsSound(spans, decode, loads);
    var own := Span(p, decode(p).end - 1);
    assert loads(own) == Some(v);
    assert IsBalanced(s, q);
    assert p <= q.start;
  }

  /** `seen` says whether the bracket at `p` has a span. */
  lemma CleanTailFindsFirst(s: string, spans: seq<Span>, decode: Decoder<Json>, loads: Span -> Option<Json>, p: nat, v: Json, seen: bool)
    requires LoadsDecode(spans, decode, loads) && FirstFrom(s, decode, 0, p, v)
    requires forall q :: q in spans ==> IsBalanced(s, q)
    requires seen ==> decode(p).end > 0 && Span(p, decode(p).end - 1) in spans
    requires !seen ==> forall q :: q in spans ==> q.start != p
    ensures Tail(spans, false, loads, Found(p, v)) == Found(p, v) <==>
              seen || (spans != [] && !FirstLoadable(FirstOf(spans), loads).Found?)
  {
    if FirstLoadable(FirstOf(spans), loads).Found? {
      if seen {
        FastFindsFirst(s, spans, decode, loads, p, v);
      } else {
        var q := FastIsSound(spans, decode, loads);
      }
    }
  }

  function LoadsOf(s: string, depth: nat): Span -> Option<Json> {
    (p: Span) => if p.start <= p.end < |s| then Loads(s[p.start..p.end + 1], depth) else None
  }

  /** The search through `s`: fast if the scan is clean, slow otherwise or when the fast path comes back empty. */
  function Search(s: string, depth: nat): Outcome {
    var scan := ScanTo(s, |s|);
    Tail(scan.spans, scan.dirty, LoadsOf(s, depth), Slow(s, Inner(s, depth), 0, MAX_CANDIDATE_ATTEMPTS))
  }

  method TrySpans(s: string, depth: nat, spans: seq<Span>) returns (r: Outcome)
    requires forall k :: 0 <= k < |spans| ==> spans[k].start <= spans[k].end < |s|
    ensures r == FirstLoadable(spans, LoadsOf(s, depth))
  {
    ghost var loads := LoadsOf(s, depth);
    var n := 0;
    while n < |spans|
      invariant 0 <= n <= |spans|
      invariant FirstLoadable(spans, loads) == FirstLoadable(spans[n..], loads)
    {
      var parsed := Loads(s[spans[n].start..spans[n].end + 1], depth);
      assert loads(spans[n]) == parsed;
      if parsed.Some? { return Found(spans[n].start, parsed.value); }
      n := n + 1;
    }
    r := Nothing;
  }

  method SearchFor(s: string, depth: nat) returns (r: Outcome)
    ensures r == Search(s, depth)
  {
    var spans, dirty := BalancedSpans(s);
    if !dirty && spans == [] { return Nothing; }
    if !dirty {
      SpansNestOrLieApart(s);
      SortedSpansSorts(spans);
      var list := FirstOf(spans);
      forall k | 0 <= k < |list|
        ensures list[k].start <= list[k].end < |s|
      {
        assert list[k] == SortedSpans(spans)[k];
        assert list[k] in spans;
      }
      var fast := TrySpans(s, depth, list);
      if fast.Found? { return fast; }
    }
    r := PerCandidate(s, Inner(s, depth));
  }

  // ----- The scan and the decoder -----

  lemma DecodesContainers(s: string, depth: nat)
    ensures OnlyContainers(s, Inner(s, depth))
  {
    var decode := Inner(s, depth);
    forall p: nat | p < |s| && IsOpen(s[p]) && decode(p).Done?
      ensures IsContainer(decode(p).value)
    {
      assert decode(p) == Value(s, depth, p);
      if depth > 0 { ContainerSane(s, Inner(s, depth - 1), p); }
    }
  }

  lemma LoadedSpanDecodes(s: string, depth: nat, p: Span)
    requires IsBalanced(s, p) && LoadsOf(s, depth)(p).Some?
    ensures Inner(s, depth)(p.start) == Done(LoadsOf(s, depth)(p).value, p.end + 1)
  {
    LoadsDecodes(s, depth, p.start, p.end, LoadsOf(s, depth)(p).value);
  }

  lemma SpansLoadDecode(s: string, depth: nat)
    ensures LoadsDecode(ScanTo(s, |s|).spans, Inner(s, depth), LoadsOf(s, depth))
  {
    var spans, decode, loads := ScanTo(s, |s|).spans, Inner(s, depth), LoadsOf(s, depth);
    SpansNestOrLieApart(s);
    forall p: Span | p in spans
      ensures match loads(p)
              case Some(v) => decode(p.start) == Done(v, p.end + 1)
              case None => !(decode(p.start).Done? && decode(p.start).end == p.end + 1)
    {
      if loads(p).Some? {
        LoadedSpanDecodes(s, depth, p);
      } else if decode(p.start).Done? && decode(p.start).end == p.end + 1 {
        DecodeLoads(s, depth, p.start, p.end, decode(p.start).value);
      }
    }
  }

  ghost predicate Clean(s: string) { !ScanTo(s, |s|).dirty }

  /** The fast path gives up on every span it tries. */
  ghost predicate FastFindsNothing(s: string, depth: nat) {
    !FirstLoadable(FirstOf(ScanTo(s, |s|).spans), LoadsOf(s, depth)).Found?
  }

  /** A decodable bracket has its span exactly when the scan saw it. */
  lemma SpanOfBracket(s: string, depth: nat, p: nat, v: Json, e: nat)
    requires Value(s, depth, p) == Done(v, e)
    ensures Visible(s, p) ==> e > 0 && Span(p, e - 1) in ScanTo(s, |s|).spans
    ensures !Visible(s, p) ==> forall q :: q in ScanTo(s, |s|).spans ==> q.start != p
  {
    if Visible(s, p) { DecodableIsSpanned(s, depth, p, v, e); } else { SpansAreVisible(s, |s|); }
  }

  /** When the slow path alone would find the value at `p`, a clean search finds that one exactly when the scan
      saw its bracket, or when there were spans and none of those tried could be loaded. */
  lemma CleanSearchFindsFirst(s: string, depth: nat, p: nat, v: Json)
    requires Clean(s)
    ensures Slow(s, Inner(s, depth), 0, MAX_CANDIDATE_ATTEMPTS) == Found(p, v) ==>
              (Search(s, depth) == Found(p, v) <==>
               Visible(s, p) || (ScanTo(s, |s|).spans != [] && FastFindsNothing(s, depth)))
  {
    var spans, decode, loads := ScanTo(s, |s|).spans, Inner(s, depth), LoadsOf(s, depth);
    DecodesContainers(s, depth);
    SlowFindsFirst(s, decode, 0, MAX_CANDIDATE_ATTEMPTS, p, v);
    if Slow(s, decode, 0, MAX_CANDIDATE_ATTEMPTS) == Found(p, v) {
      SpansLoadDecode(s, depth);
      SpansNestOrLieApart(s);
      SpanOfBracket(s, depth, p, v, decode(p).end);
      CleanTailFindsFirst(s, spans, decode, loads, p, v, Visible(s, p));
    }
  }

  /** No open bracket stands right after a backslash. */
  predicate NoEscapedOpen(s: string) {
    forall k :: 0 < k < |s| && IsOpen(s[k]) ==> s[k - 1] != '\\'
  }

  /** Whatever the slow path alone would find, the search finds, unless a bracket is escaped in a clean scan. */
  lemma SearchIsSlow(s: string, depth: nat, p: nat, v: Json)
    requires !Clean(s) || NoEscapedOpen(s)
    ensures Slow(s, Inner(s, depth), 0, MAX_CANDIDATE_ATTEMPTS) == Found(p, v) ==> Search(s, depth) == Found(p, v)
  {
    if Clean(s) && Slow(s, Inner(s, depth), 0, MAX_CANDIDATE_ATTEMPTS) == Found(p, v) {
      DecodesContainers(s, depth);
      SlowFindsFirst(s, Inner(s, depth), 0, MAX_CANDIDATE_ATTEMPTS, p, v);
      if !Visible(s, p) { CleanScanSeesAllButEscaped(s, p); }
      CleanSearchFindsFirst(s, depth, p, v);
    }
  }

  /** After a clean scan without spans there is nothing to find, however many brackets are tried. */
  lemma NoSpansNothingToFind(s: string, depth: nat, p: nat)
    requires Clean(s) && NoEscapedOpen(s) && ScanTo(s, |s|).spans == []
    requires p < |s| && IsOpen(s[p])
    ensures !Value(s, depth, p).Done?
  {
    if !Visible(s, p) { CleanScanSeesAllButEscaped(s, p); }
    if Value(s, depth, p).Done? {
      var r := Value(s, depth, p);
      DecodableIsSpanned(s, depth, p, r.value, r.end);
    }
  }

  // ----- extract_json -----

  /** What the caller gets; `Error` is an escaping RecursionError. */
  datatype Answer = NoJson | Json(value: JsonDecoder.Json) | Error

  function AnswerOf(r: Outcome): Answer {
    match r
    case Nothing => NoJson
    case Found(_, v) => Answer.Json(v)
    case Raised => Error
  }

  /** The text that is tried as a whole: what the code fence encloses, if the text is one fenced block. */
  function Candidate(stripped: string, fence: string -> Option<string>): string {
    match fence(stripped)
    case None => stripped
    case Some(body) => TextLines.Strip(body)
  }

  function Extract(text: string, fence: string -> Option<string>, depth: nat): Answer {
    var s := TextLines.Strip(text);
    var whole := Loads(Candidate(s, fence), depth);
    if s == "" then NoJson
    else if whole.Some? && IsContainer(whole.value) then Answer.Json(whole.value)
    else AnswerOf(Search(s, depth))
  }

  method ExtractJson(text: string, fence: string -> Option<string>, depth: nat) returns (r: Answer)
    ensures r == Extract(text, fence, depth)
  {
    var stripped := TextLines.Strip(text);
    if stripped == "" { return NoJson; }
    var parsed := Loads(Candidate(stripped, fence), depth);
    if parsed.Some? && IsContainer(parsed.value) { return Answer.Json(parsed.value); }
    var found := SearchFor(stripped, depth);
    r := AnswerOf(found);
  }

  /** A container loaded from the whole of a stripped text is decoded at its first character. */
  lemma WholeIsFirst(s: string, depth: nat)
    requires TextLines.Trimmed(s) && Loads(s, depth).Some? && IsContainer(Loads(s, depth).value)
    ensures FirstFrom(s, Inner(s, depth), 0, 0, Loads(s, depth).value)
  {
    assert SkipWs(s, 0) == 0;
    assert Inner(s, depth)(0) == Value(s, depth, 0);
  }

  /** Without a fence, the answer is the value at the earliest bracket that decodes, if it is within the cap and
      no bracket is escaped in a clean scan. */
  lemma ExtractsFirst(text: string, fence: string -> Option<string>, depth: nat, p: nat, v: JsonDecoder.Json)
    requires var s := TextLines.Strip(text);
             && fence(s).None?
             && FirstFrom(s, Inner(s, depth), 0, p, v) && Opens(s, 0, p) < 1000
             && (!Clean(s) || NoEscapedOpen(s))
    ensures Extract(text, fence, depth) == Answer.Json(v)
  {
    var s := TextLines.Strip(text);
    TextLines.StripTrims(text);
    var whole := Loads(s, depth);
    if whole.Some? && IsContainer(whole.value) {
      WholeIsFirst(s, depth);
    } else {
      DecodesContainers(s, depth);
      SlowFindsFirst(s, Inner(s, depth), 0, MAX_CANDIDATE_ATTEMPTS, p, v);
      SearchIsSlow(s, depth, p, v);
    }
  }

  lemma SearchIsSound(s: string, depth: nat)
    requires Search(s, depth).Found?
    ensures var r := Search(s, depth);
            r.start < |s| && IsOpen(s[r.start]) && Value(s, depth, r.start).Done? && Value(s, depth, r.start).value == r.value
  {
    var r := Search(s, depth);
    SpansLoadDecode(s, depth);
    DecodesContainers(s, depth);
    SpansNestOrLieApart(s);
    if Clean(s) && !FastFindsNothing(s, depth) {
      var q := FastIsSound(ScanTo(s, |s|).spans, Inner(s, depth), LoadsOf(s, depth));
      assert IsBalanced(s, q);
    } else {
      SlowFindsFirst(s, Inner(s, depth), 0, MAX_CANDIDATE_ATTEMPTS, r.start, r.value);
    }
  }

  /** Without a fence, whatever is returned stands in the text. */
  lemma ExtractIsSound(text: string, fence: string -> Option<string>, depth: nat) returns (p: nat)
    requires fence(TextLines.Strip(text)).None? && Extract(text, fence, depth).Json?
    ensures var s := TextLines.Strip(text);
            p < |s| && IsOpen(s[p]) && Value(s, depth, p).Done? && Value(s, depth, p).value == Extract(text, fence, depth).value
    ensures var s := TextLines.Strip(text);
            Reads(s, depth, p, Value(s, depth, p).end, Extract(text, fence, depth).value)
  {
    var s := TextLines.Strip(text);
    TextLines.StripTrims(text);
    var whole := Loads(s, depth);
    if whole.Some? && IsContainer(whole.value) {
      WholeIsFirst(s, depth);
      p := 0;
    } else {
      SearchIsSound(s, depth);
      p := Search(s, depth).start;
    }
    DecodesExactly(s, depth, p, Value(s, depth, p).end, Value(s, depth, p).value);
  }

  // ----- Values come back -----

  /** The text tried as a whole, white space around it aside, is a text of a container. */
  lemma WholeComesBack(text: string, body: string, fence: string -> Option<string>, depth: nat, v: JsonDecoder.Json)
    requires TextLines.Strip(text) != "" && IsContainer(v)
    requires body == if fence(TextLines.Strip(text)).None? then TextLines.Strip(text) else TextLines.Strip(fence(TextLines.Strip(text)).value)
    requires Around(body, InnerReading(body, depth), 0, |body|, v)
    ensures Extract(text, fence, depth) == Answer.Json(v)
  {
    LoadsExactly(body, depth, v);
  }

  lemma WrittenEnds(v: JsonDecoder.Json, gap: string)
    requires IsContainer(v)
    ensures var w := Written(v, gap);
            |w| >= 2 && IsOpen(w[0]) && w[|w| - 1] in {'}', ']'} && TextLines.Strip(w) == w
  {
    TextLines.StripOfTrimmed(Written(v, gap));
  }

  lemma AroundAll(s: string, reading: Reading<JsonDecoder.Json>, v: JsonDecoder.Json)
    requires reading(0, |s|, v)
    ensures Around(s, reading, 0, |s|, v)
  {
    assert Blank(s, 0, 0) && Blank(s, |s|, |s|);
  }

  lemma WrittenAround(v: JsonDecoder.Json, gap: string, depth: nat)
    requires Writable(v, depth) && IsGap(gap)
    ensures Around(Written(v, gap), InnerReading(Written(v, gap), depth), 0, |Written(v, gap)|, v)
  {
    var w := Written(v, gap);
    assert Has(w, 0, w);
    WrittenReads(w, 0, v, gap, depth);
    AroundAll(w, InnerReading(w, depth), v);
  }

  /** An object or array that is written, alone or in a code fence, comes back. */
  lemma WrittenComesBack(text: string, v: JsonDecoder.Json, gap: string, fence: string -> Option<string>, depth: nat)
    requires IsContainer(v) && Writable(v, depth) && IsGap(gap)
    requires || (text == Written(v, gap) && fence(text).None?)
             || (text != "" && TextLines.Strip(text) == text && fence(text).Some? && TextLines.Strip(fence(text).value) == Written(v, gap))
    ensures Extract(text, fence, depth) == Answer.Json(v)
  {
    WrittenEnds(v, gap);
    WrittenAround(v, gap, depth);
    WholeComesBack(text, Written(v, gap), fence, depth, v);
  }

  lemma WrittenIsFirst(s: string, v: JsonDecoder.Json, gap: string, depth: nat, p: nat)
    requires IsContainer(v) && Writable(v, depth) && IsGap(gap) && Has(s, p, Written(v, gap))
    requires forall q :: 0 <= q < p ==> !IsOpen(s[q])
    ensures FirstFrom(s, Inner(s, depth), 0, p, v) && Opens(s, 0, p) == 0
  {
    WrittenEnds(v, gap);
    assert s[p] == Written(v, gap)[0];
    WrittenDecodes(s, v, gap, depth, p);
    assert Inner(s, depth)(p) == Done(v, p + |Written(v, gap)|);
    NextOpenIsNext(s, 0, p);
    NoOpensBefore(s, 0, p);
  }

  /** An object or array that is written amid prose comes back, if no bracket stands before it and, in a clean scan,
      no bracket behind it is escaped. */
  lemma ComesBackAmidProse(before: string, v: JsonDecoder.Json, gap: string, behind: string, fence: string -> Option<string>, depth: nat)
    requires IsContainer(v) && Writable(v, depth) && IsGap(gap) && forall c :: c in before ==> c !in {'{', '['}
    requires var s := before + Written(v, gap) + behind;
             TextLines.Strip(s) == s && fence(s).None? && (!Clean(s) || NoEscapedOpen(s))
    ensures Extract(before + Written(v, gap) + behind, fence, depth) == Answer.Json(v)
  {
    var s := before + Written(v, gap) + behind;
    assert Has(s, |before|, Written(v, gap));
    forall q | 0 <= q < |before|
      ensures !IsOpen(s[q])
    {
      assert before[q] in before && s[q] == before[q];
    }
    WrittenIsFirst(s, v, gap, depth, |before|);
    ExtractsFirst(s, fence, depth, |before|, v);
  }

  /** A quote, a backslash and an empty array: nothing is returned although the array decodes and is well within the cap. */
  lemma EscapedBracketIsMissed(fence: string -> Option<string>, depth: nat)
    requires depth > 0 && fence(['"', '\\', '[', ']']).None?
    ensures var s := ['"', '\\', '[', ']'];
            && TextLines.Strip(s) == s && Extract(s, fence, depth) == NoJson
            && FirstFrom(s, Inner(s, depth), 0, 2, JArray([])) && Opens(s, 0, 2) == 0
  {
    var s := ['"', '\\', '[', ']'];
    TextLines.StripOfTrimmed(s);
    assert SkipWs(s, 0) == 0 && StringEnd(s, 1) == None;
    assert Loads(s, depth) == None;
    assert ScanTo(s, 0) == INIT;
    assert ScanTo(s, 1) == INIT.(inString := true);
    assert ScanTo(s, 2) == INIT.(inString := true, escaped := true);
    assert ScanTo(s, 3) == INIT.(inString := true);
    assert ScanTo(s, 4) == INIT.(inString := true);
    assert SkipWs(s, 3) == 3;
    assert Value(s, depth, 2) == Done(JArray([]), 4);
  }

  // ----- The RecursionError that escapes -----

  lemma TailRaises(spans: seq<Span>, dirty: bool, loads: Span -> Option<Json>, slow: Outcome)
    ensures Tail(spans, dirty, loads, slow) == Raised <==>
              (dirty || (spans != [] && !FirstLoadable(FirstOf(spans), loads).Found?)) && slow == Raised
  {
    var k := FirstLoadableIsFirst(FirstOf(spans), loads);
  }

  /** The first bracket that does not merely fail to decode nests too deep, and is within the cap. */
  ghost predicate NestsTooDeep(s: string, decode: Decoder<Json>, tries: nat) {
    exists p: nat :: RaisesFirst(s, decode, 0, p, tries)
  }

  lemma SearchRaises(s: string, depth: nat)
    ensures Search(s, depth) == Raised <==>
              && (!Clean(s) || (ScanTo(s, |s|).spans != [] && FastFindsNothing(s, depth)))
              && NestsTooDeep(s, Inner(s, depth), MAX_CANDIDATE_ATTEMPTS)
  {
    DecodesContainers(s, depth);
    SlowRaises(s, Inner(s, depth), 0, MAX_CANDIDATE_ATTEMPTS);
    TailRaises(ScanTo(s, |s|).spans, ScanTo(s, |s|).dirty, LoadsOf(s, depth), Slow(s, Inner(s, depth), 0, MAX_CANDIDATE_ATTEMPTS));
  }

  /** The answer is an error exactly when the whole text is no container, the scan is dirty or the fast path gives up
      on its spans, and the first bracket that does not merely fail to decode nests too deep, within the cap. */
  lemma ErrorExactly(text: string, fence: string -> Option<string>, depth: nat)
    ensures var s := TextLines.Strip(text);
            var whole := Loads(Candidate(s, fence), depth);
            Extract(text, fence, depth) == Error <==>
              && s != "" && !(whole.Some? && IsContainer(whole.value))
              && (!Clean(s) || (ScanTo(s, |s|).spans != [] && FastFindsNothing(s, depth)))
              && NestsTooDeep(s, Inner(s, depth), 1000)
  {
    SearchRaises(TextLines.Strip(text), depth);
  }

  lemma {:induction false} NestedTooDeep(s: string, depth: nat, i: nat)
    requires i + depth < |s| && forall k :: i <= k < |s| ==> s[k] == '['
    ensures Value(s, depth, i).TooDeep?
    decreases depth
  {
    if depth > 0 {
      NestedTooDeep(s, depth - 1, i + 1);
      assert SkipWs(s, i + 1) == i + 1;
      assert Elements(s, Inner(s, depth - 1), ']', i + 1).TooDeep?;
    }
  }

  lemma {:induction false} NoClosingQuote(s: string, i: nat)
    requires i <= |s| && forall k :: i <= k < |s| ==> s[k] == '['
    ensures StringEnd(s, i).None?
    decreases |s| - i
  {
    if i < |s| { NoClosingQuote(s, i + 1); }
  }

  /** A quoted bracket and then brackets nested one deeper than the limit. */
  function TooNested(depth: nat): string {
    ['"', '[', '"'] + seq(depth + 1, _ => '[')
  }

  lemma FirstBracketFails(depth: nat)
    requires depth > 0
    ensures Value(TooNested(depth), depth, 1) == Fail
  {
    var s := TooNested(depth);
    NoClosingQuote(s, 3);
    assert SkipWs(s, 2) == 2 && s[1] == '[' && s[2] == '"';
    assert Inner(s, depth - 1)(2) == Fail;
    assert Elements(s, Inner(s, depth - 1), ']', 2) == Fail;
  }

  lemma TooNestedRaises(depth: nat) returns (p: nat)
    ensures RaisesFirst(TooNested(depth), Inner(TooNested(depth), depth), 0, p, MAX_CANDIDATE_ATTEMPTS)
  {
    var s := TooNested(depth);
    var decode := Inner(s, depth);
    if depth == 0 {
      p := 1;
      assert decode(1) == Value(s, 0, 1) == TooDeep;
      assert Opens(s, 0, 1) == Opens(s, 1, 1);
    } else {
      p := 3;
      FirstBracketFails(depth);
      NestedTooDeep(s, depth, 3);
      assert decode(1) == Fail && decode(3) == TooDeep;
      assert Opens(s, 2, 3) == Opens(s, 3, 3);
      assert Opens(s, 0, 3) == Opens(s, 1, 3) == 1 + Opens(s, 2, 3);
    }
  }

  lemma TooNestedIsDirty(depth: nat)
    ensures !Clean(TooNested(depth))
  {
    var s := TooNested(depth);
    assert ScanTo(s, 0) == INIT;
    assert ScanTo(s, 1) == INIT.(inString := true);
    SkippingMarks(ScanTo(s, 1), 1, s[1]);
    ScanGrows(s, 2, |s|);
  }

  lemma TooNestedIsNotLoaded(depth: nat)
    ensures Loads(TooNested(depth), depth) == None
  {
    var s := TooNested(depth);
    assert SkipWs(s, 0) == 0 && StringEnd(s, 2) == Some(3) && StringEnd(s, 1) == Some(3);
    assert SkipWs(s, 3) == 3;
  }

  lemma TooNestedIsTrimmed(depth: nat)
    ensures TextLines.Strip(TooNested(depth)) == TooNested(depth) != ""
  {
    var s := TooNested(depth);
    assert s[0] == '"' && s[|s| - 1] == '[';
    TextLines.StripOfTrimmed(s);
  }

  /** Whatever the recursion limit, some text makes the error escape, although the two other decodes catch it. */
  lemma RecursionErrorEscapes(fence: string -> Option<string>, depth: nat)
    requires fence(TooNested(depth)).None?
    ensures Extract(TooNested(depth), fence, depth) == Error
  {
    var s := TooNested(depth);
    TooNestedIsTrimmed(depth);
    TooNestedIsNotLoaded(depth);
    TooNestedIsDirty(depth);
    var p := TooNestedRaises(depth);
    assert RaisesFirst(s, Inner(s, depth), 0, p, MAX_CANDIDATE_ATTEMPTS);
    ErrorExactly(s, fence, depth);
    assert Candidate(s, fence) == s;
  }
}
