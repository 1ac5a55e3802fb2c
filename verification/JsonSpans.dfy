/** The bracket scan over text that may hold JSON, against the decoder: a value the decoder accepts
    is crossed by the scan without a trace but for the spans inside it. */
module JsonSpans {
  import opened JsonDecoder
  import opened Options

  datatype Open = Open(index: nat, bracket: char)

  datatype Span = Span(start: nat, end: nat)

  datatype Scan = Scan(spans: seq<Span>, stack: seq<Open>, inString: bool, escaped: bool, dirty: bool)

  const INIT := Scan([], [], false, false, false)

  predicate IsClose(c: char) { c == '}' || c == ']' }

  // ----- The scan -----

  function Pop(st: Scan, i: nat, c: char): Scan
    requires st.stack != []
  {
    var top := st.stack[|st.stack| - 1];
    var popped := st.(stack := st.stack[..|st.stack| - 1]);
    if (top.bracket == '{') == (c == '}') then popped.(spans := st.spans + [Span(top.index, i)]) else popped
  }

  function Step(st: Scan, i: nat, c: char): Scan {
    if st.inString then
      if st.escaped then st.(escaped := false)
      else if c == '\\' then st.(escaped := true)
      else if c == '"' then st.(inString := false)
      else if IsOpen(c) then st.(dirty := true)
      else st
    else if c == '"' then st.(inString := true)
    else if IsOpen(c) then st.(stack := st.stack + [Open(i, c)])
    else if IsClose(c) && st.stack != [] then Pop(st, i, c)
    else st
  }

  /** The scan's state before the character at `n`. */
  function ScanTo(s: string, n: nat): Scan
    requires n <= |s|
  {
    if n == 0 then INIT else Step(ScanTo(s, n - 1), n - 1, s[n - 1])
  }

  /** The states of one scan of `s`, by position. */
  type States = nat -> Scan

  ghost predicate Scans(s: string, at: States) {
    forall k: nat {:trigger s[k]} :: k < |s| ==> at(k + 1) == Step(at(k), k, s[k])
  }

  function StatesOf(s: string): States {
    (k: nat) => if k <= |s| then ScanTo(s, k) else INIT
  }

  lemma ScansItself(s: string)
    ensures Scans(s, StatesOf(s))
  {
  }

  method BalancedSpans(s: string) returns (spans: seq<Span>, dirty: bool)
    ensures spans == ScanTo(s, |s|).spans && dirty == ScanTo(s, |s|).dirty
  {
    ScansItself(s);
    spans, dirty := ScanAll(s, StatesOf(s));
  }

  method ScanAll(s: string, ghost at: States) returns (spans: seq<Span>, dirty: bool)
    requires Scans(s, at) && at(0) == INIT
    ensures spans == at(|s|).spans && dirty == at(|s|).dirty
  {
    spans := [];
    var stack: seq<Open> := [];
    var inString, escaped := false, false;
    dirty := false;
    var i := 0;
    while i < |s|
      invariant 0 <= i <= |s|
      invariant at(i) == Scan(spans, stack, inString, escaped, dirty)
    {
      var ch := s[i];
      assert at(i + 1) == Step(at(i), i, ch);
      if inString {
        if escaped {
          escaped := false;
        } else if ch == '\\' {
          escaped := true;
        } else if ch == '"' {
          inString := false;
        } else if IsOpen(ch) {
          dirty := true;
        }
      } else if ch == '"' {
        inString := true;
      } else if IsOpen(ch) {
        stack := stack + [Open(i, ch)];
      } else if IsClose(ch) && stack != [] {
        var top := stack[|stack| - 1];
        stack := stack[..|stack| - 1];
        if (top.bracket == '{') == (ch == '}') {
          spans := spans + [Span(top.index, i)];
        }
      }
      i := i + 1;
    }
  }

  // ----- What every scan keeps -----

  predicate Apart(a: Span, b: Span) {
    a.end < b.start || b.end < a.start
  }

  predicate Inside(a: Span, b: Span) {
    b.start < a.start && a.end < b.end
  }

  predicate NestedOrApart(a: Span, b: Span) {
    Apart(a, b) || Inside(a, b) || Inside(b, a)
  }

  /** A span runs from an open bracket to a closing bracket of its kind. */
  predicate IsBalanced(s: string, p: Span) {
    p.start < p.end < |s| && IsOpen(s[p.start]) && s[p.end] == Closer(s[p.start])
  }

  ghost predicate StackOk(s: string, n: nat, stack: seq<Open>)
    requires n <= |s|
  {
    && (forall k :: 0 <= k < |stack| ==> stack[k].index < n && IsOpen(stack[k].bracket) && s[stack[k].index] == stack[k].bracket)
    && (forall j, k :: 0 <= j < k < |stack| ==> stack[j].index < stack[k].index)
  }

  ghost predicate SpansOk(s: string, n: nat, spans: seq<Span>)
    requires n <= |s|
  {
    && (forall k :: 0 <= k < |spans| ==> IsBalanced(s, spans[k]) && spans[k].end < n)
    && (forall j, k :: 0 <= j < k < |spans| ==> NestedOrApart(spans[j], spans[k]))
  }

  /** No bracket still open lies inside a span. */
  ghost predicate OutsideSpans(stack: seq<Open>, spans: seq<Span>) {
    forall j, k :: 0 <= j < |stack| && 0 <= k < |spans| ==> stack[j].index < spans[k].start || spans[k].end < stack[j].index
  }

  ghost predicate ScanOk(s: string, n: nat, st: Scan)
    requires n <= |s|
  {
    StackOk(s, n, st.stack) && SpansOk(s, n, st.spans) && OutsideSpans(st.stack, st.spans)
  }

  lemma PushKeepsOk(s: string, n: nat, stack: seq<Open>, spans: seq<Span>)
    requires n < |s| && StackOk(s, n, stack) && SpansOk(s, n, spans) && OutsideSpans(stack, spans) && IsOpen(s[n])
    ensures StackOk(s, n + 1, stack + [Open(n, s[n])]) && OutsideSpans(stack + [Open(n, s[n])], spans)
  {
  }

  lemma EmitKeepsOk(s: string, n: nat, spans: seq<Span>, p: Span)
    requires n < |s| && SpansOk(s, n, spans) && p.end == n && IsBalanced(s, p)
    requires forall k :: 0 <= k < |spans| ==> p.start < spans[k].start || spans[k].end < p.start
    ensures SpansOk(s, n + 1, spans + [p])
  {
    forall k | 0 <= k < |spans|
      ensures NestedOrApart(spans[k], p)
    {
    }
  }

  lemma PopKeepsOk(s: string, n: nat, st: Scan)
    requires n < |s| && ScanOk(s, n, st) && st.stack != [] && IsClose(s[n])
    ensures ScanOk(s, n + 1, Pop(st, n, s[n]))
  {
    var last := |st.stack| - 1;
    var top, rest := st.stack[last], st.stack[..last];
    assert StackOk(s, n + 1, rest);
    if (top.bracket == '{') == (s[n] == '}') {
      EmitKeepsOk(s, n, st.spans, Span(top.index, n));
      assert OutsideSpans(rest, st.spans + [Span(top.index, n)]);
    }
  }

  lemma StepKeepsOk(s: string, n: nat, st: Scan)
    requires n < |s| && ScanOk(s, n, st)
    ensures ScanOk(s, n + 1, Step(st, n, s[n]))
  {
    if st.inString {
    } else if IsOpen(s[n]) {
      PushKeepsOk(s, n, st.stack, st.spans);
    } else if IsClose(s[n]) && st.stack != [] {
      PopKeepsOk(s, n, st);
    }
  }

  lemma {:induction false} ScanKeepsOk(s: string, at: States, n: nat)
    requires Scans(s, at) && at(0) == INIT && n <= |s|
    ensures ScanOk(s, n, at(n))
  {
    if n > 0 {
      var before := at(n - 1);
      ScanKeepsOk(s, at, n - 1);
      assert at(n) == Step(before, n - 1, s[n - 1]);
      StepKeepsOk(s, n - 1, before);
    }
  }

  /** The emitted spans are balanced, and any two are nested or apart. */
  lemma SpansNestOrLieApart(s: string)
    ensures SpansOk(s, |s|, ScanTo(s, |s|).spans)
  {
    ScansItself(s);
    ScanKeepsOk(s, StatesOf(s), |s|);
  }

  /** Spans once emitted stay, and so does the dirty mark. */
  lemma {:induction false} ScanGrows(s: string, i: nat, j: nat)
    requires i <= j <= |s|
    ensures ScanTo(s, i).spans <= ScanTo(s, j).spans
    ensures ScanTo(s, i).dirty ==> ScanTo(s, j).dirty
    decreases j
  {
    if i < j { ScanGrows(s, i, j - 1); }
  }

  // ----- Crossing a decoded value -----

  predicate Outside(st: Scan) { !st.inString && !st.escaped }

  /** The scan goes on as before, with perhaps more spans. */
  predicate Resumes(before: Scan, after: Scan) {
    Outside(after) && after.stack == before.stack && before.spans <= after.spans
  }

  predicate StillInString(before: Scan, after: Scan) {
    after.inString && !after.escaped && after.stack == before.stack && after.spans == before.spans
  }

  lemma {:induction false} WsCrossed(s: string, at: States, i: nat)
    requires Scans(s, at) && i <= |s| && Outside(at(i))
    ensures at(SkipWs(s, i)) == at(i)
    decreases |s| - i
  {
    if i < |s| && IsWs(s[i]) { WsCrossed(s, at, i + 1); }
  }

  lemma {:induction false} ScalarCrossed(s: string, at: States, i: nat)
    requires Scans(s, at) && i <= |s| && Outside(at(i))
    ensures at(ScalarEnd(s, i)) == at(i)
    decreases |s| - i
  {
    if i < |s| && IsScalarChar(s[i]) { ScalarCrossed(s, at, i + 1); }
  }

  lemma ItemCrossed(s: string, at: States, i: nat)
    requires Scans(s, at) && i < |s| && at(i).inString && !at(i).escaped && ItemLength(s, i) > 0
    ensures StillInString(at(i), at(i + ItemLength(s, i)))
  {
    var n := ItemLength(s, i);
    assert at(i + 1) == Step(at(i), i, s[i]);
    if n >= 2 { assert at(i + 1 + 1) == Step(at(i + 1), i + 1, s[i + 1]); }
    if n == 6 {
      assert at(i + 2 + 1) == Step(at(i + 2), i + 2, s[i + 2]);
      assert at(i + 3 + 1) == Step(at(i + 3), i + 3, s[i + 3]);
      assert at(i + 4 + 1) == Step(at(i + 4), i + 4, s[i + 4]);
      assert at(i + 5 + 1) == Step(at(i + 5), i + 5, s[i + 5]);
    }
  }

  lemma {:induction false} StringCrossed(s: string, at: States, i: nat)
    requires Scans(s, at) && i <= |s| && at(i).inString && !at(i).escaped && StringEnd(s, i).Some?
    ensures Outside(at(StringEnd(s, i).value)) && at(StringEnd(s, i).value).stack == at(i).stack
    ensures at(StringEnd(s, i).value).spans == at(i).spans
    decreases |s| - i
  {
    if s[i] != '"' {
      ItemCrossed(s, at, i);
      StringCrossed(s, at, i + ItemLength(s, i));
    }
  }

  lemma QuotedCrossed(s: string, at: States, i: nat, q: nat)
    requires Scans(s, at) && i < |s| && Outside(at(i)) && s[i] == '"' && StringEnd(s, i + 1) == Some(q)
    ensures Resumes(at(i), at(q))
  {
    StringCrossed(s, at, i + 1);
  }

  /** The scan crosses whatever `one` decodes. */
  ghost predicate Crosses<T>(s: string, at: States, one: Decoder<T>) {
    forall i: nat {:trigger one(i)} :: one(i).Done? && i < one(i).end <= |s| && Outside(at(i)) ==> Resumes(at(i), at(one(i).end))
  }

  /** From behind an element at `m` over the comma to the next element. */
  lemma CommaCrossed(s: string, at: States, m: nat) returns (j: nat, n: nat)
    requires Scans(s, at) && m <= |s| && Outside(at(m)) && SkipWs(s, m) < |s| && s[SkipWs(s, m)] == ','
    ensures j == SkipWs(s, m) && n == SkipWs(s, j + 1) && at(n) == at(m)
  {
    j := SkipWs(s, m);
    n := SkipWs(s, j + 1);
    WsCrossed(s, at, m);
    assert at(j + 1) == Step(at(j), j, ',');
    WsCrossed(s, at, j + 1);
  }

  lemma ResumesOn(a: Scan, b: Scan, c: Scan)
    requires Resumes(a, b) && Resumes(b, c)
    ensures Resumes(a, c)
  {
  }

  /** Elements are crossed up to the closing bracket. */
  lemma {:induction false} ElementsCrossed<T>(s: string, at: States, one: Decoder<T>, close: char, i: nat, xs: seq<T>, e: nat)
    requires Scans(s, at) && Crosses(s, at, one) && i < e <= |s| && Outside(at(i))
    requires Elements(s, one, close, i) == Done(xs, e)
    ensures Resumes(at(i), at(e - 1)) && s[e - 1] == close
    decreases |s| - i
  {
    var m, j, n := ElementsParts(s, one, close, i, xs, e);
    if s[j] == close {
      WsCrossed(s, at, m);
    } else {
      var _, _ := CommaCrossed(s, at, m);
      ElementsCrossed(s, at, one, close, n, xs[1..], e);
      ResumesOn(at(i), at(m), at(e - 1));
    }
  }

  lemma MemberCrossed(s: string, at: States, inner: Decoder<Json>, i: nat, x: (string, Json), e: nat)
    requires Scans(s, at) && Crosses(s, at, inner) && AllSane(s, inner) && Outside(at(i))
    requires Member(s, inner, i) == Done(x, e)
    ensures Resumes(at(i), at(e))
  {
    var q, c, w := MemberParts(s, inner, i, x, e);
    QuotedCrossed(s, at, i, q);
    WsCrossed(s, at, q);
    assert at(c + 1) == Step(at(c), c, ':');
    WsCrossed(s, at, c + 1);
    assert Sane(s, w, inner(w));
  }

  lemma MembersCrossed(s: string, at: States, inner: Decoder<Json>)
    requires Scans(s, at) && Crosses(s, at, inner) && AllSane(s, inner)
    ensures Crosses(s, at, MemberAt(s, inner))
  {
    var mine := MemberAt(s, inner);
    forall i: nat {:trigger mine(i)} | mine(i).Done? && Outside(at(i))
      ensures Resumes(at(i), at(mine(i).end))
    {
      MemberCrossed(s, at, inner, i, mine(i).value, mine(i).end);
    }
  }

  lemma ContentsCrossed(s: string, at: States, inner: Decoder<Json>, open: char, j: nat, v: Json, e: nat)
    requires Scans(s, at) && Crosses(s, at, inner) && AllSane(s, inner)
    requires IsOpen(open) && j < e <= |s| && Outside(at(j)) && HasElements(s, inner, open, j, v, e)
    ensures Resumes(at(j), at(e - 1)) && s[e - 1] == Closer(open)
  {
    if open == '{' {
      MembersCrossed(s, at, inner);
      ElementsCrossed(s, at, MemberAt(s, inner), '}', j, v.members, e);
    } else {
      ElementsCrossed(s, at, inner, ']', j, v.items, e);
    }
  }

  /** From behind its open bracket, a container is crossed up to its closing bracket. */
  lemma InteriorCrossed(s: string, at: States, inner: Decoder<Json>, i: nat, v: Json, e: nat)
    requires Scans(s, at) && Crosses(s, at, inner) && AllSane(s, inner)
    requires i < |s| && IsOpen(s[i]) && Outside(at(i + 1)) && Container(s, inner, i) == Done(v, e)
    ensures i + 1 < e <= |s| && Resumes(at(i + 1), at(e - 1)) && s[e - 1] == Closer(s[i])
  {
    var j := ContainerParts(s, inner, i, v, e);
    WsCrossed(s, at, i + 1);
    if s[j] != Closer(s[i]) { ContentsCrossed(s, at, inner, s[i], j, v, e); }
  }

  /** A closing bracket that meets its open bracket emits their span. */
  lemma Closes(before: Scan, last: Scan, i: nat, open: char, n: nat)
    requires Outside(before) && IsOpen(open) && Resumes(Step(before, i, open), last)
    ensures Resumes(before, Step(last, n, Closer(open))) && Span(i, n) in Step(last, n, Closer(open)).spans
  {
    assert last.stack[|last.stack| - 1] == Open(i, open);
    var after := Step(last, n, Closer(open));
    assert after.spans[|after.spans| - 1] == Span(i, n);
  }

  lemma ContainerCrossed(s: string, at: States, inner: Decoder<Json>, i: nat, v: Json, e: nat)
    requires Scans(s, at) && Crosses(s, at, inner) && AllSane(s, inner)
    requires i < |s| && IsOpen(s[i]) && Outside(at(i)) && Container(s, inner, i) == Done(v, e)
    ensures i + 1 < e <= |s| && Resumes(at(i), at(e)) && Span(i, e - 1) in at(e).spans
  {
    var before := at(i);
    assert at(i + 1) == Step(before, i, s[i]);
    InteriorCrossed(s, at, inner, i, v, e);
    assert at(e - 1 + 1) == Step(at(e - 1), e - 1, s[e - 1]);
    Closes(before, at(e - 1), i, s[i], e - 1);
  }

  /** A decoded value leaves the scan as it was, and if it is a container its span has been emitted. */
  lemma {:induction false} ValueCrossed(s: string, at: States, depth: nat, i: nat, v: Json, e: nat)
    requires Scans(s, at) && Outside(at(i)) && Value(s, depth, i) == Done(v, e)
    ensures i < |s| && e <= |s| && Resumes(at(i), at(e))
    ensures IsOpen(s[i]) ==> i + 1 < e && Span(i, e - 1) in at(e).spans
    decreases depth, 1
  {
    if s[i] == '"' {
      QuotedCrossed(s, at, i, e);
    } else if IsOpen(s[i]) {
      InnerCrossed(s, at, depth);
      ContainerCrossed(s, at, Inner(s, depth - 1), i, v, e);
    } else {
      ScalarCrossed(s, at, i);
    }
  }

  lemma {:induction false} InnerCrossed(s: string, at: States, depth: nat)
    requires depth > 0 && Scans(s, at)
    ensures AllSane(s, Inner(s, depth - 1)) && Crosses(s, at, Inner(s, depth - 1))
    decreases depth, 0
  {
    var inner := Inner(s, depth - 1);
    forall k: nat
      ensures Sane(s, k, inner(k))
    {
      ValueSane(s, depth - 1, k);
    }
    forall i: nat {:trigger inner(i)} | inner(i).Done? && i < inner(i).end <= |s| && Outside(at(i))
      ensures Resumes(at(i), at(inner(i).end))
    {
      ValueCrossed(s, at, depth - 1, i, inner(i).value, inner(i).end);
    }
  }

  // ----- Which brackets the scan sees -----

  /** The bracket at `p` is not skipped as part of a string. */
  predicate Visible(s: string, p: nat) {
    p < |s| && IsOpen(s[p]) && !ScanTo(s, p).inString
  }

  lemma {:induction false} EscapedOnlyInString(s: string, n: nat)
    requires n <= |s|
    ensures ScanTo(s, n).escaped ==> ScanTo(s, n).inString && n > 0 && s[n - 1] == '\\'
    decreases n
  {
    if n > 0 { EscapedOnlyInString(s, n - 1); }
  }

  /** Every decodable visible bracket is the open end of an emitted span, whose close end is where the decode stops. */
  lemma DecodableIsSpanned(s: string, depth: nat, p: nat, v: Json, e: nat)
    requires Visible(s, p) && Value(s, depth, p) == Done(v, e)
    ensures p + 1 < e <= |s| && Span(p, e - 1) in ScanTo(s, |s|).spans
  {
    EscapedOnlyInString(s, p);
    ScansItself(s);
    ValueCrossed(s, StatesOf(s), depth, p, v, e);
    ScanGrows(s, e, |s|);
  }

  /** A span starts at a visible bracket. */
  lemma {:induction false} SpansAreVisible(s: string, n: nat)
    requires n <= |s|
    ensures forall k :: 0 <= k < |ScanTo(s, n).spans| ==> Visible(s, ScanTo(s, n).spans[k].start)
    ensures forall k :: 0 <= k < |ScanTo(s, n).stack| ==> Visible(s, ScanTo(s, n).stack[k].index)
    decreases n
  {
    if n > 0 { SpansAreVisible(s, n - 1); }
  }

  lemma SkippingMarks(st: Scan, i: nat, c: char)
    requires st.inString && !st.escaped && IsOpen(c)
    ensures Step(st, i, c).dirty
  {
  }

  /** When the scan is clean, the only brackets it did not see stand right after a backslash. */
  lemma CleanScanSeesAllButEscaped(s: string, p: nat)
    requires !ScanTo(s, |s|).dirty && p < |s| && IsOpen(s[p]) && !Visible(s, p)
    ensures p > 0 && s[p - 1] == '\\'
  {
    EscapedOnlyInString(s, p);
    if !ScanTo(s, p).escaped {
      SkippingMarks(ScanTo(s, p), p, s[p]);
      ScanGrows(s, p + 1, |s|);
    }
  }
}
