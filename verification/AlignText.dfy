/** Binding the model's text to the detected boxes of a page: two reading orders are tried and
    the cheaper alignment wins, with the degenerate pages handled apart. */
module AlignText {
  import opened Boxes
  import opened LineBoxAlignment
  import opened Options
  import opened StableSorting
  import opened TextLines
  import DP = DpAligner
  import Order = ReadingOrder

  /** What the model returned: one string, or a list of them. */
  datatype LlmText = Text(s: string) | Items(items: seq<string>)

  type Tagged = (BBox, string)

  const FULL_PAGE := BBox(0.0, 0.0, 1.0, 1.0)

  function SplitAll(items: seq<string>): seq<string> {
    if items == [] then [] else SplitLines(items[0]) + SplitAll(items[1..])
  }

  function RawLines(t: LlmText): seq<string> {
    match t
    case Text(s) => if s == "" then [] else SplitLines(s)
    case Items(items) => SplitAll(items)
  }

  function StripAll(raw: seq<string>): seq<string> {
    if raw == [] then []
    else (if Strip(raw[0]) != "" then [Strip(raw[0])] else []) + StripAll(raw[1..])
  }

  function NormalizeLines(t: LlmText): seq<string> {
    StripAll(RawLines(t))
  }

  lemma {:induction false} StripAllTrims(raw: seq<string>)
    ensures forall l :: l in StripAll(raw) ==> Trimmed(l)
  {
    if raw != [] {
      StripTrims(raw[0]);
      StripAllTrims(raw[1..]);
    }
  }

  lemma JoinFlat(sep: string, a: seq<string>, b: seq<string>, a': seq<string>, b': seq<string>)
    requires Join(sep, a) == Join(sep, a') && Join(sep, b) == Join(sep, b')
    requires (a == [] <==> a' == []) && (b == [] <==> b' == [])
    ensures Join(sep, a + b) == Join(sep, a' + b')
  {
    if a == [] {
      assert a + b == b && a' + b' == b';
    } else if b == [] {
      assert a + b == a && a' + b' == a';
    } else {
      JoinAppend(sep, a, b);
      JoinAppend(sep, a', b');
    }
  }

  lemma {:induction false} SplitAllJoins(items: seq<string>)
    ensures Join("\n", SplitAll(items)) == Join("\n", items) && (SplitAll(items) == [] <==> items == [])
    ensures forall l :: l in SplitAll(items) ==> '\n' !in l
  {
    if items != [] {
      SplitLinesJoins(items[0]);
      SplitAllJoins(items[1..]);
      assert items == [items[0]] + items[1..];
      JoinFlat("\n", SplitLines(items[0]), SplitAll(items[1..]), [items[0]], items[1..]);
    }
  }

  /** The raw lines joined by line breaks are what the model returned, and none holds a line break. */
  lemma RawLinesJoin(t: LlmText)
    ensures t.Text? ==> Join("\n", RawLines(t)) == t.s
    ensures t.Items? ==> Join("\n", RawLines(t)) == Join("\n", t.items)
    ensures forall l :: l in RawLines(t) ==> '\n' !in l
  {
    match t
    case Text(s) => SplitLinesJoins(s);
    case Items(items) => SplitAllJoins(items);
  }

  /** `kept` are the lines of `raw` that are not blank, stripped and in order: line `k` comes from `at[k]`. */
  ghost predicate KeepsInOrder(raw: seq<string>, kept: seq<string>, at: seq<nat>) {
    && |at| == |kept|
    && (forall k :: 0 <= k < |at| ==> at[k] < |raw| && kept[k] == Strip(raw[at[k]]) != "")
    && (forall a, b :: 0 <= a < b < |at| ==> at[a] < at[b])
    && (forall i: nat :: i < |raw| && Strip(raw[i]) != "" ==> i in at)
  }

  lemma KeepsOneMore(raw: seq<string>, l: string, kept: seq<string>, at: seq<nat>)
    requires KeepsInOrder(raw, kept, at)
    ensures Strip(l) == "" ==> KeepsInOrder(raw + [l], kept, at)
    ensures Strip(l) != "" ==> KeepsInOrder(raw + [l], kept + [Strip(l)], at + [|raw|])
  {
  }

  lemma {:induction false} StripAllLast(raw: seq<string>, l: string)
    ensures StripAll(raw + [l]) == StripAll(raw) + if Strip(l) != "" then [Strip(l)] else []
  {
    if raw != [] {
      StripAllLast(raw[1..], l);
      assert (raw + [l])[1..] == raw[1..] + [l];
    }
  }

  /** Normalising keeps the lines that are not blank, stripped and in order. */
  lemma {:induction false} KeptInOrder(raw: seq<string>) returns (at: seq<nat>)
    ensures KeepsInOrder(raw, StripAll(raw), at)
  {
    at := [];
    if raw != [] {
      var front, l := raw[..|raw| - 1], raw[|raw| - 1];
      at := KeptInOrder(front);
      assert raw == front + [l];
      StripAllLast(front, l);
      KeepsOneMore(front, l, StripAll(front), at);
      if Strip(l) != "" { at := at + [|front|]; }
    }
  }

  // ----- From the mapping of boxes to texts -----

  function NonEmpty(texts: seq<string>): seq<string> {
    if texts == [] then []
    else NonEmpty(texts[..|texts| - 1]) + if texts[|texts| - 1] != "" then [texts[|texts| - 1]] else []
  }

  /** The text of each box: its lines joined by a space. */
  function BoxTexts(mapping: DP.Mapping, m: nat): seq<string> {
    if m == 0 then [] else BoxTexts(mapping, m - 1) + [Join(" ", DP.TextsOf(mapping, m - 1))]
  }

  lemma {:induction false} BoxTextsAt(mapping: DP.Mapping, m: nat)
    ensures |BoxTexts(mapping, m)| == m
    ensures forall k: nat :: k < m ==> BoxTexts(mapping, m)[k] == Join(" ", DP.TextsOf(mapping, k))
  {
    if m > 0 { BoxTextsAt(mapping, m - 1); }
  }

  /** Joining the texts of the boxes that got any is joining the gathered lines. */
  lemma {:induction false} JoinOfBoxTexts(mapping: DP.Mapping, m: nat)
    requires forall l :: l in DP.Gather(mapping, m) ==> Trimmed(l)
    ensures Join(" ", NonEmpty(BoxTexts(mapping, m))) == Join(" ", DP.Gather(mapping, m))
    ensures NonEmpty(BoxTexts(mapping, m)) == [] <==> DP.Gather(mapping, m) == []
  {
    if m > 0 {
      var before, lines := DP.Gather(mapping, m - 1), DP.TextsOf(mapping, m - 1);
      var text := Join(" ", lines);
      assert forall l :: l in before ==> l in DP.Gather(mapping, m);
      assert forall l :: l in lines ==> l in DP.Gather(mapping, m);
      JoinOfBoxTexts(mapping, m - 1);
      JoinOfTrimmed(" ", lines);
      var texts := BoxTexts(mapping, m - 1);
      assert (texts + [text])[..|texts|] == texts;
      JoinFlat(" ", NonEmpty(texts), if text != "" then [text] else [], before, lines);
    }
  }

  lemma {:induction false} GatheredTrimmed(mapping: DP.Mapping, m: nat, k: nat)
    requires k < m && forall l :: l in DP.Gather(mapping, m) ==> Trimmed(l)
    ensures forall l :: l in DP.TextsOf(mapping, k) ==> Trimmed(l)
  {
    assert forall l :: l in DP.Gather(mapping, m - 1) ==> l in DP.Gather(mapping, m);
    if k < m - 1 {
      GatheredTrimmed(mapping, m - 1, k);
    } else {
      assert forall l :: l in DP.TextsOf(mapping, k) ==> l in DP.Gather(mapping, m);
    }
  }

  // ----- The chosen reading order -----

  /** What the aligner returns for the boxes taken in the order `perm`. */
  datatype Outcome = Outcome(cost: real, mapping: DP.Mapping, matchCount: nat)

  function OutcomeOf(lines: seq<string>, boxes: seq<BBox>, perm: seq<nat>): Outcome {
    if !InRange(perm, |boxes|) then Outcome(0.0, map[], 0)
    else
      var p := PageOf(lines, Order.Select(boxes, perm));
      ChosenIsCheapest(p);
      Outcome(Cost(p, Chosen(p)), DP.Place(lines, Chosen(p)).mapping, Matches(Chosen(p)))
  }

  /** For every order, the aligner finds a match and keeps all lines in sequence, and its cost is
      the least over all alignments of the boxes so ordered. */
  lemma OutcomeIsSound(lines: seq<string>, boxes: seq<BBox>, perm: seq<nat>)
    requires lines != [] && boxes != [] && IsPermutation(perm, |boxes|)
    ensures Sound(lines, |boxes|, OutcomeOf(lines, boxes, perm))
    ensures var p := PageOf(lines, Order.Select(boxes, perm));
            forall ops :: Aligns(ops, |lines|, |boxes|) ==> OutcomeOf(lines, boxes, perm).cost <= Cost(p, ops)
  {
    var p := PageOf(lines, Order.Select(boxes, perm));
    ChosenIsCheapest(p);
    ChosenShape(p);
    DP.NothingLostOrReordered(lines, Chosen(p), |boxes|);
  }

  ghost predicate Sound(lines: seq<string>, boxCount: nat, o: Outcome) {
    && o.matchCount > 0
    && DP.Gather(o.mapping, boxCount) == lines
    && forall k :: k in o.mapping ==> k < boxCount
  }

  type Results = seq<nat> -> Outcome

  /** The first of the cheapest candidates. */
  function BestIn(result: Results, candidates: seq<seq<nat>>): (perm: seq<nat>)
    requires candidates != []
    ensures perm in candidates
  {
    if |candidates| == 1 then candidates[0]
    else
      var last := candidates[|candidates| - 1];
      var before := BestIn(result, candidates[..|candidates| - 1]);
      if result(last).cost < result(before).cost then last else before
  }

  lemma {:induction false} BestInIsCheapest(result: Results, candidates: seq<seq<nat>>)
    requires candidates != []
    ensures forall c :: c in candidates ==> result(BestIn(result, candidates)).cost <= result(c).cost
    ensures result(candidates[0]).cost == result(BestIn(result, candidates)).cost ==>
              BestIn(result, candidates) == candidates[0]
  {
    if |candidates| > 1 {
      BestInIsCheapest(result, candidates[..|candidates| - 1]);
      assert forall c :: c in candidates ==> c in candidates[..|candidates| - 1] || c == candidates[|candidates| - 1];
    }
  }

  /** Row by row, and column by column when that is another order. */
  ghost function CandidateOrders(boxes: seq<BBox>): (c: seq<seq<nat>>)
    ensures c != []
  {
    var row, col := Order.RowMajor(boxes), Order.ReadingOrder(boxes, 0);
    if col != row then [row, col] else [row]
  }

  ghost function ResultsOf(lines: seq<string>, boxes: seq<BBox>): Results {
    perm => OutcomeOf(lines, boxes, perm)
  }

  ghost function BestPerm(lines: seq<string>, boxes: seq<BBox>): seq<nat> {
    BestIn(ResultsOf(lines, boxes), CandidateOrders(boxes))
  }

  lemma CandidatesArePermutations(boxes: seq<BBox>)
    ensures forall c :: c in CandidateOrders(boxes) ==> IsPermutation(c, |boxes|)
  {
    Order.RowMajorIsPermutation(boxes);
    Order.ReadingOrderIsPermutation(boxes, 0);
  }

  lemma BothOrdersTried(boxes: seq<BBox>)
    ensures Order.RowMajor(boxes) == CandidateOrders(boxes)[0]
    ensures Order.ReadingOrder(boxes, 0) in CandidateOrders(boxes)
  {
  }

  /** No alignment in any of the orders tried is cheaper than the one in use, and rows are used
      unless columns are strictly cheaper. */
  lemma NoCheaperAlignment(lines: seq<string>, boxes: seq<BBox>, orders: seq<seq<nat>>, order: seq<nat>, ops: seq<Op>)
    requires lines != [] && boxes != [] && Aligns(ops, |lines|, |boxes|)
    requires order in orders && IsPermutation(order, |boxes|)
    ensures OutcomeOf(lines, boxes, BestIn(ResultsOf(lines, boxes), orders)).cost <=
            Cost(PageOf(lines, Order.Select(boxes, order)), ops)
  {
    var results := ResultsOf(lines, boxes);
    BestInIsCheapest(results, orders);
    assert results(order) == OutcomeOf(lines, boxes, order);
    assert results(BestIn(results, orders)) == OutcomeOf(lines, boxes, BestIn(results, orders));
    OutcomeIsSound(lines, boxes, order);
  }

  ghost predicate ResultsAre(result: Results, lines: seq<string>, boxes: seq<BBox>) {
    forall perm {:trigger OutcomeOf(lines, boxes, perm)} :: result(perm) == OutcomeOf(lines, boxes, perm)
  }

  method AlignInOrder(lines: seq<string>, boxes: seq<BBox>, perm: seq<nat>, ghost result: Results)
    returns (cost: real, mapping: DP.Mapping, matchCount: nat)
    requires lines != [] && boxes != [] && IsPermutation(perm, |boxes|) && ResultsAre(result, lines, boxes)
    ensures Outcome(cost, mapping, matchCount) == result(perm)
    ensures Sound(lines, |boxes|, result(perm))
  {
    cost, mapping, matchCount := DP.DpAlign(lines, Order.Select(boxes, perm));
    assert result(perm) == OutcomeOf(lines, boxes, perm);
  }

  /** Run the aligner over the candidate orders and keep the first cheapest. */
  method BestCandidate(lines: seq<string>, boxes: seq<BBox>, candidates: seq<seq<nat>>, ghost result: Results)
    returns (bestPerm: seq<nat>, bestMapping: DP.Mapping, bestMatchCount: nat)
    requires lines != [] && boxes != [] && candidates != [] && ResultsAre(result, lines, boxes)
    requires forall c :: c in candidates ==> IsPermutation(c, |boxes|)
    ensures bestPerm == BestIn(result, candidates)
    ensures bestMapping == result(bestPerm).mapping && bestMatchCount == result(bestPerm).matchCount
    ensures Sound(lines, |boxes|, result(bestPerm))
  {
    var bestCost: Option<real> := None; // the source's infinity
    bestPerm, bestMapping, bestMatchCount := candidates[0], map[], 0;
    for k := 0 to |candidates|
      invariant k == 0 <==> bestCost.None?
      invariant k > 0 ==>
                  && bestPerm == BestIn(result, candidates[..k])
                  && Outcome(bestCost.value, bestMapping, bestMatchCount) == result(bestPerm)
                  && Sound(lines, |boxes|, result(bestPerm))
    {
      var cost, mapping, matchCount := AlignInOrder(lines, boxes, candidates[k], result);
      assert candidates[..k + 1][..k] == candidates[..k];
      if bestCost.None? || cost < bestCost.value {
        bestCost := Some(cost);
        bestPerm, bestMapping, bestMatchCount := candidates[k], mapping, matchCount;
      }
    }
    assert candidates[..|candidates|] == candidates;
  }

  /** Write each box's joined text at the box's place in the input. */
  method PlaceTexts(boxCount: nat, perm: seq<nat>, mapping: DP.Mapping) returns (texts: seq<string>)
    requires IsPermutation(perm, boxCount) && forall k :: k in mapping ==> k < boxCount
    ensures |texts| == boxCount
    ensures forall k :: 0 <= k < boxCount ==> texts[perm[k]] == Strip(Join(" ", DP.TextsOf(mapping, k)))
  {
    texts := seq(boxCount, _ => "");
    var todo := mapping.Keys;
    while todo != {}
      invariant todo <= mapping.Keys && |texts| == boxCount
      invariant forall k :: 0 <= k < boxCount ==>
                  texts[perm[k]] == if k in todo then "" else Strip(Join(" ", DP.TextsOf(mapping, k)))
      decreases todo
    {
      var k :| k in todo;
      todo := todo - {k};
      assert forall l :: 0 <= l < boxCount && l != k ==> perm[l] != perm[k];
      texts := texts[perm[k] := Strip(Join(" ", mapping[k]))];
    }
  }

  /** The boxes of the result, taken in the order `perm`. */
  function InOrder(out: seq<Tagged>, perm: seq<nat>): (r: seq<string>)
    requires InRange(perm, |out|)
    ensures |r| == |perm|
  {
    seq(|perm|, k requires 0 <= k < |perm| => out[perm[k]].1)
  }

  /** On a page aligned box by box: every input box comes back in its place, and reading the texts
      in the chosen order gives back all the lines in order. */
  ghost predicate BoundByBox(data: seq<Tagged>, lines: seq<string>, perm: seq<nat>, out: seq<Tagged>) {
    && |out| == |data| == |perm|
    && InRange(perm, |out|)
    && (forall i :: 0 <= i < |data| ==> out[i].0 == data[i].0)
    && Join(" ", NonEmpty(InOrder(out, perm))) == Join(" ", lines)
  }

  lemma BoundFromMapping(data: seq<Tagged>, lines: seq<string>, perm: seq<nat>, mapping: DP.Mapping, out: seq<Tagged>)
    requires |out| == |data| && IsPermutation(perm, |data|)
    requires forall i :: 0 <= i < |data| ==> out[i].0 == data[i].0
    requires DP.Gather(mapping, |data|) == lines && forall l :: l in lines ==> Trimmed(l)
    requires forall k :: 0 <= k < |perm| ==> out[perm[k]].1 == Strip(Join(" ", DP.TextsOf(mapping, k)))
    ensures BoundByBox(data, lines, perm, out)
    ensures forall k :: 0 <= k < |perm| ==> out[perm[k]].1 == Join(" ", DP.TextsOf(mapping, k))
  {
    forall k | 0 <= k < |perm|
      ensures out[perm[k]].1 == Join(" ", DP.TextsOf(mapping, k))
    {
      GatheredTrimmed(mapping, |data|, k);
      JoinOfTrimmed(" ", DP.TextsOf(mapping, k));
      StripOfTrimmed(Join(" ", DP.TextsOf(mapping, k)));
    }
    BoxTextsAt(mapping, |data|);
    assert InOrder(out, perm) == BoxTexts(mapping, |data|);
    JoinOfBoxTexts(mapping, |data|);
  }

  method FindCandidates(boxes: seq<BBox>) returns (candidates: seq<seq<nat>>)
    ensures candidates == CandidateOrders(boxes)
    ensures IsPermutation(candidates[0], |boxes|) && Order.TopDown(boxes, candidates[0])
    ensures Order.InColumns(boxes, candidates[|candidates| - 1])
  {
    var rowMajor := Order.RowMajor(boxes);
    var colMajor := Order.ReadingOrderIndices(boxes);
    Order.RowMajorIsPermutation(boxes);
    Order.RowMajorSorts(boxes);
    candidates := [rowMajor];
    if colMajor != rowMajor {
      candidates := candidates + [colMajor];
    }
  }

  /** The alignment of the boxes taken in the order `perm`. */
  function OpsFor(lines: seq<string>, boxes: seq<BBox>, perm: seq<nat>): seq<Op>
    requires InRange(perm, |boxes|)
  {
    Chosen(PageOf(lines, Order.Select(boxes, perm)))
  }

  /** Each box, in the chosen order, has the lines from its match in the alignment up to the next. */
  ghost predicate SharedByMatches(lines: seq<string>, boxes: seq<BBox>, perm: seq<nat>, mapping: DP.Mapping) {
    && InRange(perm, |boxes|)
    && DP.SharedOut(lines, OpsFor(lines, boxes, perm), mapping)
    && DP.LinesGoHome(lines, OpsFor(lines, boxes, perm), mapping)
  }

  lemma OutcomeShares(lines: seq<string>, boxes: seq<BBox>, perm: seq<nat>)
    requires boxes != [] && IsPermutation(perm, |boxes|)
    ensures SharedByMatches(lines, boxes, perm, OutcomeOf(lines, boxes, perm).mapping)
  {
    var p := PageOf(lines, Order.Select(boxes, perm));
    ChosenIsCheapest(p);
    DP.PlaceSharesOut(lines, Chosen(p));
    DP.SharedOutGoHome(lines, Chosen(p), DP.Place(lines, Chosen(p)).mapping);
  }

  function BoxesOf(data: seq<Tagged>): seq<BBox> {
    seq(|data|, i requires 0 <= i < |data| => data[i].0)
  }

  /** What a page with lines and boxes becomes: one full-page tuple for a single line over five
      boxes or more, else every box bound to its lines, where the lines of the boxes in the chosen
      order are exactly the input lines in sequence. */
  ghost predicate Bound(data: seq<Tagged>, lines: seq<string>, perm: seq<nat>, mapping: DP.Mapping, out: seq<Tagged>) {
    if |lines| == 1 && |data| >= 5 then out == [(BBox(0.0, 0.0, 1.0, 1.0), Join("\n", lines))]
    else
      && BoundByBox(data, lines, perm, out)
      && DP.Gather(mapping, |data|) == lines
      && SharedByMatches(lines, BoxesOf(data), perm, mapping)
      && forall k :: 0 <= k < |perm| ==> out[perm[k]].1 == Join(" ", DP.TextsOf(mapping, k))
  }

  method BindByBox(data: seq<Tagged>, boxes: seq<BBox>, lines: seq<string>, candidates: seq<seq<nat>>, ghost result: Results)
    returns (out: seq<Tagged>)
    requires boxes == BoxesOf(data)
    requires lines != [] && boxes != [] && candidates != [] && ResultsAre(result, lines, boxes)
    requires forall l :: l in lines ==> Trimmed(l)
    requires forall c :: c in candidates ==> IsPermutation(c, |boxes|)
    ensures var perm := BestIn(result, candidates);
            Bound(data, lines, perm, result(perm).mapping, out)
  {
    var perm, mapping, matchCount := BestCandidate(lines, boxes, candidates, result);
    var isZeroMatch := matchCount == 0 && |lines| > 1;
    var isSingleLineManyBoxes := |lines| == 1 && |boxes| >= 5;
    assert !isZeroMatch;
    if isZeroMatch || isSingleLineManyBoxes {
      return [(FULL_PAGE, Join("\n", lines))];
    }
    var texts := PlaceTexts(|boxes|, perm, mapping);
    out := seq(|boxes|, i requires 0 <= i < |boxes| => (boxes[i], texts[i]));
    BoundFromMapping(data, lines, perm, mapping, out);
    assert result(perm) == OutcomeOf(lines, boxes, perm);
    OutcomeShares(lines, boxes, perm);
  }

  /** What the source's documentation promises of every page: one tuple per box, in input order. */
  predicate OneTuplePerBox(data: seq<Tagged>, out: seq<Tagged>) {
    |out| == |data| && forall i :: 0 <= i < |data| ==> out[i].0 == data[i].0
  }

  lemma BoundBoxes(data: seq<Tagged>, lines: seq<string>, perm: seq<nat>, mapping: DP.Mapping, out: seq<Tagged>)
    requires Bound(data, lines, perm, mapping, out)
    ensures OneTuplePerBox(data, out) <==> !(|lines| == 1 && |data| >= 5)
  {
  }

  /** One tuple per box in input order, except on two kinds of page that get one full-page tuple
      holding every line: no box at all, and one line for five boxes or more. The source's other
      full-page case, an alignment without a match, cannot arise. So the documented promise is
      kept exactly on all other pages. */
  method Align(data: seq<Tagged>, llmText: LlmText) returns (out: seq<Tagged>)
    ensures var lines := NormalizeLines(llmText);
            if data == [] then out == if lines == [] then [] else [(BBox(0.0, 0.0, 1.0, 1.0), Join("\n", lines))]
            else if lines == [] then out == seq(|data|, i requires 0 <= i < |data| => (data[i].0, ""))
            else
              var perm := BestPerm(lines, BoxesOf(data));
              Bound(data, lines, perm, ResultsOf(lines, BoxesOf(data))(perm).mapping, out)
    ensures var lines := NormalizeLines(llmText);
            OneTuplePerBox(data, out) <==> !(data == [] && lines != []) && !(|lines| == 1 && |data| >= 5)
  {
    var lines := NormalizeLines(llmText);
    var boxes := BoxesOf(data);
    if |boxes| == 0 && |lines| == 0 {
      return [];
    }
    if |boxes| == 0 {
      return [(FULL_PAGE, Join("\n", lines))];
    }
    if |lines| == 0 {
      return seq(|data|, i requires 0 <= i < |data| => (data[i].0, ""));
    }
    var candidates := FindCandidates(boxes);
    CandidatesArePermutations(boxes);
    StripAllTrims(RawLines(llmText));
    out := BindByBox(data, boxes, lines, candidates, ResultsOf(lines, boxes));
    BoundBoxes(data, lines, BestPerm(lines, boxes), ResultsOf(lines, boxes)(BestPerm(lines, boxes)).mapping, out);
  }
}
