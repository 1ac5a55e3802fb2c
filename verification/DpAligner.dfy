/** The table-filling aligner itself: fill the cost and back-pointer tables, walk the
    back-pointers, replay the operations. Proved against the Bellman form. */
module DpAligner {
  import opened Boxes
  import opened LineBoxAlignment
  import opened Options

  /** An operation with the line and the box it ends at (-1 before the first). */
  datatype Step = Step(op: Op, line: int, box: int)

  function Annotate(ops: seq<Op>): seq<Step> {
    if ops == [] then []
    else Annotate(ops[..|ops| - 1]) + [Step(ops[|ops| - 1], LinesUsed(ops) - 1, BoxesUsed(ops) - 1)]
  }

  type Mapping = map<nat, seq<string>>

  function TextsOf(m: Mapping, box: nat): seq<string> {
    if box in m then m[box] else []
  }

  function Append(m: Mapping, box: nat, line: string): Mapping {
    m[box := TextsOf(m, box) + [line]]
  }

  /** What the replay knows after a prefix of the operations. */
  datatype Placement = Placement(mapping: Mapping, lastMatched: Option<nat>, matchCount: nat)

  /** The box that takes a skipped line: the latest matched one, or the first. */
  function Target(p: Placement): nat {
    if p.lastMatched.Some? then p.lastMatched.value else 0
  }

  /** A matched line goes to its box; a skipped line goes to the latest matched box, or to the
      first box while nothing is matched; a skipped box gets nothing. */
  function Place(lines: seq<string>, ops: seq<Op>): Placement
    requires LinesUsed(ops) <= |lines|
  {
    if ops == [] then Placement(map[], None, 0)
    else
      var before := Place(lines, ops[..|ops| - 1]);
      match ops[|ops| - 1]
      case Match =>
        var box := BoxesUsed(ops) - 1;
        Placement(Append(before.mapping, box, lines[LinesUsed(ops) - 1]), Some(box), before.matchCount + 1)
      case SkipLine =>
        before.(mapping := Append(before.mapping, Target(before), lines[LinesUsed(ops) - 1]))
      case SkipBox => before
  }

  /** The texts of boxes `0..m` one after the other. */
  function Gather(mapping: Mapping, m: nat): seq<string> {
    if m == 0 then [] else Gather(mapping, m - 1) + TextsOf(mapping, m - 1)
  }

  // ----- No text is lost or reordered -----

  /** Appending to a box after which every box is empty appends to the gathered texts. */
  lemma {:induction false} GatherAppend(mapping: Mapping, m: nat, box: nat, line: string)
    requires forall k :: k in mapping ==> k <= box
    ensures Gather(Append(mapping, box, line), m) ==
            Gather(mapping, m) + if box < m then [line] else []
  {
    if m > 0 {
      GatherAppend(mapping, m - 1, box, line);
      var before, texts := Gather(mapping, m - 1), TextsOf(mapping, m - 1);
      if m - 1 > box {
        assert texts == [];
      } else if m - 1 == box {
        assert before + (texts + [line]) == before + texts + [line];
      }
    }
  }

  ghost predicate PlacedSoFar(lines: seq<string>, p: Placement, used: nat, boxesUsed: nat, m: nat)
    requires used <= |lines|
  {
    && (p.lastMatched.Some? ==> p.lastMatched.value < boxesUsed)
    && (forall k :: k in p.mapping ==> k <= Target(p))
    && Gather(p.mapping, m) == lines[..used]
  }

  lemma PlaceStep(lines: seq<string>, before: Placement, used: nat, boxesUsed: nat, m: nat, box: nat)
    requires used < |lines| && PlacedSoFar(lines, before, used, boxesUsed, m)
    requires Target(before) <= box < m
    ensures var mapping := Append(before.mapping, box, lines[used]);
            && Gather(mapping, m) == lines[..used + 1]
            && forall k :: k in mapping ==> k <= box
  {
    GatherAppend(before.mapping, m, box, lines[used]);
    assert lines[..used + 1] == lines[..used] + [lines[used]];
  }

  lemma {:induction false} PlaceInvariant(lines: seq<string>, ops: seq<Op>, m: nat)
    requires LinesUsed(ops) <= |lines| && BoxesUsed(ops) <= m && 0 < m
    ensures PlacedSoFar(lines, Place(lines, ops), LinesUsed(ops), BoxesUsed(ops), m)
    ensures Place(lines, ops).matchCount == Matches(ops)
    decreases |ops|
  {
    if ops == [] {
      GatherNothing(m);
    } else {
      var front := ops[..|ops| - 1];
      PlaceInvariant(lines, front, m);
      var before := Place(lines, front);
      match ops[|ops| - 1]
      case Match =>
        PlaceStep(lines, before, LinesUsed(front), BoxesUsed(front), m, BoxesUsed(front));
      case SkipLine =>
        PlaceStep(lines, before, LinesUsed(front), BoxesUsed(front), m, Target(before));
      case SkipBox =>
    }
  }

  lemma {:induction false} GatherNothing(m: nat)
    ensures Gather(map[], m) == []
  {
    if m > 0 { GatherNothing(m - 1); }
  }

  /** Whatever the alignment, reading the boxes in order gives back exactly the lines in order. */
  lemma NothingLostOrReordered(lines: seq<string>, ops: seq<Op>, m: nat)
    requires Aligns(ops, |lines|, m) && 0 < m
    ensures Gather(Place(lines, ops).mapping, m) == lines
    ensures forall k :: k in Place(lines, ops).mapping ==> k < m
    ensures Place(lines, ops).matchCount == Matches(ops)
  {
    PlaceInvariant(lines, ops, m);
    assert lines[..|lines|] == lines;
  }

  // ----- Which box a line goes to -----

  /** The first match of box `b` or a later one; the number of operations if there is none. */
  function FirstMatchFrom(ops: seq<Op>, b: nat): (k: nat)
    ensures k <= |ops|
  {
    if ops == [] then 0
    else
      var front := ops[..|ops| - 1];
      var k := FirstMatchFrom(front, b);
      if k < |front| then k
      else if ops[|ops| - 1] == Match && BoxesUsed(front) >= b then |front|
      else |ops|
  }

  predicate MatchesFrom(ops: seq<Op>, k: nat, b: nat)
    requires k < |ops|
  {
    ops[k] == Match && BoxesUsed(ops[..k]) >= b
  }

  lemma {:induction false} FirstMatchIsFirst(ops: seq<Op>, b: nat)
    ensures var k := FirstMatchFrom(ops, b);
            && (k < |ops| ==> MatchesFrom(ops, k, b))
            && forall i :: 0 <= i < k ==> !MatchesFrom(ops, i, b)
  {
    if ops != [] {
      var front := ops[..|ops| - 1];
      FirstMatchIsFirst(front, b);
      forall i | 0 <= i < |front|
        ensures MatchesFrom(ops, i, b) <==> MatchesFrom(front, i, b)
      {
        assert front[..i] == ops[..i];
      }
      assert ops[..|front|] == front;
    }
  }

  /** The first of the lines that go to box `b` or a later one: the line of that match, as the lines of a box are its
      match's and those skipped behind it. The first box takes what is skipped before any match. */
  function Start(ops: seq<Op>, b: nat): nat {
    if b == 0 then 0 else LinesUsed(ops[..FirstMatchFrom(ops, b)])
  }

  /** Each box has exactly the lines from its own match up to the next box's. */
  ghost predicate SharedOut(lines: seq<string>, ops: seq<Op>, mapping: Mapping) {
    forall b: nat {:trigger HasItsLines(lines, ops, mapping, b)} :: HasItsLines(lines, ops, mapping, b)
  }

  predicate HasItsLines(lines: seq<string>, ops: seq<Op>, mapping: Mapping, b: nat) {
    Start(ops, b) <= Start(ops, b + 1) <= |lines| && TextsOf(mapping, b) == lines[Start(ops, b)..Start(ops, b + 1)]
  }

  /** One more operation moves the starts behind the latest match to the end, and settles those up to a new match. */
  lemma StartAfter(ops: seq<Op>, op: Op, b: nat)
    ensures FirstMatchFrom(ops, b) < |ops| ==> Start(ops + [op], b) == Start(ops, b)
    ensures FirstMatchFrom(ops, b) == |ops| && b > 0 ==>
              && Start(ops, b) == LinesUsed(ops)
              && Start(ops + [op], b) == LinesUsed(ops) + if (op == Match && BoxesUsed(ops) >= b) || op == SkipBox then 0 else 1
    ensures FirstMatchFrom(ops + [op], b) < |ops + [op]| <==>
              FirstMatchFrom(ops, b) < |ops| || (op == Match && BoxesUsed(ops) >= b)
  {
    var longer := ops + [op];
    assert longer[..|ops|] == ops && longer[..|longer|] == longer && ops[..|ops|] == ops;
    UsedAfter(ops, op);
    var k := FirstMatchFrom(ops, b);
    assert longer[..k] == ops[..k];
  }

  /** What is known of box `b` after a prefix of the operations; `target` is the box that takes skipped lines. */
  ghost predicate BoxSoFar(lines: seq<string>, ops: seq<Op>, mapping: Mapping, target: nat, b: nat) {
    && StartsSoFar(ops, target, b) && LinesUsed(ops) <= |lines|
    && TextsOf(mapping, b) == lines[Start(ops, b)..Start(ops, b + 1)]
  }

  predicate StartsSoFar(ops: seq<Op>, target: nat, b: nat) {
    && (b > target ==> FirstMatchFrom(ops, b) == |ops|)
    && (0 < b <= target ==> FirstMatchFrom(ops, b) < |ops|)
    && Start(ops, b) <= Start(ops, b + 1) <= LinesUsed(ops)
    && (b < target ==> FirstMatchFrom(ops, b + 1) < |ops|)
    && (b >= target ==> FirstMatchFrom(ops, b + 1) == |ops|)
  }

  lemma StartShared(ops: seq<Op>, op: Op, target: nat, box: nat, b: nat)
    requires b > 0 && (b > target <==> FirstMatchFrom(ops, b) == |ops|) && target <= box
    requires op != SkipBox && box == (if op == Match then BoxesUsed(ops) else target)
    ensures b > box <==> FirstMatchFrom(ops + [op], b) == |ops| + 1
    ensures b > target ==> Start(ops, b) == LinesUsed(ops)
    ensures Start(ops + [op], b) == if b > box then LinesUsed(ops) + 1 else Start(ops, b)
  {
    StartAfter(ops, op, b);
  }

  lemma StartsShared(ops: seq<Op>, op: Op, target: nat, box: nat, b: nat)
    requires StartsSoFar(ops, target, b) && target <= box
    requires op != SkipBox && box == (if op == Match then BoxesUsed(ops) else target)
    ensures StartsSoFar(ops + [op], box, b)
    ensures Start(ops + [op], b) == if b > box then LinesUsed(ops) + 1 else Start(ops, b)
    ensures Start(ops + [op], b + 1) == if b >= box then LinesUsed(ops) + 1 else Start(ops, b + 1)
    ensures b > 0 && b > target ==> Start(ops, b) == LinesUsed(ops)
    ensures b >= target ==> Start(ops, b + 1) == LinesUsed(ops)
  {
    UsedAfter(ops, op);
    var next := b + 1;
    assert next > target <==> FirstMatchFrom(ops, next) == |ops|;
    StartShared(ops, op, target, box, next);
    if b > 0 { StartShared(ops, op, target, box, b); }
  }

  lemma LineShared(lines: seq<string>, ops: seq<Op>, op: Op, mapping: Mapping, target: nat, box: nat, b: nat)
    requires LinesUsed(ops) < |lines| && BoxSoFar(lines, ops, mapping, target, b)
    requires op != SkipBox && box == (if op == Match then BoxesUsed(ops) else target) && target <= box
    ensures BoxSoFar(lines, ops + [op], Append(mapping, box, lines[LinesUsed(ops)]), box, b)
  {
    var n := LinesUsed(ops);
    UsedAfter(ops, op);
    StartsShared(ops, op, target, box, b);
    TextsGrow(lines, mapping, box, n, b, Start(ops, b), Start(ops, b + 1));
  }

  lemma TextsGrow(lines: seq<string>, mapping: Mapping, box: nat, n: nat, b: nat, from: nat, to: nat)
    requires from <= to <= n < |lines| && TextsOf(mapping, b) == lines[from..to]
    requires (b == box ==> to == n) && (b > box ==> from == to)
    ensures TextsOf(Append(mapping, box, lines[n]), b) ==
            lines[if b > box then n + 1 else from..if b >= box then n + 1 else to]
  {
    if b == box { assert lines[from..n + 1] == lines[from..n] + [lines[n]]; }
  }

  lemma BoxSkipped(lines: seq<string>, ops: seq<Op>, mapping: Mapping, target: nat, b: nat)
    requires BoxSoFar(lines, ops, mapping, target, b)
    ensures BoxSoFar(lines, ops + [SkipBox], mapping, target, b)
  {
    UsedAfter(ops, SkipBox);
    StartAfter(ops, SkipBox, b);
    StartAfter(ops, SkipBox, b + 1);
  }

  lemma {:induction false} MatchedBefore(lines: seq<string>, ops: seq<Op>)
    requires LinesUsed(ops) <= |lines|
    ensures var p := Place(lines, ops);
            p.lastMatched.Some? ==> p.lastMatched.value < BoxesUsed(ops)
  {
    if ops != [] { MatchedBefore(lines, ops[..|ops| - 1]); }
  }

  lemma {:induction false} PlaceShares(lines: seq<string>, ops: seq<Op>, b: nat)
    requires LinesUsed(ops) <= |lines|
    ensures BoxSoFar(lines, ops, Place(lines, ops).mapping, Target(Place(lines, ops)), b)
  {
    if ops != [] {
      var front, op := ops[..|ops| - 1], ops[|ops| - 1];
      assert ops == front + [op];
      PlaceShares(lines, front, b);
      MatchedBefore(lines, front);
      var before := Place(lines, front);
      match op
      case Match => LineShared(lines, front, op, before.mapping, Target(before), BoxesUsed(front), b);
      case SkipLine => LineShared(lines, front, op, before.mapping, Target(before), Target(before), b);
      case SkipBox => BoxSkipped(lines, front, before.mapping, Target(before), b);
    }
  }

  /** Replaying an alignment shares out the lines by its matches. */
  lemma PlaceSharesOut(lines: seq<string>, ops: seq<Op>)
    requires LinesUsed(ops) == |lines|
    ensures SharedOut(lines, ops, Place(lines, ops).mapping)
  {
    var mapping := Place(lines, ops).mapping;
    forall b: nat
      ensures HasItsLines(lines, ops, mapping, b)
    {
      PlaceShares(lines, ops, b);
    }
  }

  /** The box of the line that operation `k` uses: that of the latest match up to there, or the first. */
  ghost predicate IsHome(ops: seq<Op>, k: nat, b: nat)
    requires k < |ops|
  {
    || (exists j :: 0 <= j <= k && ops[j] == Match && BoxesUsed(ops[..j]) == b && forall i :: j < i <= k ==> ops[i] != Match)
    || (b == 0 && forall i :: 0 <= i <= k ==> ops[i] != Match)
  }

  /** Every line, matched or skipped, is in that box. */
  ghost predicate LinesGoHome(lines: seq<string>, ops: seq<Op>, mapping: Mapping) {
    forall k: nat, b: nat {:trigger IsHome(ops, k, b)} :: k < |ops| && ops[k] != SkipBox && IsHome(ops, k, b) ==>
      LinesUsed(ops[..k]) < |lines| && lines[LinesUsed(ops[..k])] in TextsOf(mapping, b)
  }

  lemma {:induction false} UsedInOrder(ops: seq<Op>, j: nat, k: nat)
    requires j <= k <= |ops|
    ensures LinesUsed(ops[..j]) <= LinesUsed(ops[..k]) && BoxesUsed(ops[..j]) <= BoxesUsed(ops[..k])
    ensures j < k && ops[k - 1] != SkipBox ==> LinesUsed(ops[..j]) < LinesUsed(ops[..k])
    ensures j < k && ops[j] == Match ==> BoxesUsed(ops[..j]) < BoxesUsed(ops[..k])
    decreases k
  {
    if j < k {
      UsedInOrder(ops, j, k - 1);
      assert ops[..k] == ops[..k - 1] + [ops[k - 1]];
      UsedAfter(ops[..k - 1], ops[k - 1]);
    }
  }

  lemma LineBehindStart(ops: seq<Op>, k: nat, b: nat)
    requires k < |ops| && IsHome(ops, k, b)
    ensures Start(ops, b) <= LinesUsed(ops[..k])
  {
    if j :| 0 <= j <= k && ops[j] == Match && BoxesUsed(ops[..j]) == b && forall i :: j < i <= k ==> ops[i] != Match {
      FirstMatchIsFirst(ops, b);
      assert MatchesFrom(ops, j, b);
      UsedInOrder(ops, FirstMatchFrom(ops, b), j);
      UsedInOrder(ops, j, k);
    }
  }

  lemma NextMatchBehind(ops: seq<Op>, k: nat, b: nat)
    requires k < |ops| && IsHome(ops, k, b)
    ensures k < FirstMatchFrom(ops, b + 1)
  {
    var next := FirstMatchFrom(ops, b + 1);
    FirstMatchIsFirst(ops, b + 1);
    if next <= k {
      if j :| 0 <= j <= k && ops[j] == Match && BoxesUsed(ops[..j]) == b && forall i :: j < i <= k ==> ops[i] != Match {
        UsedInOrder(ops, next, j);
      }
    }
  }

  /** The line that operation `k` uses lies between the starts of its box and of the next. */
  lemma LineBetweenStarts(ops: seq<Op>, k: nat, b: nat)
    requires k < |ops| && ops[k] != SkipBox && IsHome(ops, k, b)
    ensures Start(ops, b) <= LinesUsed(ops[..k]) < Start(ops, b + 1)
  {
    LineBehindStart(ops, k, b);
    NextMatchBehind(ops, k, b);
    UsedInOrder(ops, k + 1, FirstMatchFrom(ops, b + 1));
    UsedInOrder(ops, k, k + 1);
  }

  lemma SharedOutGoHome(lines: seq<string>, ops: seq<Op>, mapping: Mapping)
    requires SharedOut(lines, ops, mapping)
    ensures LinesGoHome(lines, ops, mapping)
  {
    forall k: nat, b: nat {:trigger IsHome(ops, k, b)} | k < |ops| && ops[k] != SkipBox && IsHome(ops, k, b)
      ensures LinesUsed(ops[..k]) < |lines| && lines[LinesUsed(ops[..k])] in TextsOf(mapping, b)
    {
      LineBetweenStarts(ops, k, b);
      var l := LinesUsed(ops[..k]);
      assert HasItsLines(lines, ops, mapping, b);
      assert TextsOf(mapping, b)[l - Start(ops, b)] == lines[l];
    }
  }

  // ----- The tables -----

  ghost predicate CellOk(p: Page, dp: array2<real>, back: array2<Op>, i: nat, j: nat)
    requires i <= |p.costs| && j <= p.boxCount && Sized(p, dp, back)
    reads dp, back
  {
    dp[i, j] == Best(p, i, j) && (i > 0 || j > 0 ==> back[i, j] == BestOp(p, i, j))
  }

  predicate Sized(p: Page, dp: array2<real>, back: array2<Op>) {
    && dp.Length0 == back.Length0 == |p.costs| + 1
    && dp.Length1 == back.Length1 == p.boxCount + 1
  }

  /** The border and every cell before `(i, j)` in row order. */
  predicate Filled(i: nat, j: nat, k: nat, l: nat) {
    k == 0 || l == 0 || k < i || (k == i && l < j)
  }

  ghost predicate TableOk(p: Page, dp: array2<real>, back: array2<Op>, i: nat, j: nat)
    requires Sized(p, dp, back)
    reads dp, back
  {
    forall k: nat, l: nat :: k <= |p.costs| && l <= p.boxCount && Filled(i, j, k, l) ==> CellOk(p, dp, back, k, l)
  }

  ghost predicate PointersOk(p: Page, back: array2<Op>)
    reads back
  {
    && back.Length0 == |p.costs| + 1 && back.Length1 == p.boxCount + 1
    && forall i: nat, j: nat :: i <= |p.costs| && j <= p.boxCount && (i > 0 || j > 0) ==> back[i, j] == BestOp(p, i, j)
  }

  lemma TablePointersOk(p: Page, dp: array2<real>, back: array2<Op>)
    requires Sized(p, dp, back) && TableOk(p, dp, back, |p.costs| + 1, p.boxCount + 1)
    ensures PointersOk(p, back) && dp[|p.costs|, p.boxCount] == Best(p, |p.costs|, p.boxCount)
  {
    assert CellOk(p, dp, back, |p.costs|, p.boxCount);
    forall i: nat, j: nat | i <= |p.costs| && j <= p.boxCount && (i > 0 || j > 0)
      ensures back[i, j] == BestOp(p, i, j)
    {
      assert CellOk(p, dp, back, i, j);
    }
  }

  method FillBorder(ghost p: Page, dp: array2<real>, back: array2<Op>)
    requires Sized(p, dp, back)
    modifies dp, back
    ensures TableOk(p, dp, back, 1, 1)
  {
    var n, m := dp.Length0 - 1, dp.Length1 - 1;
    dp[0, 0] := 0.0;
    for j := 1 to m + 1
      invariant forall l: nat :: l < j ==> CellOk(p, dp, back, 0, l)
    {
      assert CellOk(p, dp, back, 0, j - 1);
      label before:
      dp[0, j] := dp[0, j - 1] + SKIP_BOX_COST;
      back[0, j] := SkipBox;
      forall l: nat | l < j ensures CellOk(p, dp, back, 0, l) {
        assert old@before(CellOk(p, dp, back, 0, l));
      }
    }
    for i := 1 to n + 1
      invariant forall l: nat :: l <= m ==> CellOk(p, dp, back, 0, l)
      invariant forall k: nat :: k < i ==> CellOk(p, dp, back, k, 0)
    {
      assert CellOk(p, dp, back, i - 1, 0);
      label before:
      dp[i, 0] := dp[i - 1, 0] + SKIP_LINE_COST;
      back[i, 0] := SkipLine;
      forall l: nat | l <= m ensures CellOk(p, dp, back, 0, l) {
        assert old@before(CellOk(p, dp, back, 0, l));
      }
      forall k: nat | k < i ensures CellOk(p, dp, back, k, 0) {
        assert old@before(CellOk(p, dp, back, k, 0));
      }
    }
  }

  method FillCell(ghost p: Page, dp: array2<real>, back: array2<Op>, i: nat, j: nat, matchCost: real)
    requires Sized(p, dp, back) && 0 < i <= |p.costs| && 0 < j <= p.boxCount
    requires TableOk(p, dp, back, i, j) && matchCost == At(p, i - 1, j - 1)
    modifies dp, back
    ensures TableOk(p, dp, back, i, j + 1)
  {
    assert CellOk(p, dp, back, i - 1, j - 1) && CellOk(p, dp, back, i - 1, j) && CellOk(p, dp, back, i, j - 1);
    var mCost := dp[i - 1, j - 1] + matchCost;
    var slCost := dp[i - 1, j] + SKIP_LINE_COST;
    var sbCost := dp[i, j - 1] + SKIP_BOX_COST;
    var best, op := mCost, Match;
    if slCost < best {
      best, op := slCost, SkipLine;
    }
    if sbCost < best {
      best, op := sbCost, SkipBox;
    }
    dp[i, j] := best;
    back[i, j] := op;
    assert CellOk(p, dp, back, i, j);
    forall k: nat, l: nat | k <= |p.costs| && l <= p.boxCount && Filled(i, j, k, l)
      ensures CellOk(p, dp, back, k, l)
    {
      assert old(CellOk(p, dp, back, k, l));
    }
  }

  method FillTable(lines: seq<string>, boxes: seq<BBox>) returns (dp: array2<real>, back: array2<Op>)
    requires boxes != []
    ensures fresh(dp) && fresh(back)
    ensures var p := PageOf(lines, boxes);
            && Sized(p, dp, back)
            && TableOk(p, dp, back, |lines| + 1, |boxes| + 1)
  {
    ghost var p := PageOf(lines, boxes);
    var n, m := |lines|, |boxes|;
    var expected := Expected(Capacities(boxes), TotalChars(lines) as real);
    // The source starts every cell at infinity and every pointer at "match"; no cell is read
    // before it is set, so the cells start arbitrary here.
    dp := new real[n + 1, m + 1];
    back := new Op[n + 1, m + 1];
    FillBorder(p, dp, back);
    for i := 1 to n + 1
      invariant TableOk(p, dp, back, i, 1)
    {
      for j := 1 to m + 1
        invariant TableOk(p, dp, back, i, j)
      {
        FillCell(p, dp, back, i, j, MatchCost(|lines[i - 1]|, expected[j - 1]));
      }
    }
  }

  /** `list.reverse()`. */
  function Reversed<T>(s: seq<T>): seq<T> {
    seq(|s|, k requires 0 <= k < |s| => s[|s| - 1 - k])
  }

  /** Along `path`, the pointer at the corner each prefix reaches is the last operation of that prefix. */
  ghost predicate Points(back: array2<Op>, path: seq<Op>)
    reads back
  {
    && back.Length0 == LinesUsed(path) + 1 && back.Length1 == BoxesUsed(path) + 1
    && forall k :: 0 < k <= |path| ==> PointsAt(back, path, k)
  }

  ghost predicate PointsAt(back: array2<Op>, path: seq<Op>, k: nat)
    requires 0 < k <= |path|
    reads back
  {
    var i, j := LinesUsed(path[..k]), BoxesUsed(path[..k]);
    i < back.Length0 && j < back.Length1 && back[i, j] == path[k - 1]
  }

  /** Every prefix of the chosen alignment is the chosen alignment of what it covers. */
  lemma {:induction false} PrefixOfBest(p: Page, i: nat, j: nat, k: nat)
    requires i <= |p.costs| && j <= p.boxCount && 0 < k <= |BestOps(p, i, j)|
    ensures var prefix := BestOps(p, i, j)[..k];
            && LinesUsed(prefix) <= i && BoxesUsed(prefix) <= j
            && 0 < LinesUsed(prefix) + BoxesUsed(prefix)
            && prefix[k - 1] == BestOp(p, LinesUsed(prefix), BoxesUsed(prefix))
    decreases i + j
  {
    var i', j' := BestStep(p, i, j);
    var ops := BestOps(p, i, j);
    if k == |ops| {
      BestOpsAlign(p, i, j);
      assert ops[..k] == ops;
    } else {
      PrefixOfBest(p, i', j', k);
      assert ops[..k] == BestOps(p, i', j')[..k];
    }
  }

  lemma PointersAlongChosen(p: Page, back: array2<Op>)
    requires PointersOk(p, back)
    ensures Points(back, Chosen(p))
  {
    ChosenIsCheapest(p);
    forall k | 0 < k <= |Chosen(p)|
      ensures PointsAt(back, Chosen(p), k)
    {
      PrefixOfBest(p, |p.costs|, p.boxCount, k);
    }
  }

  lemma {:induction false} EveryOpUses(ops: seq<Op>)
    ensures |ops| <= LinesUsed(ops) + BoxesUsed(ops)
  {
    if ops != [] { EveryOpUses(ops[..|ops| - 1]); }
  }

  /** Walk the back-pointers from the far corner. The pointer met always has room to be
      followed, so the source's fallback branch is never taken. */
  method Backtrack(back: array2<Op>, ghost path: seq<Op>) returns (steps: seq<Step>)
    requires Points(back, path)
    ensures steps == Annotate(path)
  {
    var i: nat, j: nat := back.Length0 - 1, back.Length1 - 1;
    var ops: seq<Step> := [];
    ghost var k := |path|;
    ghost var wanted := Annotate(path);
    AnnotateLength(path);
    assert path[..k] == path;
    while i > 0 || j > 0
      invariant |ops| + k == |path|
      invariant i == LinesUsed(path[..k]) && j == BoxesUsed(path[..k])
      invariant forall t :: 0 <= t < |ops| ==> ops[t] == wanted[|path| - 1 - t]
      decreases i + j
    {
      assert k > 0 && PointsAt(back, path, k);
      k := k - 1;
      assert path[..k + 1] == path[..k] + [path[k]];
      UsedAfter(path[..k], path[k]);
      AnnotateAt(path, k);
      var op := back[i, j];
      if op == Match && i > 0 && j > 0 {
        ops := ops + [Step(Match, i - 1, j - 1)];
        i, j := i - 1, j - 1;
      } else if op == SkipLine && i > 0 {
        ops := ops + [Step(SkipLine, i - 1, if j > 0 then j - 1 else -1)];
        i := i - 1;
      } else if op == SkipBox && j > 0 {
        ops := ops + [Step(SkipBox, if i > 0 then i - 1 else -1, j - 1)];
        j := j - 1;
      } else {
        assert false;
      }
    }
    EveryOpUses(path[..k]);
    steps := Reversed(ops);
  }

  /** Replay the operations in reading order. */
  method Replay(lines: seq<string>, steps: seq<Step>, ghost ops: seq<Op>)
    returns (mapping: Mapping, matchCount: nat)
    requires LinesUsed(ops) <= |lines| && steps == Annotate(ops)
    ensures mapping == Place(lines, ops).mapping
    ensures matchCount == Place(lines, ops).matchCount
  {
    mapping := map[];
    matchCount := 0;
    var lastMatched: Option<nat> := None;
    AnnotateLength(ops);
    assert ops[..0] == [];
    for k := 0 to |steps|
      invariant LinesUsed(ops[..k]) <= |lines|
      invariant Placement(mapping, lastMatched, matchCount) == Place(lines, ops[..k])
    {
      AnnotateAt(ops, k);
      UsedGrows(ops, k + 1);
      assert ops[..k + 1][..k] == ops[..k];
      var step := steps[k];
      if step.op == Match {
        mapping := Append(mapping, step.box, lines[step.line]);
        lastMatched := Some(step.box);
        matchCount := matchCount + 1;
      } else if step.op == SkipLine && step.line >= 0 {
        var target := if lastMatched.Some? then lastMatched.value else 0;
        mapping := Append(mapping, target, lines[step.line]);
      }
    }
    assert ops[..|ops|] == ops;
  }

  lemma {:induction false} AnnotateLength(ops: seq<Op>)
    ensures |Annotate(ops)| == |ops|
  {
    if ops != [] { AnnotateLength(ops[..|ops| - 1]); }
  }

  lemma {:induction false} AnnotateAt(ops: seq<Op>, k: nat)
    requires k < |ops|
    ensures |Annotate(ops)| == |ops|
    ensures Annotate(ops)[k] == Step(ops[k], LinesUsed(ops[..k + 1]) - 1, BoxesUsed(ops[..k + 1]) - 1)
    decreases |ops|
  {
    AnnotateLength(ops[..|ops| - 1]);
    if k < |ops| - 1 {
      AnnotateAt(ops[..|ops| - 1], k);
      assert ops[..|ops| - 1][..k + 1] == ops[..k + 1];
    } else {
      assert ops[..k + 1] == ops;
    }
  }

  lemma {:induction false} UsedGrows(ops: seq<Op>, k: nat)
    requires k <= |ops|
    ensures LinesUsed(ops[..k]) <= LinesUsed(ops) && BoxesUsed(ops[..k]) <= BoxesUsed(ops)
    decreases |ops|
  {
    if k < |ops| {
      UsedGrows(ops[..|ops| - 1], k);
      assert ops[..|ops| - 1][..k] == ops[..k];
    } else {
      assert ops[..k] == ops;
    }
  }

  /** The whole aligner. With a line and a box to align, the cost is the least over every
      monotone alignment, the mapping is that of an alignment costing exactly this (the one the
      tie rule names), no line is lost or moved out of order, there is a match, and each box has
      exactly the lines from its match up to the next, the first box also those before any match. */
  method DpAlign(lines: seq<string>, boxes: seq<BBox>) returns (cost: real, mapping: Mapping, matchCount: nat)
    ensures lines == [] || boxes == [] ==> cost == 0.0 && mapping == map[] && matchCount == 0
    ensures lines != [] && boxes != [] ==>
              var p := PageOf(lines, boxes);
              && Aligns(Chosen(p), |lines|, |boxes|)
              && cost == Cost(p, Chosen(p))
              && (forall other :: Aligns(other, |lines|, |boxes|) ==> cost <= Cost(p, other))
              && mapping == Place(lines, Chosen(p)).mapping
              && matchCount == Matches(Chosen(p))
    ensures lines != [] && boxes != [] ==>
              && matchCount > 0
              && Gather(mapping, |boxes|) == lines
              && (forall k :: k in mapping ==> k < |boxes|)
              && SharedOut(lines, Chosen(PageOf(lines, boxes)), mapping)
              && LinesGoHome(lines, Chosen(PageOf(lines, boxes)), mapping)
  {
    if |lines| == 0 || |boxes| == 0 {
      return 0.0, map[], 0;
    }
    ghost var p := PageOf(lines, boxes);
    var dp, back := FillTable(lines, boxes);
    TablePointersOk(p, dp, back);
    ChosenIsCheapest(p);
    ChosenShape(p);
    PointersAlongChosen(p, back);
    var steps := Backtrack(back, Chosen(p));
    mapping, matchCount := Replay(lines, steps, Chosen(p));
    cost := dp[|lines|, |boxes|];
    NothingLostOrReordered(lines, Chosen(p), |boxes|);
    PlaceSharesOut(lines, Chosen(p));
    SharedOutGoHome(lines, Chosen(p), mapping);
  }
}
