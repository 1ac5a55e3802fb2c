/** The cost model of the line-to-box aligner and what a monotone alignment is,
    with the Bellman form of the cheapest alignment and its optimality. */
module LineBoxAlignment {

  import opened Boxes

  const SKIP_LINE_COST := 1.0
  const SKIP_BOX_COST := 0.4
  const MIN_AREA := 0.000001

  // ----- Costs -----

  function Capacity(b: BBox): real {
    Max(MIN_AREA, Abs(b.x1 - b.x0) * Abs(b.y1 - b.y0))
  }

  predicate Positive(caps: seq<real>) {
    forall k :: 0 <= k < |caps| ==> caps[k] > 0.0
  }

  function Capacities(boxes: seq<BBox>): (caps: seq<real>)
    ensures |caps| == |boxes| && Positive(caps) && forall k :: 0 <= k < |caps| ==> caps[k] == Capacity(boxes[k])
  {
    seq(|boxes|, k requires 0 <= k < |boxes| => Capacity(boxes[k]))
  }

  function Sum(xs: seq<real>): real {
    if xs == [] then 0.0 else Sum(xs[..|xs| - 1]) + xs[|xs| - 1]
  }

  lemma {:induction false} SumPositive(caps: seq<real>)
    requires Positive(caps)
    ensures 0.0 <= Sum(caps) && (caps != [] ==> 0.0 < Sum(caps))
  {
    if caps != [] { SumPositive(caps[..|caps| - 1]); }
  }

  function CharCount(lines: seq<string>): nat {
    if lines == [] then 0 else CharCount(lines[..|lines| - 1]) + |lines[|lines| - 1]|
  }

  /** Characters add up over lists of lines, and one line has its own. */
  lemma {:induction false} CharCountAdds(a: seq<string>, b: seq<string>)
    ensures CharCount(a + b) == CharCount(a) + CharCount(b)
    ensures |b| == 1 ==> CharCount(b) == |b[0]|
  {
    if b == [] {
      assert a + b == a;
    } else {
      var front := b[..|b| - 1];
      assert (a + b)[..|a + b| - 1] == a + front;
      CharCountAdds(a, front);
    }
  }

  function TotalChars(lines: seq<string>): nat {
    if CharCount(lines) < 1 then 1 else CharCount(lines)
  }

  /** All of `chars`, shared out by capacity. */
  function Expected(caps: seq<real>, chars: real): (e: seq<real>)
    requires Positive(caps)
    ensures |e| == |caps|
  {
    SumPositive(caps);
    seq(|caps|, k requires 0 <= k < |caps| => caps[k] / Sum(caps) * chars)
  }

  /** The characters a box is expected to hold: its share of all characters. */
  function ExpectedChars(lines: seq<string>, boxes: seq<BBox>, j: nat): real
    requires j < |boxes|
  {
    Expected(Capacities(boxes), TotalChars(lines) as real)[j]
  }

  /** The mismatch of putting `lineChars` characters where `expectedChars` are expected. */
  function MatchCost(lineChars: nat, expectedChars: real): real {
    var expected := Max(1.0, expectedChars);
    var actual := Max(1.0, lineChars as real);
    if actual > expected then (actual - expected) / actual
    else (expected - actual) / expected * 0.5
  }

  lemma DivideInUnit(a: real, b: real)
    requires 0.0 <= a < b
    ensures 0.0 <= a / b < 1.0
  {
    var q := a / b;
    assert q * b == a;
  }

  /** A box that is not too small has its area as capacity, whichever way round its corners are given. */
  lemma CapacityIsArea(x: real, y: real, w: real, h: real)
    requires 0.0 <= w && 0.0 <= h && w * h >= 0.000001
    ensures Capacity(BBox(x, y, x + w, y + h)) == w * h
    ensures Capacity(BBox(x + w, y, x, y + h)) == Capacity(BBox(x, y + h, x + w, y)) == w * h
  {
    assert x + w - x == w && y + h - y == h;
    assert Abs(x - (x + w)) == w && Abs(y - (y + h)) == h;
  }

  /** A smaller one counts as a millionth. */
  lemma CapacityFloor(b: BBox)
    ensures Capacity(b) >= 0.000001
    ensures b.x0 == b.x1 || b.y0 == b.y1 ==> Capacity(b) == 0.000001
  {
  }

  lemma ShareTimesTotal(a: real, total: real, n: real)
    requires total > 0.0
    ensures a / total * n * total == a * n
  {
    var p := a / total;
    assert p * total == a;
    assert p * n * total == p * total * n;
  }

  lemma CrossShares(x: real, y: real, a: real, b: real, total: real, n: real)
    requires total > 0.0 && IsShare(x, total, a, n) && IsShare(y, total, b, n)
    ensures x * b == y * a
  {
    var u, v := x * b, y * a;
    assert u * total == x * total * b && v * total == y * total * a;
    assert a * n * b == b * n * a;
    assert (u - v) * total == 0.0;
  }

  /** Boxes are expected to hold characters in proportion to their capacities, */
  lemma ExpectedByCapacity(caps: seq<real>, chars: real, j: nat, k: nat)
    requires Positive(caps) && j < |caps| && k < |caps|
    ensures Expected(caps, chars)[j] * caps[k] == Expected(caps, chars)[k] * caps[j]
  {
    SumPositive(caps);
    var x, y, total := Expected(caps, chars)[j], Expected(caps, chars)[k], Sum(caps);
    ShareOf(caps[j], total, chars, x);
    ShareOf(caps[k], total, chars, y);
    CrossShares(x, y, caps[j], caps[k], total, chars);
  }

  predicate IsShare(x: real, total: real, a: real, chars: real) {
    x * total == a * chars
  }

  ghost predicate AreShares(caps: seq<real>, e: seq<real>, chars: real, total: real) {
    |e| == |caps| && forall k :: 0 <= k < |e| ==> IsShare(e[k], total, caps[k], chars)
  }

  lemma {:induction false} SharesAddUp(caps: seq<real>, e: seq<real>, chars: real, total: real)
    requires AreShares(caps, e, chars, total)
    ensures IsShare(Sum(e), total, Sum(caps), chars)
    decreases |caps|
  {
    if caps != [] {
      var n := |caps| - 1;
      SharesAddUp(caps[..n], e[..n], chars, total);
      AddTimes(Sum(e[..n]), e[n], total, Sum(caps[..n]), caps[n], chars);
    }
  }

  lemma AddTimes(x: real, y: real, total: real, a: real, b: real, n: real)
    requires IsShare(x, total, a, n) && IsShare(y, total, b, n)
    ensures IsShare(x + y, total, a + b, n)
  {
  }

  /** and together they are expected to hold all of them. */
  lemma ExpectedAddsUp(caps: seq<real>, chars: real)
    requires Positive(caps) && caps != []
    ensures Sum(Expected(caps, chars)) == chars
  {
    SumPositive(caps);
    ExpectedAreShares(caps, chars);
    SharesAddUp(caps, Expected(caps, chars), chars, Sum(caps));
    Cancel(Sum(Expected(caps, chars)), chars, Sum(caps));
  }

  lemma ExpectedAreShares(caps: seq<real>, chars: real)
    requires Positive(caps) && caps != []
    ensures AreShares(caps, Expected(caps, chars), chars, Sum(caps))
  {
    SumPositive(caps);
    var e, total := Expected(caps, chars), Sum(caps);
    forall k | 0 <= k < |e|
      ensures IsShare(e[k], total, caps[k], chars)
    {
      ShareOf(caps[k], total, chars, e[k]);
    }
  }

  lemma ShareOf(a: real, total: real, chars: real, x: real)
    requires total > 0.0 && x == a / total * chars
    ensures IsShare(x, total, a, chars)
  {
    ShareTimesTotal(a, total, chars);
  }

  lemma Cancel(x: real, y: real, t: real)
    requires t > 0.0 && IsShare(x, t, t, y)
    ensures x == y
  {
  }

  /** The cost is the excess over the greater of the two when the line is too long, and half the shortfall over the
      greater when it is short. */
  lemma MatchCostExact(lineChars: nat, expectedChars: real)
    ensures var actual, expected := Max(1.0, lineChars as real), Max(1.0, expectedChars);
            && (actual > expected ==> MatchCost(lineChars, expectedChars) * actual == actual - expected)
            && (actual <= expected ==> 2.0 * MatchCost(lineChars, expectedChars) * expected == expected - actual)
  {
    var actual, expected := Max(1.0, lineChars as real), Max(1.0, expectedChars);
    var over, under := (actual - expected) / actual, (expected - actual) / expected;
    assert over * actual == actual - expected && under * expected == expected - actual;
    if actual <= expected { assert 2.0 * (under * 0.5) * expected == under * expected; }
  }

  /** A match never costs as much as skipping a line, let alone a line and a box. Filling a box
      short costs less than half; overfilling is what approaches one. */
  lemma MatchCostRange(lineChars: nat, expectedChars: real)
    ensures 0.0 <= MatchCost(lineChars, expectedChars) < 1.0
    ensures lineChars as real <= expectedChars ==> MatchCost(lineChars, expectedChars) < 0.5
    ensures MatchCost(lineChars, expectedChars) == 0.0 <==> Max(1.0, lineChars as real) == Max(1.0, expectedChars)
  {
    var expected := Max(1.0, expectedChars);
    var actual := Max(1.0, lineChars as real);
    if actual > expected {
      DivideInUnit(actual - expected, actual);
      assert (actual - expected) / actual * actual == actual - expected;
    } else {
      DivideInUnit(expected - actual, expected);
      assert (expected - actual) / expected * expected == expected - actual;
    }
  }

  /** Overfilling a box is penalised harder than underfilling another in the same proportion. */
  lemma OverfillCostsTwice(small: nat, large: nat)
    requires 1 <= small < large
    ensures MatchCost(large, small as real) == 2.0 * MatchCost(small, large as real)
  {
  }

  /** What the table needs to know of a page: what matching each line with each box costs. */
  datatype Grid = Grid(costs: seq<seq<real>>, boxCount: nat)
  {
    predicate Valid() {
      forall i :: 0 <= i < |costs| ==>
        && |costs[i]| == boxCount
        && forall j :: 0 <= j < boxCount ==> 0.0 <= costs[i][j] < 1.0
    }
  }

  type Page = g: Grid | g.Valid() witness Grid([], 0)

  function At(p: Page, i: nat, j: nat): real
    requires i < |p.costs| && j < p.boxCount
  {
    p.costs[i][j]
  }

  function PageOf(lines: seq<string>, boxes: seq<BBox>): (p: Page)
    ensures |p.costs| == |lines| && p.boxCount == |boxes|
    ensures forall i: nat, j: nat :: i < |lines| && j < |boxes| ==>
              At(p, i, j) == MatchCost(|lines[i]|, ExpectedChars(lines, boxes, j))
  {
    var costs := seq(|lines|, i requires 0 <= i < |lines| =>
      seq(|boxes|, j requires 0 <= j < |boxes| => MatchCost(|lines[i]|, ExpectedChars(lines, boxes, j))));
    MatchCostsInUnit();
    Grid(costs, |boxes|)
  }

  lemma MatchCostsInUnit()
    ensures forall l: nat, e: real :: 0.0 <= MatchCost(l, e) < 1.0
  {
    forall l: nat, e: real
      ensures 0.0 <= MatchCost(l, e) < 1.0
    {
      MatchCostRange(l, e);
    }
  }

  // ----- Alignments -----

  datatype Op = Match | SkipLine | SkipBox

  function LinesUsed(ops: seq<Op>): nat {
    if ops == [] then 0
    else LinesUsed(ops[..|ops| - 1]) + if ops[|ops| - 1] == SkipBox then 0 else 1
  }

  function BoxesUsed(ops: seq<Op>): nat {
    if ops == [] then 0
    else BoxesUsed(ops[..|ops| - 1]) + if ops[|ops| - 1] == SkipLine then 0 else 1
  }

  function Matches(ops: seq<Op>): nat {
    if ops == [] then 0
    else Matches(ops[..|ops| - 1]) + if ops[|ops| - 1] == Match then 1 else 0
  }

  /** A monotone alignment of the first `n` lines with the first `m` boxes: any sequence of
      operations that uses up exactly those. */
  predicate Aligns(ops: seq<Op>, n: nat, m: nat) {
    LinesUsed(ops) == n && BoxesUsed(ops) == m
  }

  /** What one operation costs when it ends at line `i` and box `j`. */
  function OpCost(p: Page, i: nat, j: nat, op: Op): real
    requires i <= |p.costs| && j <= p.boxCount && (op == Match ==> i > 0 && j > 0)
  {
    match op
    case Match => At(p, i - 1, j - 1)
    case SkipLine => SKIP_LINE_COST
    case SkipBox => SKIP_BOX_COST
  }

  /** The cost of an alignment: the sum of what its operations cost. */
  function Cost(p: Page, ops: seq<Op>): real
    requires LinesUsed(ops) <= |p.costs| && BoxesUsed(ops) <= p.boxCount
  {
    if ops == [] then 0.0
    else
      Cost(p, ops[..|ops| - 1]) + OpCost(p, LinesUsed(ops), BoxesUsed(ops), ops[|ops| - 1])
  }

  /** What the matches of an alignment cost. */
  function MatchesCost(p: Page, ops: seq<Op>): real
    requires LinesUsed(ops) <= |p.costs| && BoxesUsed(ops) <= p.boxCount
  {
    if ops == [] then 0.0
    else
      MatchesCost(p, ops[..|ops| - 1]) +
      if ops[|ops| - 1] == Match then At(p, LinesUsed(ops) - 1, BoxesUsed(ops) - 1) else 0.0
  }

  /** Beside its matches an alignment costs one for each line and four tenths for each box left without a match. */
  lemma {:induction false} CostOfUnmatched(p: Page, ops: seq<Op>)
    requires LinesUsed(ops) <= |p.costs| && BoxesUsed(ops) <= p.boxCount
    ensures Cost(p, ops) == MatchesCost(p, ops) + 1.0 * ((LinesUsed(ops) - Matches(ops)) as real)
                            + 0.4 * ((BoxesUsed(ops) - Matches(ops)) as real)
  {
    if ops != [] { CostOfUnmatched(p, ops[..|ops| - 1]); }
  }

  // ----- The cheapest alignment, in Bellman form -----

  function Best(p: Page, i: nat, j: nat): real
    requires i <= |p.costs| && j <= p.boxCount
  {
    if i == 0 && j == 0 then 0.0
    else if i == 0 then Best(p, 0, j - 1) + SKIP_BOX_COST
    else if j == 0 then Best(p, i - 1, 0) + SKIP_LINE_COST
    else
      var m := Best(p, i - 1, j - 1) + At(p, i - 1, j - 1);
      var sl := Best(p, i - 1, j) + SKIP_LINE_COST;
      var sb := Best(p, i, j - 1) + SKIP_BOX_COST;
      var b := if sl < m then sl else m;
      if sb < b then sb else b
  }

  /** The last operation of the alignment the table picks: a tie goes to the match, then to the skipped line. */
  function BestOp(p: Page, i: nat, j: nat): Op
    requires i <= |p.costs| && j <= p.boxCount && (i > 0 || j > 0)
  {
    if i == 0 then SkipBox
    else if j == 0 then SkipLine
    else
      var m := Best(p, i - 1, j - 1) + At(p, i - 1, j - 1);
      var sl := Best(p, i - 1, j) + SKIP_LINE_COST;
      var sb := Best(p, i, j - 1) + SKIP_BOX_COST;
      if sb < (if sl < m then sl else m) then SkipBox
      else if sl < m then SkipLine
      else Match
  }

  /** A match is picked exactly when one is among the cheapest last steps, a skipped line when it is and no match is. */
  lemma TieRule(p: Page, i: nat, j: nat)
    requires 0 < i <= |p.costs| && 0 < j <= p.boxCount
    ensures BestOp(p, i, j) == Match <==> Best(p, i, j) == Best(p, i - 1, j - 1) + At(p, i - 1, j - 1)
    ensures BestOp(p, i, j) == SkipLine <==>
              Best(p, i, j) == Best(p, i - 1, j) + 1.0 && Best(p, i, j) != Best(p, i - 1, j - 1) + At(p, i - 1, j - 1)
  {
  }

  function BestOps(p: Page, i: nat, j: nat): seq<Op>
    requires i <= |p.costs| && j <= p.boxCount
    decreases i + j
  {
    if i == 0 && j == 0 then []
    else
      match BestOp(p, i, j)
      case Match => BestOps(p, i - 1, j - 1) + [Match]
      case SkipLine => BestOps(p, i - 1, j) + [SkipLine]
      case SkipBox => BestOps(p, i, j - 1) + [SkipBox]
  }

  lemma UsedAfter(ops: seq<Op>, op: Op)
    ensures LinesUsed(ops + [op]) == LinesUsed(ops) + if op == SkipBox then 0 else 1
    ensures BoxesUsed(ops + [op]) == BoxesUsed(ops) + if op == SkipLine then 0 else 1
    ensures Matches(ops + [op]) == Matches(ops) + if op == Match then 1 else 0
  {
    assert (ops + [op])[..|ops|] == ops;
  }

  lemma CostAfter(p: Page, ops: seq<Op>, op: Op)
    requires LinesUsed(ops + [op]) <= |p.costs| && BoxesUsed(ops + [op]) <= p.boxCount
    ensures LinesUsed(ops) <= LinesUsed(ops + [op]) && BoxesUsed(ops) <= BoxesUsed(ops + [op])
    ensures op == Match ==> LinesUsed(ops + [op]) > 0 && BoxesUsed(ops + [op]) > 0
    ensures Cost(p, ops + [op]) == Cost(p, ops) + OpCost(p, LinesUsed(ops + [op]), BoxesUsed(ops + [op]), op)
  {
    UsedAfter(ops, op);
    assert (ops + [op])[..|ops|] == ops;
  }

  /** Where the alignment stood before its last operation, and what that operation added. */
  lemma BestStep(p: Page, i: nat, j: nat) returns (i': nat, j': nat)
    requires i <= |p.costs| && j <= p.boxCount && (i > 0 || j > 0)
    ensures i' <= i && j' <= j && i' + j' < i + j
    ensures i == i' + if BestOp(p, i, j) == SkipBox then 0 else 1
    ensures j == j' + if BestOp(p, i, j) == SkipLine then 0 else 1
    ensures Best(p, i, j) == Best(p, i', j') + OpCost(p, i, j, BestOp(p, i, j))
    ensures BestOps(p, i, j) == BestOps(p, i', j') + [BestOp(p, i, j)]
  {
    i' := if BestOp(p, i, j) == SkipBox then i else i - 1;
    j' := if BestOp(p, i, j) == SkipLine then j else j - 1;
  }

  /** The picked operations are a real alignment, and it costs exactly what the table says. */
  lemma {:induction false} BestOpsAlign(p: Page, i: nat, j: nat)
    requires i <= |p.costs| && j <= p.boxCount
    ensures Aligns(BestOps(p, i, j), i, j)
    ensures Cost(p, BestOps(p, i, j)) == Best(p, i, j)
    decreases i + j
  {
    if i > 0 || j > 0 {
      var i', j' := BestStep(p, i, j);
      BestOpsAlign(p, i', j');
      UsedAfter(BestOps(p, i', j'), BestOp(p, i, j));
      CostAfter(p, BestOps(p, i', j'), BestOp(p, i, j));
    }
  }

  /** No alignment is cheaper than the table's. */
  lemma {:induction false} BestIsLowerBound(p: Page, ops: seq<Op>)
    requires LinesUsed(ops) <= |p.costs| && BoxesUsed(ops) <= p.boxCount
    ensures Best(p, LinesUsed(ops), BoxesUsed(ops)) <= Cost(p, ops)
    decreases |ops|
  {
    if ops != [] {
      BestIsLowerBound(p, ops[..|ops| - 1]);
      assert ops == ops[..|ops| - 1] + [ops[|ops| - 1]];
    }
  }

  // ----- What optimality forces -----

  /** Replacing the front of an alignment changes the cost by the difference of the fronts. */
  lemma {:induction false} SameTailSameDifference(p: Page, u: seq<Op>, v: seq<Op>, tail: seq<Op>)
    requires LinesUsed(u) == LinesUsed(v) && BoxesUsed(u) == BoxesUsed(v)
    requires LinesUsed(u + tail) <= |p.costs| && BoxesUsed(u + tail) <= p.boxCount
    ensures LinesUsed(u) <= LinesUsed(u + tail) && BoxesUsed(u) <= BoxesUsed(u + tail)
    ensures LinesUsed(v + tail) == LinesUsed(u + tail) && BoxesUsed(v + tail) == BoxesUsed(u + tail)
    ensures Cost(p, u + tail) - Cost(p, v + tail) == Cost(p, u) - Cost(p, v)
    decreases |tail|
  {
    if tail == [] {
      assert u + tail == u && v + tail == v;
    } else {
      var front, op := tail[..|tail| - 1], tail[|tail| - 1];
      assert u + tail == (u + front) + [op] && v + tail == (v + front) + [op];
      UsedAfter(u + front, op);
      UsedAfter(v + front, op);
      SameTailSameDifference(p, u, v, front);
      CostAfter(p, u + front, op);
      CostAfter(p, v + front, op);
    }
  }

  predicate SkipPair(a: Op, b: Op) {
    (a == SkipLine && b == SkipBox) || (a == SkipBox && b == SkipLine)
  }

  /** A skipped line next to a skipped box can be turned into a match, which is strictly cheaper. */
  lemma SkipPairIsWasteful(p: Page, ops: seq<Op>, k: nat)
    requires LinesUsed(ops) <= |p.costs| && BoxesUsed(ops) <= p.boxCount
    requires k + 1 < |ops| && SkipPair(ops[k], ops[k + 1])
    ensures var cheaper := ops[..k] + [Match] + ops[k + 2..];
            && Aligns(cheaper, LinesUsed(ops), BoxesUsed(ops))
            && Cost(p, cheaper) < Cost(p, ops)
  {
    var a, tail := ops[..k], ops[k + 2..];
    var u := a + [ops[k]] + [ops[k + 1]];
    var v := a + [Match];
    assert ops == u + tail;
    UsedAfter(a, ops[k]);
    UsedAfter(a + [ops[k]], ops[k + 1]);
    UsedAfter(a, Match);
    SameTailSameDifference(p, u, v, tail);
    CostAfter(p, a + [ops[k]], ops[k + 1]);
    CostAfter(p, a, ops[k]);
    CostAfter(p, a, Match);
  }

  /** In the chosen alignment no skipped line stands next to a skipped box. */
  lemma NoAdjacentSkips(p: Page, i: nat, j: nat)
    requires i <= |p.costs| && j <= p.boxCount
    ensures var ops := BestOps(p, i, j);
            forall k :: 0 <= k < |ops| - 1 ==> !SkipPair(ops[k], ops[k + 1])
  {
    var ops := BestOps(p, i, j);
    BestOpsAlign(p, i, j);
    forall k | 0 <= k < |ops| - 1
      ensures !SkipPair(ops[k], ops[k + 1])
    {
      if SkipPair(ops[k], ops[k + 1]) {
        SkipPairIsWasteful(p, ops, k);
        BestIsLowerBound(p, ops[..k] + [Match] + ops[k + 2..]);
        assert false;
      }
    }
  }

  /** Operations without a match that use both a line and a box hold a skip pair. */
  lemma {:induction false} MatchlessHasSkipPair(ops: seq<Op>) returns (k: nat)
    requires Matches(ops) == 0 && LinesUsed(ops) > 0 && BoxesUsed(ops) > 0
    ensures k + 1 < |ops| && SkipPair(ops[k], ops[k + 1])
  {
    var front := ops[..|ops| - 1];
    assert front != [];
    assert Matches(front[..|front| - 1]) <= Matches(front) <= Matches(ops);
    if SkipPair(front[|front| - 1], ops[|ops| - 1]) {
      k := |ops| - 2;
    } else {
      k := MatchlessHasSkipPair(front);
    }
  }

  /** With at least one line and one box, the chosen alignment holds a match. */
  lemma AlwaysMatches(p: Page, i: nat, j: nat)
    requires 0 < i <= |p.costs| && 0 < j <= p.boxCount
    ensures Matches(BestOps(p, i, j)) > 0
  {
    BestOpsAlign(p, i, j);
    if Matches(BestOps(p, i, j)) == 0 {
      var k := MatchlessHasSkipPair(BestOps(p, i, j));
      NoAdjacentSkips(p, i, j);
    }
  }

  /** The alignment of the whole page that the back-pointers spell out. */
  function Chosen(p: Page): seq<Op> {
    BestOps(p, |p.costs|, p.boxCount)
  }

  /** It is a monotone alignment of the page, and no other costs less. */
  lemma ChosenIsCheapest(p: Page)
    ensures Aligns(Chosen(p), |p.costs|, p.boxCount)
    ensures Cost(p, Chosen(p)) == Best(p, |p.costs|, p.boxCount)
    ensures forall other :: Aligns(other, |p.costs|, p.boxCount) ==> Cost(p, Chosen(p)) <= Cost(p, other)
  {
    BestOpsAlign(p, |p.costs|, p.boxCount);
    forall other | Aligns(other, |p.costs|, p.boxCount)
      ensures Best(p, |p.costs|, p.boxCount) <= Cost(p, other)
    {
      BestIsLowerBound(p, other);
    }
  }

  /** With a line and a box it holds a match, and never a skipped line next to a skipped box. */
  lemma ChosenShape(p: Page)
    requires |p.costs| > 0 && p.boxCount > 0
    ensures Matches(Chosen(p)) > 0
    ensures forall k :: 0 <= k < |Chosen(p)| - 1 ==> !SkipPair(Chosen(p)[k], Chosen(p)[k + 1])
  {
    AlwaysMatches(p, |p.costs|, p.boxCount);
    NoAdjacentSkips(p, |p.costs|, p.boxCount);
  }
}
