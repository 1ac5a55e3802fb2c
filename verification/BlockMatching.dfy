/** Scoring detected blocks against ground truth: intersection over union, and the greedy
    one-to-one matching built on it. */
module BlockMatching {
  import opened Boxes
  import opened Options

  // ----- Intersection over union -----

  function SharedWidth(a: BBox, b: BBox): real { Max(0.0, Min(a.x1, b.x1) - Max(a.x0, b.x0)) }

  function SharedHeight(a: BBox, b: BBox): real { Max(0.0, Min(a.y1, b.y1) - Max(a.y0, b.y0)) }

  function Area(b: BBox): real { Max(0.0, b.x1 - b.x0) * Max(0.0, b.y1 - b.y0) }

  function Ratio(inter: real, areaA: real, areaB: real): real {
    if inter <= 0.0 then 0.0
    else
      var union := areaA + areaB - inter;
      if union > 0.0 then inter / union else 0.0
  }

  function SharedArea(a: BBox, b: BBox): real { SharedWidth(a, b) * SharedHeight(a, b) }

  function Iou(a: BBox, b: BBox): real {
    Ratio(SharedArea(a, b), Area(a), Area(b))
  }

  /** A box that is not inverted and not flat. */
  predicate Proper(b: BBox) {
    b.x0 < b.x1 && b.y0 < b.y1
  }

  /** The insides of the boxes meet. */
  predicate Overlap(a: BBox, b: BBox) {
    Max(a.x0, b.x0) < Min(a.x1, b.x1) && Max(a.y0, b.y0) < Min(a.y1, b.y1)
  }

  lemma ProductMonotone(a: real, b: real, c: real, d: real)
    requires 0.0 <= a <= c && 0.0 <= b <= d
    ensures 0.0 <= a * b <= c * d
    ensures 0.0 < a && 0.0 < b && a * b == c * d ==> a == c && b == d
    ensures 0.0 < a * b <==> 0.0 < a && 0.0 < b
  {
    assert a * b <= c * b <= c * d;
    if 0.0 < a && 0.0 < b {
      assert 0.0 < a * b;
      if a < c { assert a * b < c * b; }
      if b < d { assert c * b < c * d; }
    }
  }

  /** Overlapping boxes are proper, and share no more width or height than either has. */
  lemma OverlapSides(a: BBox, b: BBox)
    requires Overlap(a, b)
    ensures Proper(a) && Proper(b)
    ensures 0.0 < SharedWidth(a, b) <= a.x1 - a.x0 && SharedWidth(a, b) <= b.x1 - b.x0
    ensures 0.0 < SharedHeight(a, b) <= a.y1 - a.y0 && SharedHeight(a, b) <= b.y1 - b.y0
    ensures SharedWidth(a, b) == a.x1 - a.x0 == b.x1 - b.x0 <==> a.x0 == b.x0 && a.x1 == b.x1
    ensures SharedHeight(a, b) == a.y1 - a.y0 == b.y1 - b.y0 <==> a.y0 == b.y0 && a.y1 == b.y1
  {
  }

  /** The intersection of overlapping boxes is no larger than either, and equal to both only for equal boxes. */
  lemma IntersectionFits(a: BBox, b: BBox)
    requires Overlap(a, b)
    ensures Proper(a) && Proper(b)
    ensures 0.0 < SharedArea(a, b) <= Area(a) && SharedArea(a, b) <= Area(b)
    ensures SharedArea(a, b) == Area(a) == Area(b) <==> a == b
  {
    OverlapSides(a, b);
    var iw, ih := SharedWidth(a, b), SharedHeight(a, b);
    ProductMonotone(iw, ih, a.x1 - a.x0, a.y1 - a.y0);
    ProductMonotone(iw, ih, b.x1 - b.x0, b.y1 - b.y0);
  }

  lemma ZeroWithoutOverlap(a: BBox, b: BBox)
    requires !Overlap(a, b)
    ensures Iou(a, b) == 0.0
  {
    assert SharedWidth(a, b) == 0.0 || SharedHeight(a, b) == 0.0;
  }

  lemma RatioRange(inter: real, areaA: real, areaB: real)
    requires 0.0 < inter <= areaA && inter <= areaB
    ensures 0.0 < Ratio(inter, areaA, areaB) <= 1.0
    ensures Ratio(inter, areaA, areaB) == 1.0 <==> inter == areaA == areaB
  {
    var union := areaA + areaB - inter;
    var q := inter / union;
    assert q * union == inter;
  }

  lemma OverlapRange(a: BBox, b: BBox, inter: real, areaA: real, areaB: real)
    requires inter == SharedArea(a, b) && areaA == Area(a) && areaB == Area(b)
    requires 0.0 < inter <= areaA && inter <= areaB
    ensures 0.0 < Iou(a, b) <= 1.0 && (Iou(a, b) == 1.0 <==> inter == areaA == areaB)
  {
    RatioRange(inter, areaA, areaB);
    assert Iou(a, b) == Ratio(inter, areaA, areaB);
  }

  /** For any two boxes, inverted ones included, the score lies in [0, 1]; it is positive exactly
      when the boxes overlap, and one exactly for one and the same proper box. */
  lemma IouRange(a: BBox, b: BBox)
    ensures 0.0 <= Iou(a, b) <= 1.0
    ensures Iou(a, b) > 0.0 <==> Overlap(a, b)
    ensures Iou(a, b) == 1.0 <==> a == b && Proper(a)
  {
    if Overlap(a, b) {
      IntersectionFits(a, b);
      OverlapRange(a, b, SharedArea(a, b), Area(a), Area(b));
    } else {
      ZeroWithoutOverlap(a, b);
    }
  }

  lemma RatioExact(inter: real, areaA: real, areaB: real)
    requires 0.0 < inter <= areaA && inter <= areaB
    ensures Ratio(inter, areaA, areaB) * (areaA + areaB - inter) == inter
  {
    var union := areaA + areaB - inter;
    var q := inter / union;
    assert q * union == inter;
  }

  /** The least upper less the greatest lower bound of two intervals. */
  function CommonLength(lowA: real, highA: real, lowB: real, highB: real): real {
    (if highA < highB then highA else highB) - (if lowA < lowB then lowB else lowA)
  }

  lemma SidesInCoordinates(a: BBox, b: BBox)
    requires Overlap(a, b)
    ensures SharedWidth(a, b) == CommonLength(a.x0, a.x1, b.x0, b.x1)
    ensures SharedHeight(a, b) == CommonLength(a.y0, a.y1, b.y0, b.y1)
  {
  }

  lemma AreaInCoordinates(b: BBox)
    requires Proper(b)
    ensures Area(b) == (b.x1 - b.x0) * (b.y1 - b.y0)
  {
  }

  /** The score times the area covered by either box is the area covered by both. */
  lemma IouFormula(a: BBox, b: BBox, w: real, h: real)
    requires w == CommonLength(a.x0, a.x1, b.x0, b.x1) > 0.0 && h == CommonLength(a.y0, a.y1, b.y0, b.y1) > 0.0
    ensures Iou(a, b) * ((a.x1 - a.x0) * (a.y1 - a.y0) + (b.x1 - b.x0) * (b.y1 - b.y0) - w * h) == w * h
  {
    assert Overlap(a, b);
    IntersectionFits(a, b);
    SidesInCoordinates(a, b);
    AreaInCoordinates(a);
    AreaInCoordinates(b);
    FormulaOf(a, b, w * h, Area(a), Area(b));
  }

  lemma FormulaOf(a: BBox, b: BBox, inter: real, areaA: real, areaB: real)
    requires inter == SharedArea(a, b) && areaA == Area(a) && areaB == Area(b) && 0.0 < inter <= areaA && inter <= areaB
    ensures Iou(a, b) * (areaA + areaB - inter) == inter
  {
    RatioExact(inter, areaA, areaB);
  }

  lemma IouSymmetric(a: BBox, b: BBox)
    ensures Iou(a, b) == Iou(b, a)
  {
    assert SharedWidth(a, b) == SharedWidth(b, a);
    assert SharedHeight(a, b) == SharedHeight(b, a);
    assert SharedArea(a, b) == SharedArea(b, a);
  }

  // ----- Greedy matching -----

  /** One ground-truth block's line in the report: the pipeline block it got, if any, and the best score seen. */
  datatype BlockMatch = BlockMatch(pick: Option<nat>, iou: real)

  /** `Scores[g][i]` is the score of ground-truth block `g` against pipeline block `i`. */
  type Scores = seq<seq<real>>

  function RowOf(gt: BBox, boxes: seq<BBox>): seq<real> {
    seq(|boxes|, i requires 0 <= i < |boxes| => Iou(gt, boxes[i]))
  }

  function ScoresOf(gts: seq<BBox>, boxes: seq<BBox>): (s: Scores)
    ensures |s| == |gts|
  {
    seq(|gts|, g requires 0 <= g < |gts| => RowOf(gts[g], boxes))
  }

  function UsedBy(matches: seq<BlockMatch>): set<nat> {
    set m | m in matches && m.pick.Some? :: m.pick.value
  }

  datatype Best = Best(i: int, iou: real)

  /** The first strictly best free block among the first `n`. */
  function BestFree(row: seq<real>, used: set<nat>, n: nat): Best
    requires n <= |row|
  {
    if n == 0 then Best(-1, 0.0)
    else
      var before := BestFree(row, used, n - 1);
      if n - 1 !in used && row[n - 1] > before.iou then Best(n - 1, row[n - 1]) else before
  }

  function Judge(best: Best, threshold: real): BlockMatch {
    BlockMatch(if best.i >= 0 && best.iou >= threshold then Some(best.i) else None, best.iou)
  }

  /** The report on the first `n` ground-truth blocks. */
  function Greedy(s: Scores, threshold: real, n: nat): (r: seq<BlockMatch>)
    requires n <= |s|
    ensures |r| == n
  {
    if n == 0 then []
    else
      var before := Greedy(s, threshold, n - 1);
      before + [Judge(BestFree(s[n - 1], UsedBy(before), |s[n - 1]|), threshold)]
  }

  method FindBest(gt: BBox, boxes: seq<BBox>, used: set<nat>) returns (best: Best)
    ensures best == BestFree(RowOf(gt, boxes), used, |boxes|)
  {
    var bestI, bestIou := -1, 0.0;
    for i := 0 to |boxes|
      invariant Best(bestI, bestIou) == BestFree(RowOf(gt, boxes), used, i)
    {
      if i !in used {
        var score := Iou(gt, boxes[i]);
        if score > bestIou {
          bestIou, bestI := score, i;
        }
      }
    }
    best := Best(bestI, bestIou);
  }

  /** Pipeline block `i` was not matched by a line before line `k`. */
  predicate FreeAt(matches: seq<BlockMatch>, k: nat, i: nat)
    requires k <= |matches|
  {
    forall j :: 0 <= j < k ==> matches[j].pick != Some(i)
  }

  /** What line `k` of a report says: the best score among the blocks still free, or zero; and the first block with
      that score if it is positive and meets the threshold. */
  ghost predicate IsLine(gt: BBox, pipeline: seq<BBox>, matches: seq<BlockMatch>, threshold: real, k: nat)
    requires k < |matches|
  {
    var m := matches[k];
    && 0.0 <= m.iou
    && (forall i: nat {:trigger FreeAt(matches, k, i)} :: i < |pipeline| && FreeAt(matches, k, i) ==> Iou(gt, pipeline[i]) <= m.iou)
    && (m.iou > 0.0 ==> exists i: nat :: i < |pipeline| && FreeAt(matches, k, i) && Iou(gt, pipeline[i]) == m.iou)
    && (m.pick.Some? <==> m.iou > 0.0 && m.iou >= threshold)
    && (m.pick.Some? ==>
          var p := m.pick.value;
          && p < |pipeline| && FreeAt(matches, k, p) && Iou(gt, pipeline[p]) == m.iou
          && forall i: nat {:trigger FreeAt(matches, k, i)} :: i < p && FreeAt(matches, k, i) ==> Iou(gt, pipeline[i]) < m.iou)
  }

  lemma FreeMeansUnused(matches: seq<BlockMatch>, k: nat, i: nat)
    requires k <= |matches|
    ensures FreeAt(matches, k, i) <==> i !in UsedBy(matches[..k])
  {
    if !FreeAt(matches, k, i) {
      var j :| 0 <= j < k && matches[j].pick == Some(i);
      assert matches[..k][j] == matches[j];
    }
    if i in UsedBy(matches[..k]) {
      var m :| m in matches[..k] && m.pick == Some(i);
      var j :| 0 <= j < k && matches[..k][j] == m;
      assert matches[j].pick == Some(i);
    }
  }

  lemma LineMeans(groundTruth: seq<BBox>, pipeline: seq<BBox>, threshold: real, k: nat)
    requires k < |groundTruth|
    ensures IsLine(groundTruth[k], pipeline, Greedy(ScoresOf(groundTruth, pipeline), threshold, |groundTruth|), threshold, k)
  {
    var s := ScoresOf(groundTruth, pipeline);
    var r := Greedy(s, threshold, |s|);
    var used := UsedBy(r[..k]);
    var row := RowOf(groundTruth[k], pipeline);
    GreedyLine(s, threshold, k, |s|);
    BestFreeRange(row, used, |row|);
    forall i: nat
      ensures FreeAt(r, k, i) <==> i !in used
    {
      FreeMeansUnused(r, k, i);
    }
    LineFrom(groundTruth[k], pipeline, r, threshold, k, used, BestFree(row, used, |row|), row);
  }

  lemma LineFrom(gt: BBox, pipeline: seq<BBox>, r: seq<BlockMatch>, threshold: real, k: nat, used: set<nat>, b: Best, row: seq<real>)
    requires k < |r| && row == RowOf(gt, pipeline) && r[k] == Judge(b, threshold)
    requires forall i: nat :: FreeAt(r, k, i) <==> i !in used
    requires 0.0 <= b.iou && -1 <= b.i < |row| && (b.i == -1 ==> b.iou == 0.0)
    requires b.i >= 0 ==> b.i !in used && b.iou == row[b.i] > 0.0
    requires forall i: nat :: i < |row| && i !in used ==> row[i] <= b.iou
    requires forall i: nat :: i < b.i && i !in used ==> row[i] < b.iou
    ensures IsLine(gt, pipeline, r, threshold, k)
  {
    forall i: nat | i < |pipeline| && FreeAt(r, k, i)
      ensures Iou(gt, pipeline[i]) <= b.iou && (i < b.i ==> Iou(gt, pipeline[i]) < b.iou)
    {
      assert row[i] == Iou(gt, pipeline[i]);
    }
    if b.i >= 0 {
      assert FreeAt(r, k, b.i) && row[b.i] == Iou(gt, pipeline[b.i]);
    }
  }

  method ComputeReport(groundTruth: seq<BBox>, pipeline: seq<BBox>, threshold: real) returns (matches: seq<BlockMatch>)
    ensures matches == Greedy(ScoresOf(groundTruth, pipeline), threshold, |groundTruth|)
    ensures forall k :: 0 <= k < |groundTruth| ==> IsLine(groundTruth[k], pipeline, matches, threshold, k)
  {
    var used: set<nat> := {};
    matches := [];
    for g := 0 to |groundTruth|
      invariant matches == Greedy(ScoresOf(groundTruth, pipeline), threshold, g)
      invariant used == UsedBy(matches)
    {
      var best := FindBest(groundTruth[g], pipeline, used);
      UsedAfter(matches, Judge(best, threshold));
      BestFreeRange(RowOf(groundTruth[g], pipeline), used, |pipeline|);
      if best.i >= 0 && best.iou >= threshold {
        used := used + {best.i};
        matches := matches + [BlockMatch(Some(best.i), best.iou)];
      } else {
        matches := matches + [BlockMatch(None, best.iou)];
      }
    }
    forall k | 0 <= k < |groundTruth|
      ensures IsLine(groundTruth[k], pipeline, matches, threshold, k)
    {
      LineMeans(groundTruth, pipeline, threshold, k);
    }
  }

  lemma UsedAfter(matches: seq<BlockMatch>, m: BlockMatch)
    ensures UsedBy(matches + [m]) == UsedBy(matches) + if m.pick.Some? then {m.pick.value} else {}
  {
    var all := matches + [m];
    assert forall x :: x in all <==> x in matches || x == m;
  }

  lemma {:induction false} BestFreeRange(row: seq<real>, used: set<nat>, n: nat)
    requires n <= |row|
    ensures var b := BestFree(row, used, n);
            && 0.0 <= b.iou && -1 <= b.i < n
            && (b.i == -1 ==> b.iou == 0.0)
            && (b.i >= 0 ==> b.i !in used && b.iou == row[b.i] > 0.0)
            && (forall i: nat :: i < n && i !in used ==> row[i] <= b.iou)
            && forall i: nat :: i < b.i && i !in used ==> row[i] < b.iou
  {
    if n > 0 { BestFreeRange(row, used, n - 1); }
  }

  /** The report's lines on earlier blocks do not change later. */
  lemma {:induction false} GreedyPrefix(s: Scores, threshold: real, k: nat, n: nat)
    requires k <= n <= |s|
    ensures Greedy(s, threshold, n)[..k] == Greedy(s, threshold, k)
  {
    if k < n { GreedyPrefix(s, threshold, k, n - 1); }
  }

  /** Line `k` is the judgement of the best block left free by the lines before it. */
  lemma GreedyLine(s: Scores, threshold: real, k: nat, n: nat)
    requires k < n <= |s|
    ensures var r := Greedy(s, threshold, n);
            r[k] == Judge(BestFree(s[k], UsedBy(r[..k]), |s[k]|), threshold)
  {
    GreedyPrefix(s, threshold, k, n);
    GreedyPrefix(s, threshold, k + 1, n);
    assert Greedy(s, threshold, n)[k] == Greedy(s, threshold, n)[..k + 1][k];
  }

  /** No pipeline block is given twice. */
  lemma NoReuse(s: Scores, threshold: real, j: nat, k: nat)
    requires j < k < |s|
    ensures var r := Greedy(s, threshold, |s|);
            r[j].pick.Some? ==> r[j].pick != r[k].pick
  {
    var r := Greedy(s, threshold, |s|);
    GreedyLine(s, threshold, k, |s|);
    BestFreeRange(s[k], UsedBy(r[..k]), |s[k]|);
    if r[j].pick.Some? {
      assert r[..k][j] == r[j];
      assert r[j].pick.value in UsedBy(r[..k]);
    }
  }

  /** A block scoring strictly better than what line `k` reports was taken by an earlier line. */
  lemma BetterWasTaken(s: Scores, threshold: real, k: nat, i: nat)
    requires k < |s| && i < |s[k]|
    requires s[k][i] > Greedy(s, threshold, |s|)[k].iou
    ensures exists j: nat :: j < k && Greedy(s, threshold, |s|)[j].pick == Some(i)
  {
    var r := Greedy(s, threshold, |s|);
    GreedyLine(s, threshold, k, |s|);
    BestFreeRange(s[k], UsedBy(r[..k]), |s[k]|);
    var m :| m in r[..k] && m.pick == Some(i);
    var j: nat :| j < k && r[..k][j] == m;
    assert r[j].pick == Some(i);
  }

  /** A given block has the reported score and meets the threshold. */
  lemma PickScore(s: Scores, threshold: real, k: nat)
    requires k < |s|
    ensures var m := Greedy(s, threshold, |s|)[k];
            m.pick.Some? ==> m.pick.value < |s[k]| && m.iou == s[k][m.pick.value] && m.iou >= threshold
  {
    GreedyLine(s, threshold, k, |s|);
    BestFreeRange(s[k], UsedBy(Greedy(s, threshold, |s|)[..k]), |s[k]|);
  }

  // ----- Recall -----

  predicate IsMatched(m: BlockMatch, threshold: real) {
    m.iou >= threshold
  }

  function MatchedCount(matches: seq<BlockMatch>, threshold: real): (n: nat)
    ensures n <= |matches|
  {
    if matches == [] then 0
    else
      MatchedCount(matches[..|matches| - 1], threshold) + if IsMatched(matches[|matches| - 1], threshold) then 1 else 0
  }

  function BlockRecall(matches: seq<BlockMatch>, threshold: real, gtCount: nat): real {
    MatchedCount(matches, threshold) as real / (if gtCount < 1 then 1 else gtCount) as real
  }

  /** Recall is the share of the lines at or above the threshold among the ground-truth blocks. */
  lemma {:induction false} CountIsSize(matches: seq<BlockMatch>, threshold: real)
    ensures MatchedCount(matches, threshold) == |set k | 0 <= k < |matches| && matches[k].iou >= threshold|
  {
    if matches != [] {
      var last := |matches| - 1;
      var before := matches[..last];
      CountIsSize(before, threshold);
      var rest := set k | 0 <= k < |before| && before[k].iou >= threshold;
      assert (set k | 0 <= k < |matches| && matches[k].iou >= threshold) ==
             rest + if matches[last].iou >= threshold then {last} else {};
    }
  }

  lemma RecallIsShare(matches: seq<BlockMatch>, threshold: real, gtCount: nat)
    ensures BlockRecall(matches, threshold, gtCount) * (if gtCount == 0 then 1.0 else gtCount as real) ==
            |set k | 0 <= k < |matches| && matches[k].iou >= threshold| as real
  {
    CountIsSize(matches, threshold);
  }

  /** A line counts as matched exactly when its block was given a pipeline block, or when the
      threshold is not positive: then every line counts, paired or not. */
  lemma MatchedMeansPaired(s: Scores, threshold: real, k: nat)
    requires k < |s|
    ensures var m := Greedy(s, threshold, |s|)[k];
            IsMatched(m, threshold) <==> m.pick.Some? || threshold <= 0.0
  {
    GreedyLine(s, threshold, k, |s|);
    BestFreeRange(s[k], UsedBy(Greedy(s, threshold, |s|)[..k]), |s[k]|);
  }

  /** One block, nothing detected, threshold zero: recall is one with no pair at all. */
  lemma RecallWithoutAnyPair(gt: BBox)
    ensures var r := Greedy(ScoresOf([gt], []), 0.0, 1);
            r == [BlockMatch(None, 0.0)] && BlockRecall(r, 0.0, 1) == 1.0
  {
    var s := ScoresOf([gt], []);
    assert s[0] == [];
    assert Greedy(s, 0.0, 0) == [];
    var r := Greedy(s, 0.0, 1);
    assert r == [BlockMatch(None, 0.0)];
    assert MatchedCount(r[..0], 0.0) == 0;
  }

  lemma RecallRange(s: Scores, threshold: real)
    ensures 0.0 <= BlockRecall(Greedy(s, threshold, |s|), threshold, |s|) <= 1.0
  {
    var n, d := MatchedCount(Greedy(s, threshold, |s|), threshold), if |s| < 1 then 1 else |s|;
    var q := n as real / d as real;
    assert q * d as real == n as real;
  }

  // ----- How far from the best matching -----

  /** Any one-to-one pairing of ground-truth blocks with pipeline blocks at or above the threshold. */
  ghost predicate IsPairing(s: Scores, threshold: real, p: map<nat, nat>) {
    && (forall g :: g in p ==> g < |s| && p[g] < |s[g]| && s[g][p[g]] >= threshold)
    && (forall g, h :: g in p && h in p && g != h ==> p[g] != p[h])
  }

  /** The pairs of the report. */
  function Pairs(matches: seq<BlockMatch>): map<nat, nat> {
    map g: nat | g < |matches| && matches[g].pick.Some? :: matches[g].pick.value
  }

  lemma PairsArePairing(s: Scores, threshold: real)
    ensures IsPairing(s, threshold, Pairs(Greedy(s, threshold, |s|)))
  {
    var r := Greedy(s, threshold, |s|);
    var p := Pairs(r);
    forall g | g in p
      ensures g < |s| && p[g] < |s[g]| && s[g][p[g]] >= threshold
    {
      PickScore(s, threshold, g);
    }
    forall g, h | g in p && h in p && g != h
      ensures p[g] != p[h]
    {
      if g < h { NoReuse(s, threshold, g, h); } else { NoReuse(s, threshold, h, g); }
    }
  }

  /** The report cannot be extended: a pair at or above the threshold has its ground-truth block
      paired, or its pipeline block taken. */
  lemma Maximal(s: Scores, threshold: real, g: nat, i: nat)
    requires threshold > 0.0 && g < |s| && i < |s[g]| && s[g][i] >= threshold
    ensures var p := Pairs(Greedy(s, threshold, |s|));
            g in p || i in p.Values
  {
    var r := Greedy(s, threshold, |s|);
    GreedyLine(s, threshold, g, |s|);
    BestFreeRange(s[g], UsedBy(r[..g]), |s[g]|);
    if r[g].pick.None? {
      BetterWasTaken(s, threshold, g, i);
      var j: nat :| j < g && r[j].pick == Some(i);
      assert j in Pairs(r) && Pairs(r)[j] == i;
    }
  }

  lemma {:induction false} ImageSize(p: map<nat, nat>, keys: set<nat>, values: set<nat>)
    requires keys <= p.Keys && forall g :: g in keys ==> p[g] in values
    requires forall g, h :: g in keys && h in keys && g != h ==> p[g] != p[h]
    ensures |keys| <= |values|
    decreases |keys|
  {
    if keys != {} {
      var g :| g in keys;
      ImageSize(p, keys - {g}, values - {p[g]});
    }
  }

  lemma {:induction false} ValuesSize(p: map<nat, nat>)
    ensures |p.Values| <= |p|
    decreases |p|
  {
    if p.Keys != {} {
      var k :| k in p;
      var q := p - {k};
      ValuesSize(q);
      assert q.Keys == p.Keys - {k};
      assert |p| == |p.Keys| && |q| == |q.Keys|;
      forall v | v in p.Values
        ensures v in q.Values + {p[k]}
      {
        var g :| g in p && p[g] == v;
        assert g != k ==> g in q && q[g] == v;
      }
      SubsetSize(p.Values, q.Values + {p[k]});
    } else {
      assert p.Values == {};
    }
  }

  lemma {:induction false} SubsetSize(a: set<nat>, b: set<nat>)
    requires a <= b
    ensures |a| <= |b|
  {
    if a != {} {
      var x :| x in a;
      SubsetSize(a - {x}, b - {x});
    }
  }

  /** Greedy matching pairs at least half as many blocks as any one-to-one pairing could. */
  lemma AtLeastHalf(s: Scores, threshold: real, other: map<nat, nat>)
    requires threshold > 0.0 && IsPairing(s, threshold, other)
    ensures |other| <= 2 * |Pairs(Greedy(s, threshold, |s|))|
  {
    var p := Pairs(Greedy(s, threshold, |s|));
    var shared := other.Keys * p.Keys;
    var rest := other.Keys - p.Keys;
    forall g | g in rest
      ensures other[g] in p.Values
    {
      Maximal(s, threshold, g, other[g]);
    }
    ImageSize(other, rest, p.Values);
    ValuesSize(p);
    SubsetSize(shared, p.Keys);
    assert other.Keys == shared + rest;
  }
}
