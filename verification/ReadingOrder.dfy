/** Column-major reading order of the boxes of a page: split at the widest gap between
    box centres, and order each side on its own. */
module ReadingOrder {
  import opened Boxes
  import opened Options
  import opened StableSorting

  const COLUMN_GAP_THRESHOLD := 0.2
  const MAX_DEPTH := 50

  function Center(b: BBox): real { (b.x0 + b.x1) / 2.0 }

  /** Top to bottom, then left to right. */
  function RowMajor(boxes: seq<BBox>): (r: seq<nat>)
    ensures |r| == |boxes| && InRange(r, |boxes|)
  {
    SortedIndices(seq(|boxes|, i requires 0 <= i < |boxes| => (boxes[i].y0, boxes[i].x0)))
  }

  function CenterKeys(boxes: seq<BBox>): (r: seq<Key>)
    ensures |r| == |boxes|
  {
    seq(|boxes|, i requires 0 <= i < |boxes| => (Center(boxes[i]), 0.0))
  }

  function ByCenter(boxes: seq<BBox>): (r: seq<nat>)
    ensures |r| == |boxes| && InRange(r, |boxes|)
  {
    SortedIndices(CenterKeys(boxes))
  }

  lemma ByCenterSorts(boxes: seq<BBox>)
    ensures IsPermutation(ByCenter(boxes), |boxes|)
    ensures var r := ByCenter(boxes);
            forall a, b :: 0 <= a <= b < |r| ==> Center(boxes[r[a]]) <= Center(boxes[r[b]])
  {
    var keys := CenterKeys(boxes);
    SortedIndicesSorts(keys);
    var r := ByCenter(boxes);
    assert forall a, b :: 0 <= a < b < |r| ==> Precedes(keys, r[a], r[b]);
  }

  lemma RowMajorIsPermutation(boxes: seq<BBox>)
    ensures IsPermutation(RowMajor(boxes), |boxes|)
  {
    SortedIndicesSorts(seq(|boxes|, i requires 0 <= i < |boxes| => (boxes[i].y0, boxes[i].x0)));
  }

  /** The first box is read before the second: higher on the page, or as high and no further right. */
  predicate ReadBefore(a: BBox, b: BBox) {
    a.y0 < b.y0 || (a.y0 == b.y0 && a.x0 <= b.x0)
  }

  predicate TopDown(boxes: seq<BBox>, order: seq<nat>)
    requires InRange(order, |boxes|)
  {
    forall a, b :: 0 <= a < b < |order| ==> ReadBefore(boxes[order[a]], boxes[order[b]])
  }

  /** Row by row means top to bottom, then left to right, and boxes at the same corner in input order. */
  lemma RowMajorSorts(boxes: seq<BBox>)
    ensures TopDown(boxes, RowMajor(boxes))
    ensures var r := RowMajor(boxes);
            forall a, b :: 0 <= a < b < |r| && boxes[r[a]].y0 == boxes[r[b]].y0 && boxes[r[a]].x0 == boxes[r[b]].x0 ==> r[a] < r[b]
  {
    var keys := seq(|boxes|, i requires 0 <= i < |boxes| => (boxes[i].y0, boxes[i].x0));
    var r := RowMajor(boxes);
    SortedIndicesSorts(keys);
    forall a, b | 0 <= a < b < |r|
      ensures ReadBefore(boxes[r[a]], boxes[r[b]])
      ensures boxes[r[a]].y0 == boxes[r[b]].y0 && boxes[r[a]].x0 == boxes[r[b]].x0 ==> r[a] < r[b]
    {
      assert Precedes(keys, r[a], r[b]);
    }
  }

  /** The items at the given positions: the boxes of a column, or positions of a part mapped back to the whole. */
  function Select<T>(items: seq<T>, indices: seq<nat>): (r: seq<T>)
    requires InRange(indices, |items|)
    ensures |r| == |indices| && forall k :: 0 <= k < |r| ==> r[k] == items[indices[k]]
  {
    seq(|indices|, k requires 0 <= k < |indices| => items[indices[k]])
  }

  function Centers(boxes: seq<BBox>): (r: seq<real>)
    ensures |r| == |boxes| && forall k :: 0 <= k < |r| ==> r[k] == Center(boxes[k])
  {
    seq(|boxes|, k requires 0 <= k < |boxes| => Center(boxes[k]))
  }

  datatype Gap = Gap(width: real, pos: int)

  function GapAt(centers: seq<real>, k: nat): real
    requires 1 <= k < |centers|
  {
    centers[k] - centers[k - 1]
  }

  function WidestGap(centers: seq<real>, n: nat): (g: Gap)
    requires n <= |centers|
    ensures g.pos == -1 || 1 <= g.pos < n
  {
    if n <= 1 then Gap(0.0, -1)
    else
      var before := WidestGap(centers, n - 1);
      if GapAt(centers, n - 1) > before.width then Gap(GapAt(centers, n - 1), n - 1) else before
  }

  /** It is the first widest positive gap, or nothing when there is no positive gap. */
  lemma {:induction false} WidestGapIsWidest(centers: seq<real>, n: nat)
    requires n <= |centers|
    ensures var g := WidestGap(centers, n);
            && (forall k :: 1 <= k < n ==> GapAt(centers, k) <= g.width)
            && (g.pos == -1 ==> g.width == 0.0)
            && (g.pos != -1 ==> 0.0 < g.width == GapAt(centers, g.pos))
            && (forall k :: 1 <= k < g.pos ==> GapAt(centers, k) < g.width)
  {
    if n > 1 { WidestGapIsWidest(centers, n - 1); }
  }

  method FindWidestGap(centers: seq<real>) returns (g: Gap)
    requires |centers| >= 1
    ensures g == WidestGap(centers, |centers|)
  {
    var biggestGap := 0.0;
    var biggestGapPos := -1;
    for k := 1 to |centers|
      invariant Gap(biggestGap, biggestGapPos) == WidestGap(centers, k)
    {
      var gap := centers[k] - centers[k - 1];
      if gap > biggestGap {
        biggestGap := gap;
        biggestGapPos := k;
      }
    }
    g := Gap(biggestGap, biggestGapPos);
  }

  /** The widest gap of a page's centres is a column break: wide enough, and with two boxes on each side. */
  predicate IsColumnBreak(g: Gap, n: nat) {
    !(g.width < COLUMN_GAP_THRESHOLD || g.pos < 2 || g.pos > n - 2)
  }

  /** The positions of the boxes on each side of a column break, by centre. */
  datatype Columns = Columns(left: seq<nat>, right: seq<nat>)

  function ColumnsOf(boxes: seq<BBox>): Option<Columns> {
    if |boxes| < 4 then None
    else
      var order := ByCenter(boxes);
      var g := WidestGap(Centers(Select(boxes, order)), |boxes|);
      if IsColumnBreak(g, |boxes|) then Some(Columns(order[..g.pos], order[g.pos..])) else None
  }

  /** The widest gap between neighbouring centres. */
  function GapOf(boxes: seq<BBox>): Gap {
    WidestGap(Centers(Select(boxes, ByCenter(boxes))), |boxes|)
  }

  /** The source's comments split a page where the widest gap exceeds the threshold, with two boxes on each side. The
      code does that on every page except one whose gap is exactly the threshold: that one it splits too. */
  lemma DocumentedBreak(boxes: seq<BBox>)
    requires |boxes| >= 4
    ensures var g := GapOf(boxes);
            var twoEachSide := 2 <= g.pos <= |boxes| - 2;
            (ColumnsOf(boxes).Some? <==> g.width > COLUMN_GAP_THRESHOLD && twoEachSide)
            <==> !(g.width == COLUMN_GAP_THRESHOLD && twoEachSide)
  {
  }

  lemma WidestOfFour(centers: seq<real>)
    requires centers == [0.0, 0.0, 0.2, 0.2]
    ensures WidestGap(centers, 4) == Gap(0.2, 2)
  {
    assert WidestGap(centers, 2) == Gap(0.0, -1);
    assert WidestGap(centers, 3) == Gap(0.2, 2);
  }

  /** Four flat boxes with centres 0, 0, 0.2 and 0.2 are split. */
  lemma SplitAtTheThreshold()
    ensures var left, right := BBox(0.0, 0.0, 0.0, 1.0), BBox(0.2, 0.0, 0.2, 1.0);
            var boxes := [left, left, right, right];
            GapOf(boxes) == Gap(COLUMN_GAP_THRESHOLD, 2) && ColumnsOf(boxes) == Some(Columns([0, 1], [2, 3]))
  {
    var left, right := BBox(0.0, 0.0, 0.0, 1.0), BBox(0.2, 0.0, 0.2, 1.0);
    SplitByCenters([left, left, right, right]);
  }

  lemma SplitByCenters(boxes: seq<BBox>)
    requires |boxes| == 4 && Centers(boxes) == [0.0, 0.0, 0.2, 0.2]
    ensures GapOf(boxes) == Gap(COLUMN_GAP_THRESHOLD, 2) && ColumnsOf(boxes) == Some(Columns([0, 1], [2, 3]))
  {
    SortedAlready(CenterKeys(boxes), 4);
    assert ByCenter(boxes) == [0, 1, 2, 3];
    assert Select(boxes, [0, 1, 2, 3]) == boxes;
    assert [0, 1, 2, 3][..2] == [0, 1] && [0, 1, 2, 3][2..] == [2, 3];
    WidestOfFour(Centers(boxes));
  }

  // ----- What a column break is worth -----

  ghost predicate Separated(boxes: seq<BBox>, left: seq<nat>, right: seq<nat>)
    requires InRange(left, |boxes|) && InRange(right, |boxes|)
  {
    forall a, b :: 0 <= a < |left| && 0 <= b < |right| ==>
      Center(boxes[left[a]]) + COLUMN_GAP_THRESHOLD <= Center(boxes[right[b]])
  }

  /** Two columns of at least two boxes share out the page, with at least the threshold between
      every left and every right centre. */
  ghost predicate GoodColumns(boxes: seq<BBox>, c: Columns) {
    && 2 <= |c.left| && 2 <= |c.right|
    && IsPermutation(c.left + c.right, |boxes|)
    && InRange(c.left, |boxes|) && InRange(c.right, |boxes|)
    && Separated(boxes, c.left, c.right)
  }

  lemma BreakSeparates(boxes: seq<BBox>, order: seq<nat>, pos: nat)
    requires order == ByCenter(boxes) && 1 <= pos < |boxes|
    requires GapAt(Centers(Select(boxes, order)), pos) >= COLUMN_GAP_THRESHOLD
    ensures Separated(boxes, order[..pos], order[pos..])
  {
    var centers := Centers(Select(boxes, order));
    ByCenterSorts(boxes);
    forall a, b | 0 <= a < pos && pos <= b < |order|
      ensures Center(boxes[order[a]]) + COLUMN_GAP_THRESHOLD <= Center(boxes[order[b]])
    {
      assert Center(boxes[order[a]]) <= centers[pos - 1] && centers[pos] <= Center(boxes[order[b]]);
    }
  }

  lemma CutIsGood(boxes: seq<BBox>, order: seq<nat>, pos: nat)
    requires order == ByCenter(boxes) && 2 <= pos <= |boxes| - 2
    requires GapAt(Centers(Select(boxes, order)), pos) >= COLUMN_GAP_THRESHOLD
    ensures GoodColumns(boxes, Columns(order[..pos], order[pos..]))
  {
    ByCenterSorts(boxes);
    BreakSeparates(boxes, order, pos);
    assert order[..pos] + order[pos..] == order;
  }

  lemma ColumnsOfIsGood(boxes: seq<BBox>)
    ensures ColumnsOf(boxes).Some? ==> GoodColumns(boxes, ColumnsOf(boxes).value)
  {
    if ColumnsOf(boxes).Some? {
      var order := ByCenter(boxes);
      var centers := Centers(Select(boxes, order));
      WidestGapIsWidest(centers, |boxes|);
      CutIsGood(boxes, order, WidestGap(centers, |boxes|).pos);
    }
  }

  /** A way of splitting pages. The order below is proved right for every good one. */
  type Splitter = seq<BBox> -> Option<Columns>

  ghost predicate Good(split: Splitter) {
    forall boxes :: split(boxes).Some? ==> GoodColumns(boxes, split(boxes).value)
  }

  ghost function OrderWith(split: Splitter, boxes: seq<BBox>, depth: nat): (r: seq<nat>)
    requires Good(split)
    ensures InRange(r, |boxes|)
    decreases |boxes|
  {
    if depth >= MAX_DEPTH then RowMajor(boxes)
    else
      match split(boxes)
      case None => RowMajor(boxes)
      case Some(c) =>
        Select(c.left, OrderWith(split, Select(boxes, c.left), depth + 1)) +
        Select(c.right, OrderWith(split, Select(boxes, c.right), depth + 1))
  }

  lemma ColumnsAreGood()
    ensures Good(ColumnsOf)
  {
    forall boxes
      ensures ColumnsOf(boxes).Some? ==> GoodColumns(boxes, ColumnsOf(boxes).value)
    {
      ColumnsOfIsGood(boxes);
    }
  }

  ghost function ReadingOrder(boxes: seq<BBox>, depth: nat): seq<nat> {
    ColumnsAreGood();
    OrderWith(ColumnsOf, boxes, depth)
  }

  ghost predicate SplitsAsCode(split: Splitter) {
    forall boxes {:trigger ColumnsOf(boxes)} :: split(boxes) == ColumnsOf(boxes)
  }

  method SplitColumns(boxes: seq<BBox>, ghost split: Splitter) returns (c: Option<Columns>)
    requires SplitsAsCode(split)
    ensures c == split(boxes)
  {
    assert split(boxes) == ColumnsOf(boxes);
    if |boxes| < 4 {
      return None;
    }
    var sortedIdx := ByCenter(boxes);
    var centersSorted := Centers(Select(boxes, sortedIdx));
    var g := FindWidestGap(centersSorted);
    if g.width < COLUMN_GAP_THRESHOLD || g.pos < 2 || g.pos > |centersSorted| - 2 {
      return None;
    }
    return Some(Columns(sortedIdx[..g.pos], sortedIdx[g.pos..]));
  }

  method ReadingOrderAt(boxes: seq<BBox>, depth: nat, ghost split: Splitter) returns (r: seq<nat>)
    requires Good(split) && SplitsAsCode(split)
    ensures r == OrderWith(split, boxes, depth)
    decreases |boxes|
  {
    if depth >= MAX_DEPTH {
      return RowMajor(boxes);
    }
    var c := SplitColumns(boxes, split);
    if c.None? {
      return RowMajor(boxes);
    }
    var leftPerm := ReadingOrderAt(Select(boxes, c.value.left), depth + 1, split);
    var rightPerm := ReadingOrderAt(Select(boxes, c.value.right), depth + 1, split);
    r := Select(c.value.left, leftPerm) + Select(c.value.right, rightPerm);
  }


  // ----- The result is a permutation -----

  lemma LiftParts(left: seq<nat>, right: seq<nat>, p: seq<nat>, q: seq<nat>, n: nat)
    requires IsPermutation(left + right, n)
    requires IsPermutation(p, |left|) && IsPermutation(q, |right|)
    ensures IsPermutation(Select(left, p) + Select(right, q), n)
  {
    var a, b := Select(left, p), Select(right, q);
    LiftCovers(left, p);
    LiftCovers(right, q);
    forall i: nat | i < n
      ensures i in a + b
    {
      assert i in left + right;
    }
    assert forall x :: 0 <= x < |left| ==> left[x] == (left + right)[x] < n;
    assert forall x :: 0 <= x < |right| ==> right[x] == (left + right)[|left| + x] < n;
    DistinctParts(a, b, left, right);
    forall x, y | 0 <= x < y < |a + b|
      ensures (a + b)[x] != (a + b)[y]
    {
      if y < |a| {
        LiftAt(left, right, p, x);
        LiftAt(left, right, p, y);
      } else if |a| <= x {
        assert right[q[x - |a|]] == (left + right)[|left| + q[x - |a|]];
        assert right[q[y - |a|]] == (left + right)[|left| + q[y - |a|]];
      } else {
        assert a[x] in a && b[y - |a|] in b;
      }
    }
  }

  lemma LiftAt(left: seq<nat>, right: seq<nat>, p: seq<nat>, x: nat)
    requires InRange(p, |left|) && x < |p|
    ensures Select(left, p)[x] == (left + right)[p[x]]
  {
  }

  /** Parts of a permutation have nothing in common, nor do lists of the same elements. */
  lemma DistinctParts(a: seq<nat>, b: seq<nat>, left: seq<nat>, right: seq<nat>)
    requires forall x, y :: 0 <= x < y < |left + right| ==> (left + right)[x] != (left + right)[y]
    requires forall i :: i in a ==> i in left
    requires forall i :: i in b ==> i in right
    ensures forall i :: i in a ==> i !in b
  {
    forall x, y | 0 <= x < |left| && 0 <= y < |right|
      ensures left[x] != right[y]
    {
      assert (left + right)[x] != (left + right)[|left| + y];
    }
  }

  lemma LiftCovers(indices: seq<nat>, perm: seq<nat>)
    requires IsPermutation(perm, |indices|)
    ensures forall i :: i in Select(indices, perm) <==> i in indices
  {
    forall i | i in indices
      ensures i in Select(indices, perm)
    {
      var t :| 0 <= t < |indices| && indices[t] == i;
      assert t in perm;
      var u :| 0 <= u < |perm| && perm[u] == t;
      assert Select(indices, perm)[u] == i;
    }
  }

  lemma {:induction false} OrderWithIsPermutation(split: Splitter, boxes: seq<BBox>, depth: nat)
    requires Good(split)
    ensures IsPermutation(OrderWith(split, boxes, depth), |boxes|)
    decreases |boxes|
  {
    if depth >= MAX_DEPTH || split(boxes).None? {
      RowMajorIsPermutation(boxes);
    } else {
      var c := split(boxes).value;
      OrderWithIsPermutation(split, Select(boxes, c.left), depth + 1);
      OrderWithIsPermutation(split, Select(boxes, c.right), depth + 1);
      LiftParts(c.left, c.right,
                OrderWith(split, Select(boxes, c.left), depth + 1),
                OrderWith(split, Select(boxes, c.right), depth + 1), |boxes|);
    }
  }

  lemma ReadingOrderIsPermutation(boxes: seq<BBox>, depth: nat)
    ensures IsPermutation(ReadingOrder(boxes, depth), |boxes|)
  {
    ColumnsAreGood();
    OrderWithIsPermutation(ColumnsOf, boxes, depth);
  }

  // ----- Columns -----

  lemma LeftColumnFirstWith(split: Splitter, boxes: seq<BBox>, depth: nat) returns (a: seq<nat>, b: seq<nat>)
    requires Good(split) && depth < MAX_DEPTH && split(boxes).Some?
    ensures OrderWith(split, boxes, depth) == a + b
    ensures forall i :: i in a <==> i in split(boxes).value.left
    ensures forall i :: i in b <==> i in split(boxes).value.right
    ensures InRange(a, |boxes|) && InRange(b, |boxes|) && Separated(boxes, a, b)
  {
    var c := split(boxes).value;
    var p := OrderWith(split, Select(boxes, c.left), depth + 1);
    var q := OrderWith(split, Select(boxes, c.right), depth + 1);
    OrderWithIsPermutation(split, Select(boxes, c.left), depth + 1);
    OrderWithIsPermutation(split, Select(boxes, c.right), depth + 1);
    a, b := Select(c.left, p), Select(c.right, q);
    LiftCovers(c.left, p);
    LiftCovers(c.right, q);
  }

  /** Where a page splits, its order lists the whole left column and then the whole right column,
      the one at least the threshold to the left of the other. */
  lemma LeftColumnFirst(boxes: seq<BBox>, depth: nat) returns (a: seq<nat>, b: seq<nat>)
    requires depth < MAX_DEPTH && ColumnsOf(boxes).Some?
    ensures ReadingOrder(boxes, depth) == a + b
    ensures forall i :: i in a <==> i in ColumnsOf(boxes).value.left
    ensures forall i :: i in b <==> i in ColumnsOf(boxes).value.right
    ensures InRange(a, |boxes|) && InRange(b, |boxes|) && Separated(boxes, a, b)
  {
    ColumnsAreGood();
    a, b := LeftColumnFirstWith(ColumnsOf, boxes, depth);
  }

  // ----- The depth guard -----

  /** The order without a depth guard. */
  ghost function UnguardedWith(split: Splitter, boxes: seq<BBox>): (r: seq<nat>)
    requires Good(split)
    ensures InRange(r, |boxes|)
    decreases |boxes|
  {
    match split(boxes)
    case None => RowMajor(boxes)
    case Some(c) =>
      Select(c.left, UnguardedWith(split, Select(boxes, c.left))) +
      Select(c.right, UnguardedWith(split, Select(boxes, c.right)))
  }

  /** The deepest level at which the recursion is entered. */
  ghost function DeepestWith(split: Splitter, boxes: seq<BBox>, depth: nat): nat
    requires Good(split)
    decreases |boxes|
  {
    if depth >= MAX_DEPTH then depth
    else
      match split(boxes)
      case None => depth
      case Some(c) =>
        var l := DeepestWith(split, Select(boxes, c.left), depth + 1);
        var r := DeepestWith(split, Select(boxes, c.right), depth + 1);
        if l < r then r else l
  }

  ghost predicate CentersWithin(boxes: seq<BBox>, lo: real, hi: real) {
    forall k :: 0 <= k < |boxes| ==> lo <= Center(boxes[k]) <= hi
  }

  lemma {:induction false} GreatestCenter(boxes: seq<BBox>) returns (m: nat)
    requires boxes != []
    ensures m < |boxes| && forall b :: b in boxes ==> Center(b) <= Center(boxes[m])
    decreases |boxes|
  {
    m := 0;
    if |boxes| > 1 {
      var before := GreatestCenter(boxes[..|boxes| - 1]);
      m := if Center(boxes[before]) < Center(boxes[|boxes| - 1]) then |boxes| - 1 else before;
      assert forall b :: b in boxes ==> b in boxes[..|boxes| - 1] || b == boxes[|boxes| - 1];
    }
  }

  /** Each side of a break has its centres in a span shorter by the threshold. */
  lemma BreakNarrows(boxes: seq<BBox>, c: Columns, lo: real, hi: real) returns (mid: real)
    requires GoodColumns(boxes, c) && CentersWithin(boxes, lo, hi)
    ensures lo <= mid && mid + COLUMN_GAP_THRESHOLD <= hi
    ensures CentersWithin(Select(boxes, c.left), lo, mid)
    ensures CentersWithin(Select(boxes, c.right), mid + COLUMN_GAP_THRESHOLD, hi)
  {
    var m := GreatestCenter(Select(boxes, c.left));
    mid := Center(boxes[c.left[m]]);
    assert Center(boxes[c.right[0]]) <= hi;
  }

  /** The span that allows no more than `levels` nested breaks. */
  function Budget(levels: nat): real {
    if levels == 0 then COLUMN_GAP_THRESHOLD else Budget(levels - 1) + COLUMN_GAP_THRESHOLD
  }

  /** Centres within the budget for `levels` breaks let the recursion go `levels` deeper, no more. */
  lemma {:induction false} DepthBySpan(split: Splitter, boxes: seq<BBox>, depth: nat, lo: real, hi: real, levels: nat)
    requires Good(split)
    requires CentersWithin(boxes, lo, hi) && hi - lo < Budget(levels)
    ensures DeepestWith(split, boxes, depth) <= depth + levels
    decreases |boxes|
  {
    if split(boxes).Some? {
      var c := split(boxes).value;
      var mid := BreakNarrows(boxes, c, lo, hi);
      DepthBySpan(split, Select(boxes, c.left), depth + 1, lo, mid, levels - 1);
      DepthBySpan(split, Select(boxes, c.right), depth + 1, mid + COLUMN_GAP_THRESHOLD, hi, levels - 1);
    }
  }

  lemma PartsNoDeeper(split: Splitter, boxes: seq<BBox>, depth: nat, c: Columns)
    requires Good(split) && depth < MAX_DEPTH && split(boxes) == Some(c)
    ensures InRange(c.left, |boxes|) && InRange(c.right, |boxes|)
    ensures |c.left| < |boxes| && |c.right| < |boxes|
    ensures DeepestWith(split, Select(boxes, c.left), depth + 1) <= DeepestWith(split, boxes, depth)
    ensures DeepestWith(split, Select(boxes, c.right), depth + 1) <= DeepestWith(split, boxes, depth)
  {
    assert GoodColumns(boxes, c);
  }

  /** Where the guard is never reached, it makes no difference. */
  lemma {:induction false} GuardUnused(split: Splitter, boxes: seq<BBox>, depth: nat)
    requires Good(split) && DeepestWith(split, boxes, depth) < MAX_DEPTH
    ensures OrderWith(split, boxes, depth) == UnguardedWith(split, boxes)
    decreases |boxes|
  {
    assert depth < MAX_DEPTH;
    if split(boxes).Some? {
      var c := split(boxes).value;
      PartsNoDeeper(split, boxes, depth, c);
      GuardUnused(split, Select(boxes, c.left), depth + 1);
      GuardUnused(split, Select(boxes, c.right), depth + 1);
    }
  }

  // ----- How a page is read -----

  /** The boxes of one column, given by their positions on the page, row by row. */
  function ReadColumn(boxes: seq<BBox>, column: seq<nat>): seq<nat>
    requires InRange(column, |boxes|)
  {
    Select(column, RowMajor(Select(boxes, column)))
  }

  predicate OnPage(boxes: seq<BBox>, columns: seq<seq<nat>>) {
    forall p :: 0 <= p < |columns| ==> InRange(columns[p], |boxes|)
  }

  /** One column after the other. */
  function ReadColumns(boxes: seq<BBox>, columns: seq<seq<nat>>): seq<nat>
    requires OnPage(boxes, columns)
  {
    Flat(Each(boxes, columns))
  }

  function Each(boxes: seq<BBox>, columns: seq<seq<nat>>): (r: seq<seq<nat>>)
    requires OnPage(boxes, columns)
    ensures |r| == |columns| && forall p :: 0 <= p < |r| ==> r[p] == ReadColumn(boxes, columns[p])
  {
    seq(|columns|, p requires 0 <= p < |columns| => ReadColumn(boxes, columns[p]))
  }

  function Flat(parts: seq<seq<nat>>): seq<nat> {
    if parts == [] then [] else parts[0] + Flat(parts[1..])
  }

  /** Every centre of the one column lies left of every centre of the other by 0.2 or more. */
  predicate LeftOf(boxes: seq<BBox>, c: seq<nat>, d: seq<nat>)
    requires InRange(c, |boxes|) && InRange(d, |boxes|)
  {
    forall i, j :: 0 <= i < |c| && 0 <= j < |d| ==>
      (boxes[c[i]].x0 + boxes[c[i]].x1) / 2.0 + 0.2 <= (boxes[d[j]].x0 + boxes[d[j]].x1) / 2.0
  }

  predicate LeftToRight(boxes: seq<BBox>, columns: seq<seq<nat>>)
    requires OnPage(boxes, columns)
  {
    forall p, q :: 0 <= p < q < |columns| ==> LeftOf(boxes, columns[p], columns[q])
  }

  ghost predicate NoFurtherBreak(split: Splitter, boxes: seq<BBox>, columns: seq<seq<nat>>)
    requires OnPage(boxes, columns)
  {
    forall p :: 0 <= p < |columns| ==> split(Select(boxes, columns[p])).None?
  }

  lemma ReadColumnTopDown(boxes: seq<BBox>, column: seq<nat>)
    requires InRange(column, |boxes|)
    ensures InRange(ReadColumn(boxes, column), |boxes|) && TopDown(boxes, ReadColumn(boxes, column))
  {
    var part := Select(boxes, column);
    RowMajorSorts(part);
    var r := ReadColumn(boxes, column);
    forall a, b | 0 <= a < b < |r|
      ensures ReadBefore(boxes[r[a]], boxes[r[b]])
    {
      assert ReadBefore(part[RowMajor(part)[a]], part[RowMajor(part)[b]]);
    }
  }

  /** Positions in a part of the page, as positions on the page. */
  function Lifted(part: seq<nat>, columns: seq<seq<nat>>): (r: seq<seq<nat>>)
    requires forall p :: 0 <= p < |columns| ==> InRange(columns[p], |part|)
    ensures |r| == |columns| && forall p :: 0 <= p < |r| ==> r[p] == Select(part, columns[p])
  {
    seq(|columns|, p requires 0 <= p < |columns| => Select(part, columns[p]))
  }

  lemma SelectTwice(boxes: seq<BBox>, part: seq<nat>, column: seq<nat>)
    requires InRange(part, |boxes|) && InRange(column, |part|)
    ensures InRange(Select(part, column), |boxes|)
    ensures Select(boxes, Select(part, column)) == Select(Select(boxes, part), column)
  {
  }

  lemma {:induction false} FlatBoth(a: seq<seq<nat>>, b: seq<seq<nat>>)
    ensures Flat(a + b) == Flat(a) + Flat(b)
    decreases |a|
  {
    if a == [] {
      assert a + b == b;
    } else {
      FlatBoth(a[1..], b);
      assert (a + b)[1..] == a[1..] + b;
    }
  }

  lemma {:induction false} FlatLifted(part: seq<nat>, orders: seq<seq<nat>>)
    requires forall p :: 0 <= p < |orders| ==> InRange(orders[p], |part|)
    ensures InRange(Flat(orders), |part|) && Flat(Lifted(part, orders)) == Select(part, Flat(orders))
    decreases |orders|
  {
    if orders != [] {
      FlatLifted(part, orders[1..]);
      assert Lifted(part, orders)[1..] == Lifted(part, orders[1..]);
    }
  }

  lemma LiftedOnPage(boxes: seq<BBox>, part: seq<nat>, columns: seq<seq<nat>>)
    requires InRange(part, |boxes|) && OnPage(Select(boxes, part), columns)
    ensures OnPage(boxes, Lifted(part, columns))
  {
    forall p | 0 <= p < |columns|
      ensures InRange(Lifted(part, columns)[p], |boxes|)
    {
      SelectTwice(boxes, part, columns[p]);
    }
  }

  lemma ColumnLifted(boxes: seq<BBox>, part: seq<nat>, column: seq<nat>)
    requires InRange(part, |boxes|) && InRange(column, |part|)
    ensures InRange(Select(part, column), |boxes|) && InRange(ReadColumn(Select(boxes, part), column), |part|)
    ensures ReadColumn(boxes, Select(part, column)) == Select(part, ReadColumn(Select(boxes, part), column))
  {
    SelectTwice(boxes, part, column);
  }

  lemma ReadLifted(boxes: seq<BBox>, part: seq<nat>, columns: seq<seq<nat>>)
    requires InRange(part, |boxes|) && OnPage(Select(boxes, part), columns)
    ensures OnPage(boxes, Lifted(part, columns))
    ensures InRange(ReadColumns(Select(boxes, part), columns), |part|)
    ensures ReadColumns(boxes, Lifted(part, columns)) == Select(part, ReadColumns(Select(boxes, part), columns))
  {
    LiftedOnPage(boxes, part, columns);
    var orders := Each(Select(boxes, part), columns);
    forall p | 0 <= p < |columns|
      ensures InRange(orders[p], |part|) && Each(boxes, Lifted(part, columns))[p] == Select(part, orders[p])
    {
      ColumnLifted(boxes, part, columns[p]);
    }
    assert Each(boxes, Lifted(part, columns)) == Lifted(part, orders);
    FlatLifted(part, orders);
  }

  lemma ReadBoth(boxes: seq<BBox>, a: seq<seq<nat>>, b: seq<seq<nat>>)
    requires OnPage(boxes, a) && OnPage(boxes, b)
    ensures OnPage(boxes, a + b) && ReadColumns(boxes, a + b) == ReadColumns(boxes, a) + ReadColumns(boxes, b)
  {
    assert Each(boxes, a + b) == Each(boxes, a) + Each(boxes, b);
    FlatBoth(Each(boxes, a), Each(boxes, b));
  }

  lemma LiftedLeftToRight(boxes: seq<BBox>, part: seq<nat>, columns: seq<seq<nat>>)
    requires InRange(part, |boxes|) && OnPage(Select(boxes, part), columns) && LeftToRight(Select(boxes, part), columns)
    ensures OnPage(boxes, Lifted(part, columns)) && LeftToRight(boxes, Lifted(part, columns))
  {
    ReadLifted(boxes, part, columns);
    var lifted, sub := Lifted(part, columns), Select(boxes, part);
    forall p, q | 0 <= p < q < |lifted|
      ensures LeftOf(boxes, lifted[p], lifted[q])
    {
      assert LeftOf(sub, columns[p], columns[q]);
    }
  }

  lemma SidesApart(boxes: seq<BBox>, c: Columns, a: seq<nat>, b: seq<nat>)
    requires GoodColumns(boxes, c) && InRange(a, |c.left|) && InRange(b, |c.right|)
    ensures InRange(Select(c.left, a), |boxes|) && InRange(Select(c.right, b), |boxes|)
    ensures LeftOf(boxes, Select(c.left, a), Select(c.right, b))
  {
    var l, r := Select(c.left, a), Select(c.right, b);
    forall i, j | 0 <= i < |l| && 0 <= j < |r|
      ensures Center(boxes[l[i]]) + 0.2 <= Center(boxes[r[j]])
    {
      assert c.left[a[i]] in c.left && c.right[b[j]] in c.right;
    }
  }

  /** A page is read column by column, from left to right with at least 0.2 between the centres of any two columns,
      each column top to bottom; and unless the depth guard cut in, no column could be split further. */
  lemma {:induction false} ReadByColumns(split: Splitter, boxes: seq<BBox>, depth: nat) returns (columns: seq<seq<nat>>)
    requires Good(split)
    ensures OnPage(boxes, columns) && LeftToRight(boxes, columns)
    ensures OrderWith(split, boxes, depth) == ReadColumns(boxes, columns)
    ensures DeepestWith(split, boxes, depth) < MAX_DEPTH ==> NoFurtherBreak(split, boxes, columns)
    decreases |boxes|
  {
    if depth >= MAX_DEPTH {
      columns := WholePage(boxes);
      assert DeepestWith(split, boxes, depth) >= MAX_DEPTH;
    } else if split(boxes).None? {
      columns := WholePage(boxes);
      assert NoFurtherBreak(split, boxes, columns);
    } else {
      var c := split(boxes).value;
      PartsNoDeeper(split, boxes, depth, c);
      var l, r := Select(boxes, c.left), Select(boxes, c.right);
      var left := ReadByColumns(split, l, depth + 1);
      var right := ReadByColumns(split, r, depth + 1);
      columns := JoinSides(split, boxes, c, left, right);
      OrderOfSplit(split, boxes, depth, c, l, r);
      if DeepestWith(split, boxes, depth) < MAX_DEPTH {
        assert NoFurtherBreak(split, l, left) && NoFurtherBreak(split, r, right);
      }
    }
  }

  lemma OrderOfSplit(split: Splitter, boxes: seq<BBox>, depth: nat, c: Columns, l: seq<BBox>, r: seq<BBox>)
    requires Good(split) && depth < MAX_DEPTH && split(boxes) == Some(c)
    requires InRange(c.left, |boxes|) && InRange(c.right, |boxes|) && l == Select(boxes, c.left) && r == Select(boxes, c.right)
    ensures OrderWith(split, boxes, depth) ==
            Select(c.left, OrderWith(split, l, depth + 1)) + Select(c.right, OrderWith(split, r, depth + 1))
  {
  }

  lemma WholePage(boxes: seq<BBox>) returns (columns: seq<seq<nat>>)
    ensures |columns| == 1 && OnPage(boxes, columns) && Select(boxes, columns[0]) == boxes
    ensures ReadColumns(boxes, columns) == RowMajor(boxes)
  {
    var all := seq(|boxes|, i => i);
    columns := [all];
    assert Select(boxes, all) == boxes;
    assert ReadColumn(boxes, all) == RowMajor(boxes);
    assert Each(boxes, columns) == [RowMajor(boxes)];
    assert Flat([RowMajor(boxes)]) == RowMajor(boxes) + Flat([]);
  }

  lemma SidesLeftToRight(boxes: seq<BBox>, c: Columns, left: seq<seq<nat>>, right: seq<seq<nat>>)
    requires GoodColumns(boxes, c) && InRange(c.left, |boxes|) && InRange(c.right, |boxes|)
    requires var l, r := Select(boxes, c.left), Select(boxes, c.right);
             && OnPage(l, left) && LeftToRight(l, left) && OnPage(r, right) && LeftToRight(r, right)
    ensures OnPage(boxes, Lifted(c.left, left) + Lifted(c.right, right))
    ensures LeftToRight(boxes, Lifted(c.left, left) + Lifted(c.right, right))
  {
    var a, b := Lifted(c.left, left), Lifted(c.right, right);
    var columns := a + b;
    LiftedLeftToRight(boxes, c.left, left);
    LiftedLeftToRight(boxes, c.right, right);
    forall p, q | 0 <= p < q < |columns|
      ensures LeftOf(boxes, columns[p], columns[q])
    {
      if q < |a| {
        assert LeftOf(boxes, a[p], a[q]);
      } else if p >= |a| {
        assert LeftOf(boxes, b[p - |a|], b[q - |a|]);
      } else {
        SidesApart(boxes, c, left[p], right[q - |a|]);
      }
    }
  }

  lemma JoinSides(split: Splitter, boxes: seq<BBox>, c: Columns, left: seq<seq<nat>>, right: seq<seq<nat>>)
    returns (columns: seq<seq<nat>>)
    requires GoodColumns(boxes, c) && InRange(c.left, |boxes|) && InRange(c.right, |boxes|)
    requires var l, r := Select(boxes, c.left), Select(boxes, c.right);
             && OnPage(l, left) && LeftToRight(l, left) && OnPage(r, right) && LeftToRight(r, right)
    ensures OnPage(boxes, columns) && LeftToRight(boxes, columns)
    ensures InRange(ReadColumns(Select(boxes, c.left), left), |c.left|)
    ensures InRange(ReadColumns(Select(boxes, c.right), right), |c.right|)
    ensures ReadColumns(boxes, columns) ==
            Select(c.left, ReadColumns(Select(boxes, c.left), left)) + Select(c.right, ReadColumns(Select(boxes, c.right), right))
    ensures NoFurtherBreak(split, Select(boxes, c.left), left) && NoFurtherBreak(split, Select(boxes, c.right), right) ==>
              NoFurtherBreak(split, boxes, columns)
  {
    var a, b := Lifted(c.left, left), Lifted(c.right, right);
    columns := a + b;
    ReadLifted(boxes, c.left, left);
    ReadLifted(boxes, c.right, right);
    ReadBoth(boxes, a, b);
    SidesLeftToRight(boxes, c, left, right);
    forall p | 0 <= p < |columns|
      ensures Select(boxes, columns[p]) ==
              if p < |a| then Select(Select(boxes, c.left), left[p]) else Select(Select(boxes, c.right), right[p - |a|])
    {
      if p < |a| { SelectTwice(boxes, c.left, left[p]); } else { SelectTwice(boxes, c.right, right[p - |a|]); }
    }
  }

  /** What the result is on any page: whole columns, left to right, each top to bottom. */
  ghost predicate IsReading(boxes: seq<BBox>, columns: seq<seq<nat>>, r: seq<nat>) {
    && OnPage(boxes, columns) && LeftToRight(boxes, columns) && r == ReadColumns(boxes, columns)
    && forall p :: 0 <= p < |columns| ==>
         InRange(ReadColumn(boxes, columns[p]), |boxes|) && TopDown(boxes, ReadColumn(boxes, columns[p]))
  }

  ghost predicate InColumns(boxes: seq<BBox>, r: seq<nat>) {
    exists columns :: IsReading(boxes, columns, r)
  }

  /** The source's function, entered at depth 0. A page that is not split is read row by row, any other column by column. */
  method ReadingOrderIndices(boxes: seq<BBox>) returns (r: seq<nat>)
    ensures r == ReadingOrder(boxes, 0)
    ensures IsPermutation(r, |boxes|)
    ensures ColumnsOf(boxes).None? ==> TopDown(boxes, r)
    ensures InColumns(boxes, r)
  {
    ColumnsAreGood();
    r := ReadingOrderAt(boxes, 0, ColumnsOf);
    ReadingOrderIsPermutation(boxes, 0);
    RowMajorSorts(boxes);
    ghost var columns := ReadByColumns(ColumnsOf, boxes, 0);
    forall p | 0 <= p < |columns|
      ensures InRange(ReadColumn(boxes, columns[p]), |boxes|) && TopDown(boxes, ReadColumn(boxes, columns[p]))
    {
      ReadColumnTopDown(boxes, columns[p]);
    }
    assert IsReading(boxes, columns, r);
  }

  predicate InUnit(boxes: seq<BBox>) {
    forall b :: b in boxes ==> 0.0 <= b.x0 <= 1.0 && 0.0 <= b.x1 <= 1.0
  }

  /** For boxes normalised to the page the recursion is never entered deeper than level 5, so the
      guard at level 50 cannot fire and the order is the unguarded one. */
  lemma GuardUnreachable(boxes: seq<BBox>)
    requires InUnit(boxes)
    ensures Good(ColumnsOf)
    ensures DeepestWith(ColumnsOf, boxes, 0) <= 5
    ensures ReadingOrder(boxes, 0) == UnguardedWith(ColumnsOf, boxes)
  {
    ColumnsAreGood();
    assert Budget(5) == Budget(3) + 0.4 && Budget(3) == 0.8;
    DepthBySpan(ColumnsOf, boxes, 0, 0.0, 1.0, 5);
    GuardUnused(ColumnsOf, boxes, 0);
  }

  /** Such a page is read in columns none of which could be split further. */
  lemma UnitPageInColumns(boxes: seq<BBox>) returns (columns: seq<seq<nat>>)
    requires InUnit(boxes)
    ensures OnPage(boxes, columns) && LeftToRight(boxes, columns) && NoFurtherBreak(ColumnsOf, boxes, columns)
    ensures ReadingOrder(boxes, 0) == ReadColumns(boxes, columns)
  {
    GuardUnreachable(boxes);
    columns := ReadByColumns(ColumnsOf, boxes, 0);
  }
}
