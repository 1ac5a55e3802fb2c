/** The Levenshtein distance of the scorer: two rows, operands swapped so that the shorter is
    the row, against the recursive distance, its meaning as edit scripts, and its metric laws. */
module EditDistance {
  import TextLines

  function Min(a: nat, b: nat): nat { if a < b then a else b }

  function Max(a: nat, b: nat): nat { if a < b then b else a }

  /** The textbook recursion on the last items. */
  function Distance<T(==)>(a: seq<T>, b: seq<T>): nat
    decreases |a| + |b|
  {
    if a == [] then |b|
    else if b == [] then |a|
    else
      var a', b' := a[..|a| - 1], b[..|b| - 1];
      Min(Distance(a, b') + 1,
          Min(Distance(a', b) + 1,
              Distance(a', b') + if a[|a| - 1] == b[|b| - 1] then 0 else 1))
  }

  // ----- What the number means -----

  datatype Edit<T> = Keep | Replace(to: T) | Insert(item: T) | Delete

  /** What a script makes of `a`, if it fits: it must consume all of `a`. */
  function Apply<T(==)>(script: seq<Edit<T>>, a: seq<T>): (r: seq<seq<T>>)
    ensures |r| <= 1
  {
    if script == [] then (if a == [] then [[]] else [])
    else
      var front := script[..|script| - 1];
      match script[|script| - 1]
      case Keep => if a == [] then [] else Extend(Apply(front, a[..|a| - 1]), a[|a| - 1])
      case Replace(x) => if a == [] then [] else Extend(Apply(front, a[..|a| - 1]), x)
      case Insert(x) => Extend(Apply(front, a), x)
      case Delete => if a == [] then [] else Apply(front, a[..|a| - 1])
  }

  function Extend<T>(r: seq<seq<T>>, x: T): (e: seq<seq<T>>)
    requires |r| <= 1
    ensures |e| == |r|
  {
    if r == [] then [] else [r[0] + [x]]
  }

  /** The script turns `a` into `b`. */
  predicate Turns<T(==)>(script: seq<Edit<T>>, a: seq<T>, b: seq<T>) {
    Apply(script, a) == [b]
  }

  function Price<T(==)>(script: seq<Edit<T>>): nat {
    if script == [] then 0
    else Price(script[..|script| - 1]) + if script[|script| - 1] == Keep then 0 else 1
  }

  /** No script from `a` to `b` is cheaper than the distance. */
  lemma {:induction false} NoCheaperScript<T>(script: seq<Edit<T>>, a: seq<T>, b: seq<T>)
    requires Turns(script, a, b)
    ensures Distance(a, b) <= Price(script)
    decreases |script|
  {
    if script != [] {
      var front, e := script[..|script| - 1], script[|script| - 1];
      match e
      case Keep =>
        NoCheaperScript(front, a[..|a| - 1], b[..|b| - 1]);
      case Replace(x) =>
        NoCheaperScript(front, a[..|a| - 1], b[..|b| - 1]);
      case Insert(x) =>
        NoCheaperScript(front, a, b[..|b| - 1]);
        DistanceStep(a, b);
      case Delete =>
        NoCheaperScript(front, a[..|a| - 1], b);
        DistanceStep(a, b);
    }
  }

  /** Dropping the last item of one side changes the distance by at most one. */
  lemma DistanceStep<T>(a: seq<T>, b: seq<T>)
    ensures a != [] ==> Distance(a, b) <= Distance(a[..|a| - 1], b) + 1
    ensures b != [] ==> Distance(a, b) <= Distance(a, b[..|b| - 1]) + 1
  {
  }

  lemma TurnsOn<T>(front: seq<Edit<T>>, e: Edit<T>, a: seq<T>, b: seq<T>)
    requires e.Delete? ==> a != [] && Turns(front, a[..|a| - 1], b)
    requires e.Insert? ==> b != [] && e.item == b[|b| - 1] && Turns(front, a, b[..|b| - 1])
    requires e.Keep? || e.Replace? ==> a != [] && b != [] && Turns(front, a[..|a| - 1], b[..|b| - 1])
    requires e.Keep? ==> a[|a| - 1] == b[|b| - 1]
    requires e.Replace? ==> e.to == b[|b| - 1]
    ensures Turns(front + [e], a, b) && Price(front + [e]) == Price(front) + if e == Keep then 0 else 1
  {
    var script := front + [e];
    assert script[..|script| - 1] == front && script[|script| - 1] == e;
    assert b != [] ==> b == b[..|b| - 1] + [b[|b| - 1]];
  }

  /** Some script from `a` to `b` costs exactly the distance. */
  lemma {:induction false} CheapestScript<T>(a: seq<T>, b: seq<T>) returns (script: seq<Edit<T>>)
    ensures Turns(script, a, b) && Price(script) == Distance(a, b)
    decreases |a| + |b|
  {
    if a == [] && b == [] {
      script := [];
    } else {
      var front, e;
      if a != [] && (b == [] || Distance(a, b) == Distance(a[..|a| - 1], b) + 1) {
        front := CheapestScript(a[..|a| - 1], b);
        e := Delete;
      } else if b != [] && (a == [] || Distance(a, b) == Distance(a, b[..|b| - 1]) + 1) {
        front := CheapestScript(a, b[..|b| - 1]);
        e := Insert(b[|b| - 1]);
      } else {
        front := CheapestScript(a[..|a| - 1], b[..|b| - 1]);
        e := if a[|a| - 1] == b[|b| - 1] then Keep else Replace(b[|b| - 1]);
      }
      TurnsOn(front, e, a, b);
      script := front + [e];
    }
  }

  // ----- Metric laws -----

  lemma {:induction false} Symmetric<T>(a: seq<T>, b: seq<T>)
    ensures Distance(a, b) == Distance(b, a)
    decreases |a| + |b|
  {
    if a != [] && b != [] {
      Symmetric(a, b[..|b| - 1]);
      Symmetric(a[..|a| - 1], b);
      Symmetric(a[..|a| - 1], b[..|b| - 1]);
    }
  }

  lemma {:induction false} Bounds<T>(a: seq<T>, b: seq<T>)
    ensures Max(|a|, |b|) - Min(|a|, |b|) <= Distance(a, b) <= Max(|a|, |b|)
    decreases |a| + |b|
  {
    if a != [] && b != [] {
      Bounds(a, b[..|b| - 1]);
      Bounds(a[..|a| - 1], b);
      Bounds(a[..|a| - 1], b[..|b| - 1]);
    }
  }

  lemma {:induction false} ZeroOnEqual<T>(a: seq<T>)
    ensures Distance(a, a) == 0
  {
    if a != [] { ZeroOnEqual(a[..|a| - 1]); }
  }

  lemma {:induction false} ZeroOnlyOnEqual<T>(a: seq<T>, b: seq<T>)
    requires Distance(a, b) == 0
    ensures a == b
  {
    if a != [] && b != [] {
      ZeroOnlyOnEqual(a[..|a| - 1], b[..|b| - 1]);
      assert a == a[..|a| - 1] + [a[|a| - 1]] && b == b[..|b| - 1] + [b[|b| - 1]];
    }
  }

  /** Zero exactly on equal sequences. */
  lemma ZeroIffEqual<T>(a: seq<T>, b: seq<T>)
    ensures Distance(a, b) == 0 <==> a == b
  {
    if a == b { ZeroOnEqual(a); }
    if Distance(a, b) == 0 { ZeroOnlyOnEqual(a, b); }
  }

  lemma {:induction false} Triangle<T>(a: seq<T>, b: seq<T>, c: seq<T>)
    ensures Distance(a, c) <= Distance(a, b) + Distance(b, c)
    decreases |a| + |b| + |c|
  {
    if a == [] || b == [] || c == [] {
      Bounds(a, b);
      Bounds(b, c);
      Bounds(a, c);
    } else {
      var a', b', c' := a[..|a| - 1], b[..|b| - 1], c[..|c| - 1];
      if Distance(a, b) == Distance(a', b) + 1 {
        Triangle(a', b, c);
      } else if Distance(b, c) == Distance(b, c') + 1 {
        Triangle(a, b, c');
      } else if Distance(a, b) == Distance(a, b') + 1 {
        if Distance(b, c) == Distance(b', c) + 1 {
          Triangle(a, b', c);
        } else {
          Triangle(a, b', c');
        }
      } else if Distance(b, c) == Distance(b', c) + 1 {
        Triangle(a', b', c);
      } else {
        Triangle(a', b', c');
      }
    }
  }

  // ----- The scorer's loop -----

  ghost predicate IsRow<T>(row: seq<nat>, a: seq<T>, b: seq<T>, upTo: nat)
    requires upTo <= |b|
  {
    |row| == |b| + 1 && forall j :: 0 <= j <= upTo ==> row[j] == Distance(a, b[..j])
  }

  /** One cell of the new row, from its left, upper and upper-left neighbours. */
  lemma CellStep<T>(a: seq<T>, b: seq<T>, j: nat, prevRow: seq<nat>, currRow: seq<nat>, cell: nat)
    requires a != [] && j < |b|
    requires IsRow(prevRow, a[..|a| - 1], b, |b|) && IsRow(currRow, a, b, j)
    requires cell == Min(currRow[j] + 1,
                         Min(prevRow[j + 1] + 1, prevRow[j] + if a[|a| - 1] == b[j] then 0 else 1))
    ensures IsRow(currRow[j + 1 := cell], a, b, j + 1)
  {
    assert b[..j + 1][..j] == b[..j];
    assert cell == Distance(a, b[..j + 1]);
  }

  method NextRow<T(==)>(prevRow: seq<nat>, a: seq<T>, b: seq<T>) returns (currRow: seq<nat>)
    requires a != [] && IsRow(prevRow, a[..|a| - 1], b, |b|)
    ensures IsRow(currRow, a, b, |b|)
  {
    currRow := seq<nat>(|b| + 1, _ => |a|);
    for j := 0 to |b|
      invariant IsRow(currRow, a, b, j)
    {
      var cost := if a[|a| - 1] == b[j] then 0 else 1;
      var cell := Min(currRow[j] + 1, Min(prevRow[j + 1] + 1, prevRow[j] + cost));
      CellStep(a, b, j, prevRow, currRow, cell);
      currRow := currRow[j + 1 := cell];
    }
  }

  method ComputeLevenshteinDistance<T(==)>(seq1: seq<T>, seq2: seq<T>) returns (d: nat)
    ensures d == Distance(seq1, seq2)
  {
    ZeroIffEqual(seq1, seq2);
    Symmetric(seq1, seq2);
    if seq1 == seq2 {
      return 0;
    }
    if seq1 == [] {
      return |seq2|;
    }
    if seq2 == [] {
      return |seq1|;
    }
    var a, b := seq1, seq2;
    if |seq1| < |seq2| {
      a, b := seq2, seq1;
    }
    var prevRow: seq<nat> := seq<nat>(|b| + 1, j => j);
    for i := 0 to |a|
      invariant IsRow(prevRow, a[..i], b, |b|)
    {
      assert a[..i + 1][..i] == a[..i];
      prevRow := NextRow(prevRow, a[..i + 1], b);
    }
    assert a[..|a|] == a && b[..|b|] == b;
    d := prevRow[|prevRow| - 1];
  }

  // ----- Error rates -----

  /** The error rate of a hypothesis against a reference, both as sequences of items. */
  function ErrorRate<T(==)>(reference: seq<T>, hypothesis: seq<T>, normalize: bool): real {
    if reference == hypothesis then 0.0
    else if reference == [] then (if hypothesis != [] then 1.0 else 0.0)
    else if normalize then Distance(reference, hypothesis) as real / |reference| as real
    else Distance(reference, hypothesis) as real
  }

  method ComputeErrorRate<T(==)>(reference: seq<T>, hypothesis: seq<T>, normalize: bool) returns (r: real)
    ensures r == ErrorRate(reference, hypothesis, normalize)
  {
    if reference == hypothesis {
      return 0.0;
    }
    if reference == [] {
      return if hypothesis != [] then 1.0 else 0.0;
    }
    var dist := ComputeLevenshteinDistance(reference, hypothesis);
    r := if normalize then dist as real / |reference| as real else dist as real;
  }

  /** The items are characters. */
  method ComputeCer(reference: string, hypothesis: string, normalize: bool) returns (r: real)
    ensures r == ErrorRate(reference, hypothesis, normalize)
  {
    r := ComputeErrorRate(reference, hypothesis, normalize);
  }

  /** The items are words. */
  method ComputeWer(reference: string, hypothesis: string, normalize: bool) returns (r: real)
    ensures r == ErrorRate(TextLines.Words(reference), TextLines.Words(hypothesis), normalize)
  {
    r := ComputeErrorRate(TextLines.Words(reference), TextLines.Words(hypothesis), normalize);
  }

  lemma QuotientBounds(d: nat, n: nat, m: nat)
    requires 0 < n && d <= m
    ensures 0.0 <= d as real / n as real <= m as real / n as real
    ensures d > 0 ==> 0.0 < d as real / n as real
  {
    var q, u := d as real / n as real, m as real / n as real;
    assert q * n as real == d as real && u * n as real == m as real;
  }

  /** The rate is never negative, is zero exactly for a perfect match, and a normalised rate is at
      most the larger of one and the length ratio. */
  lemma ErrorRateRange<T>(reference: seq<T>, hypothesis: seq<T>, normalize: bool)
    ensures 0.0 <= ErrorRate(reference, hypothesis, normalize)
    ensures ErrorRate(reference, hypothesis, normalize) == 0.0 <==> reference == hypothesis
    ensures reference != [] ==>
              ErrorRate(reference, hypothesis, true) <= Max(|reference|, |hypothesis|) as real / |reference| as real
  {
    ZeroIffEqual(reference, hypothesis);
    Bounds(reference, hypothesis);
    if reference != [] {
      QuotientBounds(Distance(reference, hypothesis), |reference|, Max(|reference|, |hypothesis|));
    }
  }

  /** The documentation divides by `max(1, len(reference))`. The code agrees with that on every
      pair except an empty reference against two items or more, where it answers one. */
  lemma DocumentedRate<T>(reference: seq<T>, hypothesis: seq<T>)
    ensures ErrorRate(reference, hypothesis, true) ==
            Distance(reference, hypothesis) as real / Max(1, |reference|) as real
            <==> !(reference == [] && |hypothesis| >= 2)
    ensures ErrorRate(reference, hypothesis, false) == Distance(reference, hypothesis) as real
            <==> !(reference == [] && |hypothesis| >= 2)
  {
    ZeroIffEqual(reference, hypothesis);
  }
}
