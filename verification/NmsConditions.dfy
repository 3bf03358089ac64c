/** When the suppression passes do what one would expect of them, exactly. */
module NmsConditions {
  import opened Nms

  /** An order list as the sort leaves it: every box once; sizes are not negative. */
  predicate Ranking(order: seq<int>, boxes: seq<real>) {
    && |boxes| == 4 * |order|
    && (forall i | 0 <= i < |order| :: 0 <= order[i] < |order|)
    && (forall i, j | 0 <= i < j < |order| :: order[i] != order[j])
    && (forall k | 0 <= k < |order| :: boxes[4 * k + 2] >= 0.0 && boxes[4 * k + 3] >= 0.0)
  }

  /** Every removed entry overlaps an earlier-ranked one that is still there in the end. */
  ghost predicate Explained(order: seq<int>, boxes: seq<real>, classIds: seq<int>, filters: seq<int>, threshold: real)
    requires Entries(order, boxes) && |order| == |classIds|
  {
    var r := Passes(order, boxes, classIds, filters, threshold);
    forall j | 0 <= j < |order| && order[j] != -1 && r[j] == -1 ::
      exists i :: 0 <= i < j && r[i] == order[i] && Overlaps(boxes, order, i, j, threshold)
  }

  /** Every removed entry overlaps an earlier-ranked one of its own class; classes belong to the boxes. */
  ghost predicate WithinClasses(order: seq<int>, boxes: seq<real>, classIds: seq<int>, filters: seq<int>, threshold: real)
    requires Ranking(order, boxes) && |order| == |classIds|
  {
    var r := Passes(order, boxes, classIds, filters, threshold);
    forall j | 0 <= j < |order| && r[j] == -1 ::
      exists i :: 0 <= i < j && classIds[order[i]] == classIds[order[j]] && Overlaps(boxes, order, i, j, threshold)
  }

  // ----- The range of the overlap

  lemma ProductAtMost(a: real, b: real, c: real, d: real)
    requires 0.0 <= a <= c && 0.0 <= b <= d
    ensures 0.0 <= a * b <= c * d
  {
    assert c * d - a * b == c * (d - b) + (c - a) * b;
  }

  /** Whatever the boxes, even inverted ones, an overlap lies between 0 and 1. */
  lemma OverlapRange(boxes: seq<real>, n: nat, m: nat)
    requires 4 * n + 4 <= |boxes| && 4 * m + 4 <= |boxes|
    ensures 0.0 <= Overlap(boxes, n, m) <= 1.0
  {
    RatioRange(boxes[n * 4 + 0], boxes[n * 4 + 1], boxes[n * 4 + 0] + boxes[n * 4 + 2], boxes[n * 4 + 1] + boxes[n * 4 + 3],
               boxes[m * 4 + 0], boxes[m * 4 + 1], boxes[m * 4 + 0] + boxes[m * 4 + 2], boxes[m * 4 + 1] + boxes[m * 4 + 3]);
    hide CalculateOverlap;
  }

  lemma RatioRange(x0: real, y0: real, x1: real, y1: real, v0: real, w0: real, v1: real, w1: real)
    ensures 0.0 <= CalculateOverlap(x0, y0, x1, y1, v0, w0, v1, w1) <= 1.0
  {
    var w := Max(0.0, Min(x1, v1) - Max(x0, v0) + 1.0);
    var h := Max(0.0, Min(y1, w1) - Max(y0, w0) + 1.0);
    if w > 0.0 && h > 0.0 {
      ProductAtMost(w, h, x1 - x0 + 1.0, y1 - y0 + 1.0);
      ProductAtMost(w, h, v1 - v0 + 1.0, w1 - w0 + 1.0);
    }
    assert w == 0.0 || h == 0.0 ==> w * h == 0.0;
    Fraction(w * h, (x1 - x0 + 1.0) * (y1 - y0 + 1.0) + (v1 - v0 + 1.0) * (w1 - w0 + 1.0) - w * h);
  }

  lemma Fraction(i: real, u: real)
    requires 0.0 <= i && (i <= u || i == 0.0)
    ensures u > 0.0 ==> 0.0 <= i / u <= 1.0 && (i == 0.0 ==> i / u == 0.0)
  {
    if u > 0.0 {
      assert i / u * u == i;
    }
  }

  // ----- When every removed entry overlaps a survivor

  /** With a threshold of 1 or more nothing is removed. */
  lemma NothingRemoved(order: seq<int>, boxes: seq<real>, classIds: seq<int>, filters: seq<int>, threshold: real, j: nat)
    requires Entries(order, boxes) && |order| == |classIds| && j < |order| && threshold >= 1.0 && order[j] != -1
    ensures Passes(order, boxes, classIds, filters, threshold)[j] != -1
  {
    var r := Passes(order, boxes, classIds, filters, threshold);
    var steps := PassesRun(order, boxes, classIds, filters, threshold);
    hide Passes, Overlap;
    RunKeeps(order, boxes, steps, r, threshold);
    if r[j] == -1 {
      var k := RemovedHasStep(order, boxes, steps, r, threshold, j);
      OverlapRange(boxes, order[steps[k].winner], order[j]);
    }
  }

  lemma ExplainedIf(order: seq<int>, boxes: seq<real>, classIds: seq<int>, filters: seq<int>, threshold: real)
    requires Ranking(order, boxes) && |order| == |classIds| && Increasing(filters)
    requires threshold < 0.0 || threshold >= 1.0 || NonDecreasing(Suppressing(classIds))
    ensures Explained(order, boxes, classIds, filters, threshold)
  {
    var r := Passes(order, boxes, classIds, filters, threshold);
    hide Passes, Overlap;
    forall j | 0 <= j < |order| && order[j] != -1 && r[j] == -1
      ensures exists i :: 0 <= i < j && r[i] == order[i] && Overlaps(boxes, order, i, j, threshold)
    {
      if threshold >= 1.0 {
        NothingRemoved(order, boxes, classIds, filters, threshold, j);
      } else if threshold < 0.0 {
        var steps := PassesRun(order, boxes, classIds, filters, threshold);
        RunKeeps(order, boxes, steps, r, threshold);
        OverlapRange(boxes, order[0], order[j]);
        assert Overlaps(boxes, order, 0, j, threshold);
      } else {
        var i := RemovedOverlapsSurvivor(order, boxes, classIds, filters, threshold, j);
      }
    }
  }

  function Identity(n: nat): (order: seq<int>)
    ensures |order| == n && forall k | 0 <= k < n :: order[k] == k
  {
    seq(n, k => k)
  }

  /** Boxes of which only `a` and `b`, and `b` and the one after it, overlap. */
  ghost predicate Chain(boxes: seq<real>, n: nat, a: nat, b: nat, threshold: real) {
    && a < b < n - 1 && |boxes| == 4 * n
    && forall i, j | 0 <= i < j < n :: Overlap(boxes, i, j) > threshold <==> (i == a && j == b) || (i == b && j == b + 1)
  }

  /** The middle of a chain survives a pass in which the class of its first is not up. */
  lemma MiddleKept(order: seq<int>, boxes: seq<real>, classIds: seq<int>, f: int, a: nat, b: nat, threshold: real)
    requires Chain(boxes, |order|, a, b, threshold) && |order| == |classIds|
    requires forall k | 0 <= k < |order| :: order[k] in [k, -1]
    requires order[b] == b && classIds[a] != f
    ensures var r := Pass(order, boxes, classIds, f, threshold, 0);
            r[b] == b && forall k | 0 <= k < |order| :: r[k] in [k, -1]
  {
    var r := Pass(order, boxes, classIds, f, threshold, 0);
    var steps := PassRun(order, boxes, classIds, f, threshold, 0);
    hide Pass, Overlap;
    RunKeeps(order, boxes, steps, r, threshold);
    if r[b] == -1 {
      var _ := RemovedHasStep(order, boxes, steps, r, threshold, b);
      assert false;
    }
  }

  /** The pass of the middle's class comes before its first's, and takes the last of the chain away. */
  lemma {:induction false} LastTaken(order: seq<int>, boxes: seq<real>, classIds: seq<int>, filters: seq<int>,
                                     a: nat, b: nat, threshold: real)
    requires Chain(boxes, |order|, a, b, threshold) && |order| == |classIds| && Increasing(filters)
    requires forall k | 0 <= k < |order| :: order[k] in [k, -1]
    requires order[b] == b && classIds[b] in filters && classIds[a] > classIds[b]
    ensures Passes(order, boxes, classIds, filters, threshold)[b + 1] == -1
    decreases |filters|
  {
    hide Overlap, Pass, Run;
    var mid := Pass(order, boxes, classIds, filters[0], threshold, 0);
    MiddleKept(order, boxes, classIds, filters[0], a, b, threshold);
    if filters[0] == classIds[b] {
      PassSettles(order, boxes, classIds, filters[0], threshold, 0, b);
      assert !Overlaps(boxes, mid, b, b + 1, threshold);
      assert Overlap(boxes, b, b + 1) > threshold;
      var steps := PassesRun(mid, boxes, classIds, filters[1..], threshold);
      RunKeeps(mid, boxes, steps, Passes(mid, boxes, classIds, filters[1..], threshold), threshold);
    } else {
      LastTaken(mid, boxes, classIds, filters[1..], a, b, threshold);
    }
  }

  /** The first of a chain is never removed. */
  lemma FirstKept(boxes: seq<real>, classIds: seq<int>, filters: seq<int>, a: nat, b: nat, threshold: real)
    requires Chain(boxes, |classIds|, a, b, threshold)
    ensures Passes(Identity(|classIds|), boxes, classIds, filters, threshold)[a] == a
  {
    var order := Identity(|classIds|);
    var r := Passes(order, boxes, classIds, filters, threshold);
    var steps := PassesRun(order, boxes, classIds, filters, threshold);
    hide Passes, Overlap;
    RunKeeps(order, boxes, steps, r, threshold);
    if r[a] == -1 {
      var _ := RemovedHasStep(order, boxes, steps, r, threshold, a);
      assert false;
    }
  }

  /** So the last of the chain goes, and the middle goes after it: the last overlaps no survivor. */
  lemma ChainUnexplained(boxes: seq<real>, classIds: seq<int>, filters: seq<int>, a: nat, b: nat, threshold: real)
    requires Chain(boxes, |classIds|, a, b, threshold) && Increasing(filters) && Covers(filters, classIds)
    requires classIds[a] > classIds[b]
    ensures !Explained(Identity(|classIds|), boxes, classIds, filters, threshold)
  {
    var order := Identity(|classIds|);
    var r := Passes(order, boxes, classIds, filters, threshold);
    LastTaken(order, boxes, classIds, filters, a, b, threshold);
    FirstKept(boxes, classIds, filters, a, b, threshold);
    NoSurvivorsOverlap(order, boxes, classIds, filters, threshold);
    hide Passes, Overlap;
    assert Overlap(boxes, a, b) > threshold;
    assert !Overlaps(boxes, r, a, b, threshold);
    forall i | 0 <= i < b + 1 && r[i] == order[i]
      ensures !Overlaps(boxes, order, i, b + 1, threshold)
    {
    }
  }

  // ----- A chain for any threshold from 0 to 1

  /** The boxes of a chain lie in one row, one step apart; every other box has a row of its own. */
  function Coordinate(k: nat, c: nat, a: nat, b: nat, threshold: real): real {
    match c
    case 0 => if k == b then 1.0 - threshold else if k == b + 1 then 2.0 - 2.0 * threshold else 0.0
    case 1 => if k == a || k == b || k == b + 1 then 0.0 else (k + 1) as real
    case 2 => 1.0 + 2.0 * threshold
    case _ => 0.0
  }

  function Layout(n: nat, a: nat, b: nat, threshold: real): (boxes: seq<real>)
    ensures |boxes| == 4 * n
  {
    seq(4 * n, p requires 0 <= p < 4 * n => Coordinate(p / 4, p % 4, a, b, threshold))
  }

  lemma LayoutAt(n: nat, a: nat, b: nat, threshold: real, k: nat, c: nat)
    requires k < n && c < 4
    ensures Layout(n, a, b, threshold)[k * 4 + c] == Coordinate(k, c, a, b, threshold)
  {
    assert (k * 4 + c) / 4 == k && (k * 4 + c) % 4 == c;
    hide Coordinate;
  }

  lemma LayoutBox(n: nat, a: nat, b: nat, t: real, k: nat)
    requires k < n
    ensures var s := Layout(n, a, b, t);
            && s[k * 4 + 0] == Coordinate(k, 0, a, b, t) && s[k * 4 + 1] == Coordinate(k, 1, a, b, t)
            && s[k * 4 + 2] == 1.0 + 2.0 * t && s[k * 4 + 3] == 0.0
  {
    hide Layout;
    LayoutAt(n, a, b, t, k, 0);
    LayoutAt(n, a, b, t, k, 1);
    LayoutAt(n, a, b, t, k, 2);
    LayoutAt(n, a, b, t, k, 3);
  }

  lemma SameRow(x: real, d: real, w: real, y: real)
    requires 0.0 <= d <= w + 1.0 && w >= 0.0
    ensures CalculateOverlap(x, y, x + w, y + 0.0, x + d, y, x + d + w, y + 0.0) == (w + 1.0 - d) / (w + 1.0 + d)
  {
    assert (w + 1.0 - d) * 1.0 == w + 1.0 - d;
  }

  lemma OtherRow(x: real, y: real, v: real, z: real, w: real)
    requires y - z >= 1.0 || z - y >= 1.0
    ensures CalculateOverlap(x, y, x + w, y + 0.0, v, z, v + w, z + 0.0) == 0.0
  {
    var k := Max(0.0, Min(x + w, v + w) - Max(x, v) + 1.0);
    assert Max(0.0, Min(y + 0.0, z + 0.0) - Max(y, z) + 1.0) == 0.0;
    assert k * 0.0 == 0.0;
    hide Max, Min;
    Fraction(0.0, (x + w - x + 1.0) * (y + 0.0 - y + 1.0) + (v + w - v + 1.0) * (z + 0.0 - z + 1.0) - k * 0.0);
  }

  lemma OneStep(t: real)
    requires 0.0 <= t < 1.0
    ensures (1.0 + 2.0 * t + 1.0 - (1.0 - t)) / (1.0 + 2.0 * t + 1.0 + (1.0 - t)) > t
  {
    assert t * (3.0 + t) < 1.0 + 3.0 * t by {
      ProductAtMost(t, t, t, 1.0);
      assert t * (1.0 - t) >= 0.0;
      assert t * t <= t;
    }
    Quotient(1.0 + 3.0 * t, 3.0 + t, t);
  }

  lemma Quotient(i: real, u: real, t: real)
    requires u > 0.0 && t * u < i
    ensures i / u > t
  {
    assert i / u * u == i;
    if i / u <= t {
      ProductBelow(i / u, t, u);
    }
  }

  lemma ProductBelow(p: real, q: real, u: real)
    requires p <= q && u > 0.0
    ensures p * u <= q * u
  {
  }

  lemma TwoSteps(t: real)
    requires 0.0 <= t < 1.0
    ensures (1.0 + 2.0 * t + 1.0 - (2.0 - 2.0 * t)) / (1.0 + 2.0 * t + 1.0 + (2.0 - 2.0 * t)) == t
  {
    assert 4.0 * t / 4.0 == t;
  }

  /** The overlap of two boxes of the layout, from their places. */
  lemma LayoutOverlap(n: nat, a: nat, b: nat, t: real, i: nat, j: nat)
    requires i < n && j < n
    ensures var (x, y) := (Coordinate(i, 0, a, b, t), Coordinate(i, 1, a, b, t));
            var (v, z, w) := (Coordinate(j, 0, a, b, t), Coordinate(j, 1, a, b, t), 1.0 + 2.0 * t);
            Overlap(Layout(n, a, b, t), i, j) == CalculateOverlap(x, y, x + w, y + 0.0, v, z, v + w, z + 0.0)
  {
    hide CalculateOverlap, Coordinate, Layout;
    LayoutBox(n, a, b, t, i);
    LayoutBox(n, a, b, t, j);
  }

  lemma LayoutEdges(n: nat, a: nat, b: nat, t: real, i: nat, j: nat)
    requires a < b < n - 1 && i < j < n && 0.0 <= t < 1.0
    ensures Overlap(Layout(n, a, b, t), i, j) > t <==> (i == a && j == b) || (i == b && j == b + 1)
  {
    hide Layout, Overlap, CalculateOverlap;
    LayoutOverlap(n, a, b, t, i, j);
    var x, y := Coordinate(i, 0, a, b, t), Coordinate(i, 1, a, b, t);
    var v, z := Coordinate(j, 0, a, b, t), Coordinate(j, 1, a, b, t);
    if i in [a, b] && j in [b, b + 1] {
      SameRow(x, v - x, 1.0 + 2.0 * t, 0.0);
      assert x + (v - x) == v && x + (v - x) + (1.0 + 2.0 * t) == v + (1.0 + 2.0 * t);
      OneStep(t);
      TwoSteps(t);
    } else {
      OtherRow(x, y, v, z, 1.0 + 2.0 * t);
    }
  }

  lemma LayoutIsChain(n: nat, a: nat, b: nat, t: real)
    requires a < b < n - 1 && 0.0 <= t < 1.0
    ensures Chain(Layout(n, a, b, t), n, a, b, t)
    ensures Ranking(Identity(n), Layout(n, a, b, t))
  {
    hide Overlap, Layout;
    forall i, j | 0 <= i < j < n
      ensures Overlap(Layout(n, a, b, t), i, j) > t <==> (i == a && j == b) || (i == b && j == b + 1)
    {
      LayoutEdges(n, a, b, t, i, j);
    }
    forall k | 0 <= k < n
      ensures Layout(n, a, b, t)[4 * k + 2] >= 0.0 && Layout(n, a, b, t)[4 * k + 3] >= 0.0
    {
      LayoutBox(n, a, b, t, k);
    }
  }

  /** For every vector of classes: the passes leave every removed detection overlapping a survivor, whatever
      the boxes and their ranking, exactly when the threshold cannot separate boxes or the classes read at
      all ranks but the last never decrease. */
  lemma RemovedOverlapsSurvivorExactly(classIds: seq<int>, filters: seq<int>, threshold: real)
    requires Increasing(filters) && Covers(filters, classIds)
    ensures (forall order, boxes | Ranking(order, boxes) && |order| == |classIds| ::
               Explained(order, boxes, classIds, filters, threshold))
            <==> threshold < 0.0 || threshold >= 1.0 || NonDecreasing(Suppressing(classIds))
  {
    hide Explained;
    if threshold < 0.0 || threshold >= 1.0 || NonDecreasing(Suppressing(classIds)) {
      forall order, boxes | Ranking(order, boxes) && |order| == |classIds|
        ensures Explained(order, boxes, classIds, filters, threshold)
      {
        ExplainedIf(order, boxes, classIds, filters, threshold);
      }
    } else {
      var a, b :| 0 <= a < b < |Suppressing(classIds)| && Suppressing(classIds)[a] > Suppressing(classIds)[b];
      LayoutIsChain(|classIds|, a, b, threshold);
      ChainUnexplained(Layout(|classIds|, a, b, threshold), classIds, filters, a, b, threshold);
    }
  }

  // ----- When suppression stays inside a class

  predicate AllEqual(s: seq<int>) {
    forall i | 0 <= i < |s| :: s[i] == s[0]
  }

  function Stacked(n: nat): (boxes: seq<real>)
    ensures |boxes| == 4 * n && forall p | 0 <= p < 4 * n :: boxes[p] == 0.0
  {
    seq(4 * n, _ => 0.0)
  }

  lemma StackedOverlap(n: nat, i: nat, j: nat)
    requires i < n && j < n
    ensures Overlap(Stacked(n), i, j) == 1.0
  {
    assert CalculateOverlap(0.0, 0.0, 0.0, 0.0, 0.0, 0.0, 0.0, 0.0) == 1.0;
    hide CalculateOverlap;
  }

  lemma WithinClassesIf(order: seq<int>, boxes: seq<real>, classIds: seq<int>, filters: seq<int>, threshold: real)
    requires Ranking(order, boxes) && |order| == |classIds| && (threshold >= 1.0 || AllEqual(classIds))
    ensures WithinClasses(order, boxes, classIds, filters, threshold)
  {
    var r := Passes(order, boxes, classIds, filters, threshold);
    var steps := PassesRun(order, boxes, classIds, filters, threshold);
    hide Passes, Overlap;
    forall j | 0 <= j < |order| && r[j] == -1
      ensures exists i :: 0 <= i < j && classIds[order[i]] == classIds[order[j]] && Overlaps(boxes, order, i, j, threshold)
    {
      if threshold >= 1.0 {
        NothingRemoved(order, boxes, classIds, filters, threshold, j);
      } else {
        var k := RemovedHasStep(order, boxes, steps, r, threshold, j);
        var i := steps[k].winner;
        assert classIds[order[i]] == classIds[0] == classIds[order[j]];
      }
    }
  }

  /** Boxes on top of each other: only the first survives, and the first of another class goes. */
  lemma StackedCrosses(classIds: seq<int>, filters: seq<int>, threshold: real, b: nat)
    requires threshold < 1.0 && Covers(filters, classIds) && b < |classIds|
    requires classIds[b] != classIds[0] && forall k | 0 <= k < b :: classIds[k] == classIds[0]
    ensures Ranking(Identity(|classIds|), Stacked(|classIds|))
    ensures !WithinClasses(Identity(|classIds|), Stacked(|classIds|), classIds, filters, threshold)
  {
    var order, boxes := Identity(|classIds|), Stacked(|classIds|);
    var r := Passes(order, boxes, classIds, filters, threshold);
    NoSurvivorsOverlap(order, boxes, classIds, filters, threshold);
    hide Passes, Overlap;
    StackedOverlap(|classIds|, 0, b);
    assert !Overlaps(boxes, r, 0, b, threshold);
    assert r[b] == -1;
  }

  /** For every vector of classes: no detection is removed for want of an overlapping one of its own class,
      whatever the boxes and their ranking, exactly when nothing overlaps enough or there is one class only. */
  lemma SuppressionWithinClassesExactly(classIds: seq<int>, filters: seq<int>, threshold: real)
    requires Covers(filters, classIds)
    ensures (forall order, boxes | Ranking(order, boxes) && |order| == |classIds| ::
               WithinClasses(order, boxes, classIds, filters, threshold))
            <==> threshold >= 1.0 || AllEqual(classIds)
  {
    hide WithinClasses, Ranking;
    if threshold >= 1.0 || AllEqual(classIds) {
      forall order, boxes | Ranking(order, boxes) && |order| == |classIds|
        ensures WithinClasses(order, boxes, classIds, filters, threshold)
      {
        WithinClassesIf(order, boxes, classIds, filters, threshold);
      }
    } else {
      var b := FirstOther(classIds, 1);
      StackedCrosses(classIds, filters, threshold, b);
    }
  }

  lemma {:induction false} FirstOther(classIds: seq<int>, from: nat) returns (b: nat)
    requires 1 <= from <= |classIds| && !AllEqual(classIds)
    requires forall k | 0 <= k < from :: classIds[k] == classIds[0]
    ensures b < |classIds| && classIds[b] != classIds[0] && forall k | 0 <= k < b :: classIds[k] == classIds[0]
    decreases |classIds| - from
  {
    if classIds[from] != classIds[0] {
      b := from;
    } else {
      b := FirstOther(classIds, from + 1);
    }
  }
}
