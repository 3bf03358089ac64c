/** Non-maximum suppression as the detector runs it: one in-place pass per class identifier. */
module Nms {

  function Max(a: real, b: real): real {
    if a >= b then a else b
  }

  function Min(a: real, b: real): real {
    if a <= b then a else b
  }

  /** `CalculateOverlap` over the reals: intersection over union of boxes with inclusive corners. */
  function CalculateOverlap(xmin0: real, ymin0: real, xmax0: real, ymax0: real,
                            xmin1: real, ymin1: real, xmax1: real, ymax1: real): real {
    var w := Max(0.0, Min(xmax0, xmax1) - Max(xmin0, xmin1) + 1.0);
    var h := Max(0.0, Min(ymax0, ymax1) - Max(ymin0, ymin1) + 1.0);
    var i := w * h;
    var u := (xmax0 - xmin0 + 1.0) * (ymax0 - ymin0 + 1.0) + (xmax1 - xmin1 + 1.0) * (ymax1 - ymin1 + 1.0) - i;
    if u <= 0.0 then 0.0 else i / u
  }

  /** The overlap of boxes `n` and `m`, stored as x, y, width, height. */
  function Overlap(boxes: seq<real>, n: nat, m: nat): real
    requires 4 * n + 4 <= |boxes| && 4 * m + 4 <= |boxes|
  {
    CalculateOverlap(boxes[n * 4 + 0], boxes[n * 4 + 1], boxes[n * 4 + 0] + boxes[n * 4 + 2], boxes[n * 4 + 1] + boxes[n * 4 + 3],
                     boxes[m * 4 + 0], boxes[m * 4 + 1], boxes[m * 4 + 0] + boxes[m * 4 + 2], boxes[m * 4 + 1] + boxes[m * 4 + 3])
  }

  /** Every entry names a box or is crossed out. */
  predicate Entries(order: seq<int>, boxes: seq<real>) {
    forall i | 0 <= i < |order| :: order[i] == -1 || (0 <= order[i] && 4 * order[i] + 4 <= |boxes|)
  }

  predicate Overlaps(boxes: seq<real>, order: seq<int>, i: nat, j: nat, threshold: real)
    requires Entries(order, boxes) && i < |order| && j < |order|
  {
    order[i] != -1 && order[j] != -1 && Overlap(boxes, order[i], order[j]) > threshold
  }

  // ----- The passes as functions of the order list

  /** The inner loop: crosses out every later entry, from `j` on, that overlaps box `n`. */
  function Suppress(order: seq<int>, boxes: seq<real>, n: nat, j: nat, threshold: real): (r: seq<int>)
    requires Entries(order, boxes) && 4 * n + 4 <= |boxes| && j <= |order|
    ensures |r| == |order| && Entries(r, boxes)
    decreases |order| - j
  {
    if j == |order| then order
    else if order[j] != -1 && Overlap(boxes, n, order[j]) > threshold then
      Suppress(order[j := -1], boxes, n, j + 1, threshold)
    else Suppress(order, boxes, n, j + 1, threshold)
  }

  /** The outer loop from position `i` on; the class test looks at the position, not at the entry. */
  function Pass(order: seq<int>, boxes: seq<real>, classIds: seq<int>, filterId: int, threshold: real, i: nat): (r: seq<int>)
    requires Entries(order, boxes) && i <= |order| == |classIds|
    ensures |r| == |order| && Entries(r, boxes)
    decreases |order| - i
  {
    if i == |order| then order
    else if order[i] == -1 || classIds[i] != filterId then Pass(order, boxes, classIds, filterId, threshold, i + 1)
    else Pass(Suppress(order, boxes, order[i], i + 1, threshold), boxes, classIds, filterId, threshold, i + 1)
  }

  /** One pass after another, in the order of `filters`. */
  function Passes(order: seq<int>, boxes: seq<real>, classIds: seq<int>, filters: seq<int>, threshold: real): (r: seq<int>)
    requires Entries(order, boxes) && |order| == |classIds|
    ensures |r| == |order| && Entries(r, boxes)
    decreases |filters|
  {
    if filters == [] then order
    else Passes(Pass(order, boxes, classIds, filters[0], threshold, 0), boxes, classIds, filters[1..], threshold)
  }

  // ----- Runs of single suppressions

  /** An entry crossed out because an earlier-ranked one, still alive, overlaps it. */
  datatype Step = Step(winner: nat, victim: nat)

  predicate Legal(order: seq<int>, boxes: seq<real>, s: Step, threshold: real)
    requires Entries(order, boxes)
  {
    s.winner < s.victim < |order| && Overlaps(boxes, order, s.winner, s.victim, threshold)
  }

  /** Whether `steps` are legal one after another, and lead from `order` to `end`. */
  ghost predicate Run(order: seq<int>, boxes: seq<real>, steps: seq<Step>, threshold: real, end: seq<int>)
    requires Entries(order, boxes)
    decreases |steps|
  {
    if steps == [] then order == end
    else
      && Legal(order, boxes, steps[0], threshold)
      && Run(order[steps[0].victim := -1], boxes, steps[1..], threshold, end)
  }

  lemma {:induction false} RunConcat(a: seq<int>, boxes: seq<real>, s: seq<Step>, b: seq<int>, t: seq<Step>, c: seq<int>,
                                     threshold: real)
    requires Entries(a, boxes) && Entries(b, boxes)
    requires Run(a, boxes, s, threshold, b) && Run(b, boxes, t, threshold, c)
    ensures Run(a, boxes, s + t, threshold, c)
    decreases |s|
  {
    hide Overlap;
    if s == [] {
      assert s + t == t;
    } else {
      RunConcat(a[s[0].victim := -1], boxes, s[1..], b, t, c, threshold);
      assert (s + t)[0] == s[0] && (s + t)[1..] == s[1..] + t;
    }
  }

  /** Whatever run of suppressions happens, entries stay or are crossed out, and the first stays. */
  lemma {:induction false} RunKeeps(a: seq<int>, boxes: seq<real>, steps: seq<Step>, b: seq<int>, threshold: real)
    requires Entries(a, boxes) && Run(a, boxes, steps, threshold, b)
    ensures |b| == |a| && forall i | 0 <= i < |a| :: b[i] == a[i] || b[i] == -1
    ensures |a| > 0 ==> b[0] == a[0]
    decreases |steps|
  {
    if steps != [] {
      RunKeeps(a[steps[0].victim := -1], boxes, steps[1..], b, threshold);
    }
  }

  /** Every entry that went away was crossed out by one of the steps. */
  lemma {:induction false} RemovedHasStep(a: seq<int>, boxes: seq<real>, steps: seq<Step>, b: seq<int>, threshold: real, j: nat)
    returns (k: nat)
    requires Entries(a, boxes) && Run(a, boxes, steps, threshold, b)
    requires j < |a| && |b| == |a| && a[j] != -1 && b[j] == -1
    ensures k < |steps| && steps[k].victim == j && steps[k].winner < j
    ensures Overlaps(boxes, a, steps[k].winner, j, threshold)
    decreases |steps|
  {
    hide Overlap;
    if steps[0].victim == j {
      k := 0;
    } else {
      var m := RemovedHasStep(a[steps[0].victim := -1], boxes, steps[1..], b, threshold, j);
      k := m + 1;
    }
  }

  /** The winners of the steps come in rank order. */
  ghost predicate Ranked(steps: seq<Step>) {
    forall a, b | 0 <= a < b < |steps| :: steps[a].winner <= steps[b].winner
  }

  predicate NonDecreasing(s: seq<int>) {
    forall i, j | 0 <= i < j < |s| :: s[i] <= s[j]
  }

  predicate Increasing(s: seq<int>) {
    forall i, j | 0 <= i < j < |s| :: s[i] < s[j]
  }

  /** The classes read at the ranks that can suppress another: all but the last. */
  function Suppressing(classIds: seq<int>): seq<int> {
    if classIds == [] then [] else classIds[..|classIds| - 1]
  }

  lemma {:induction false} SuppressRun(order: seq<int>, boxes: seq<real>, i: nat, j: nat, threshold: real)
    returns (steps: seq<Step>)
    requires Entries(order, boxes) && i < j <= |order| && order[i] != -1
    ensures Run(order, boxes, steps, threshold, Suppress(order, boxes, order[i], j, threshold))
    ensures Suppress(order, boxes, order[i], j, threshold)[i] == order[i]
    ensures forall k | 0 <= k < |steps| :: steps[k].winner == i < |order| - 1
    decreases |order| - j
  {
    hide Overlap;
    if j == |order| {
      steps := [];
    } else if order[j] != -1 && Overlap(boxes, order[i], order[j]) > threshold {
      var tail := SuppressRun(order[j := -1], boxes, i, j + 1, threshold);
      steps := [Step(i, j)] + tail;
      assert steps[1..] == tail;
    } else {
      steps := SuppressRun(order, boxes, i, j + 1, threshold);
    }
  }

  lemma {:induction false} PassRun(order: seq<int>, boxes: seq<real>, classIds: seq<int>, filterId: int, threshold: real, i: nat)
    returns (steps: seq<Step>)
    requires Entries(order, boxes) && i <= |order| == |classIds|
    ensures Run(order, boxes, steps, threshold, Pass(order, boxes, classIds, filterId, threshold, i))
    ensures Ranked(steps)
    ensures forall k | 0 <= k < |steps| :: i <= steps[k].winner < |order| - 1 && classIds[steps[k].winner] == filterId
    decreases |order| - i
  {
    hide Suppress, Run, Legal;
    if i == |order| {
      steps := [];
      EmptyRun(order, boxes, threshold);
    } else if order[i] == -1 || classIds[i] != filterId {
      steps := PassRun(order, boxes, classIds, filterId, threshold, i + 1);
    } else {
      var mid := Suppress(order, boxes, order[i], i + 1, threshold);
      var s := SuppressRun(order, boxes, i, i + 1, threshold);
      var t := PassRun(mid, boxes, classIds, filterId, threshold, i + 1);
      steps := s + t;
      RunConcat(order, boxes, s, mid, t, Pass(mid, boxes, classIds, filterId, threshold, i + 1), threshold);
    }
  }

  lemma EmptyRun(order: seq<int>, boxes: seq<real>, threshold: real)
    requires Entries(order, boxes)
    ensures Run(order, boxes, [], threshold, order)
  {
  }

  /** All passes together are a run of suppressions, each by an earlier-ranked entry alive at that moment. */
  lemma {:induction false} PassesRun(order: seq<int>, boxes: seq<real>, classIds: seq<int>, filters: seq<int>, threshold: real)
    returns (steps: seq<Step>)
    requires Entries(order, boxes) && |order| == |classIds|
    ensures Run(order, boxes, steps, threshold, Passes(order, boxes, classIds, filters, threshold))
    ensures forall k | 0 <= k < |steps| :: steps[k].winner < |order| - 1 && classIds[steps[k].winner] in filters
    ensures NonDecreasing(Suppressing(classIds)) && Increasing(filters) ==> Ranked(steps)
    decreases |filters|
  {
    hide Pass, Run;
    if filters == [] {
      steps := [];
      EmptyRun(order, boxes, threshold);
    } else {
      var mid := Pass(order, boxes, classIds, filters[0], threshold, 0);
      var s := PassRun(order, boxes, classIds, filters[0], threshold, 0);
      var t := PassesRun(mid, boxes, classIds, filters[1..], threshold);
      steps := s + t;
      if NonDecreasing(Suppressing(classIds)) && Increasing(filters) {
        assert Ranked(steps) by {
          forall a, b | 0 <= a < |s| && 0 <= b < |t|
            ensures s[a].winner <= t[b].winner
          {
            var own := Suppressing(classIds);
            assert classIds[t[b].winner] in filters[1..];
            assert own[s[a].winner] == filters[0] && own[t[b].winner] in filters[1..];
          }
        }
      }
      RunConcat(order, boxes, s, mid, t, Passes(mid, boxes, classIds, filters[1..], threshold), threshold);
    }
  }

  // ----- No two survivors overlap

  /** Position `i` is crossed out, or no later survivor overlaps it. */
  predicate Settled(order: seq<int>, boxes: seq<real>, i: nat, threshold: real)
    requires Entries(order, boxes)
  {
    i < |order| && forall j | i < j < |order| :: !Overlaps(boxes, order, i, j, threshold)
  }

  lemma SettledStays(a: seq<int>, b: seq<int>, boxes: seq<real>, i: nat, threshold: real)
    requires Entries(a, boxes) && Entries(b, boxes) && Settled(a, boxes, i, threshold)
    requires |b| == |a| && forall k | 0 <= k < |a| :: b[k] == a[k] || b[k] == -1
    ensures Settled(b, boxes, i, threshold)
  {
    hide Overlap;
    assert forall j | i < j < |b| :: Overlaps(boxes, b, i, j, threshold) ==> Overlaps(boxes, a, i, j, threshold);
  }

  lemma {:induction false} SuppressClears(order: seq<int>, boxes: seq<real>, n: nat, j: nat, threshold: real)
    requires Entries(order, boxes) && 4 * n + 4 <= |boxes| && j <= |order|
    ensures var r := Suppress(order, boxes, n, j, threshold);
            && (forall k | 0 <= k < |order| :: r[k] == order[k] || r[k] == -1)
            && (forall k | 0 <= k < j :: r[k] == order[k])
            && (forall k | j <= k < |order| && r[k] != -1 :: Overlap(boxes, n, r[k]) <= threshold)
    decreases |order| - j
  {
    hide Overlap;
    if j < |order| {
      if order[j] != -1 && Overlap(boxes, n, order[j]) > threshold {
        SuppressClears(order[j := -1], boxes, n, j + 1, threshold);
      } else {
        SuppressClears(order, boxes, n, j + 1, threshold);
      }
    }
  }

  lemma SuppressSettles(order: seq<int>, boxes: seq<real>, i: nat, threshold: real)
    requires Entries(order, boxes) && i < |order| && order[i] != -1
    ensures Settled(Suppress(order, boxes, order[i], i + 1, threshold), boxes, i, threshold)
  {
    SuppressClears(order, boxes, order[i], i + 1, threshold);
    hide Overlap;
  }

  lemma PassKeeps(order: seq<int>, boxes: seq<real>, classIds: seq<int>, filterId: int, threshold: real, i: nat)
    requires Entries(order, boxes) && i <= |order| == |classIds|
    ensures forall k | 0 <= k < |order| ::
              Pass(order, boxes, classIds, filterId, threshold, i)[k] in [order[k], -1]
  {
    var steps := PassRun(order, boxes, classIds, filterId, threshold, i);
    hide Pass, Run;
    RunKeeps(order, boxes, steps, Pass(order, boxes, classIds, filterId, threshold, i), threshold);
  }

  /** A pass settles every position with its class, from `i` on. */
  lemma {:induction false} PassSettles(order: seq<int>, boxes: seq<real>, classIds: seq<int>, filterId: int, threshold: real,
                                       i: nat, p: nat)
    requires Entries(order, boxes) && i <= p < |order| == |classIds| && classIds[p] == filterId
    ensures Settled(Pass(order, boxes, classIds, filterId, threshold, i), boxes, p, threshold)
    decreases |order| - i
  {
    hide Overlap, Suppress, Settled;
    var skip := order[i] == -1 || classIds[i] != filterId;
    var mid := if skip then order else Suppress(order, boxes, order[i], i + 1, threshold);
    assert Pass(order, boxes, classIds, filterId, threshold, i) == Pass(mid, boxes, classIds, filterId, threshold, i + 1);
    if i < p {
      PassSettles(mid, boxes, classIds, filterId, threshold, i + 1, p);
    } else {
      if skip {
        CrossedOutSettled(order, boxes, p, threshold);
      } else {
        SuppressSettles(order, boxes, i, threshold);
      }
      hide Pass;
      PassKeeps(mid, boxes, classIds, filterId, threshold, i + 1);
      SettledStays(mid, Pass(mid, boxes, classIds, filterId, threshold, i + 1), boxes, p, threshold);
    }
  }

  lemma CrossedOutSettled(order: seq<int>, boxes: seq<real>, p: nat, threshold: real)
    requires Entries(order, boxes) && p < |order| && order[p] == -1
    ensures Settled(order, boxes, p, threshold)
  {
  }

  /** The passes settle every position whose class is among the filters. */
  lemma {:induction false} PassesSettle(order: seq<int>, boxes: seq<real>, classIds: seq<int>, filters: seq<int>, threshold: real,
                                        p: nat)
    requires Entries(order, boxes) && p < |order| == |classIds| && classIds[p] in filters
    ensures Settled(Passes(order, boxes, classIds, filters, threshold), boxes, p, threshold)
    decreases |filters|
  {
    hide Pass, Settled;
    var mid := Pass(order, boxes, classIds, filters[0], threshold, 0);
    if classIds[p] == filters[0] {
      PassSettles(order, boxes, classIds, filters[0], threshold, 0, p);
      var steps := PassesRun(mid, boxes, classIds, filters[1..], threshold);
      hide Passes, Run;
      RunKeeps(mid, boxes, steps, Passes(mid, boxes, classIds, filters[1..], threshold), threshold);
      SettledStays(mid, Passes(mid, boxes, classIds, filters[1..], threshold), boxes, p, threshold);
    } else {
      PassesSettle(mid, boxes, classIds, filters[1..], threshold, p);
    }
  }

  // ----- The result

  predicate Covers(filters: seq<int>, classIds: seq<int>) {
    forall i | 0 <= i < |classIds| :: classIds[i] in filters
  }

  /** After the passes over all classes present: entries are unchanged or crossed out, the top one stays,
      and no two survivors overlap above the threshold, whatever their classes. */
  lemma NoSurvivorsOverlap(order: seq<int>, boxes: seq<real>, classIds: seq<int>, filters: seq<int>, threshold: real)
    requires Entries(order, boxes) && |order| == |classIds| && Covers(filters, classIds)
    ensures var r := Passes(order, boxes, classIds, filters, threshold);
            && |r| == |order|
            && (forall i | 0 <= i < |order| :: r[i] == order[i] || r[i] == -1)
            && (|order| > 0 ==> r[0] == order[0])
            && (forall i, j | 0 <= i < j < |order| :: !Overlaps(boxes, r, i, j, threshold))
  {
    hide Overlap, Passes, Run;
    var r := Passes(order, boxes, classIds, filters, threshold);
    var steps := PassesRun(order, boxes, classIds, filters, threshold);
    RunKeeps(order, boxes, steps, r, threshold);
    forall i, j | 0 <= i < j < |order|
      ensures !Overlaps(boxes, r, i, j, threshold)
    {
      PassesSettle(order, boxes, classIds, filters, threshold, i);
    }
  }

  /** Each removed entry overlapped, when it was removed, an earlier-ranked entry alive at that moment. */
  lemma RemovalIsJustified(order: seq<int>, boxes: seq<real>, classIds: seq<int>, filters: seq<int>, threshold: real, j: nat)
    returns (steps: seq<Step>, k: nat)
    requires Entries(order, boxes) && |order| == |classIds| && j < |order|
    requires order[j] != -1 && Passes(order, boxes, classIds, filters, threshold)[j] == -1
    ensures Run(order, boxes, steps, threshold, Passes(order, boxes, classIds, filters, threshold))
    ensures k < |steps| && steps[k].victim == j && steps[k].winner < j
  {
    steps := PassesRun(order, boxes, classIds, filters, threshold);
    hide Passes;
    k := RemovedHasStep(order, boxes, steps, Passes(order, boxes, classIds, filters, threshold), threshold, j);
  }

  /** Three boxes in a row, each overlapping only its neighbours. */
  const ROW: seq<real> := [0.0, 0.0, 9.0, 0.0, 5.0, 0.0, 9.0, 0.0, 10.0, 0.0, 9.0, 0.0]

  lemma RowOverlaps()
    ensures |ROW| == 12
    ensures Overlap(ROW, 0, 1) > 0.3 && Overlap(ROW, 1, 2) > 0.3 && Overlap(ROW, 0, 2) == 0.0
  {
    assert Overlap(ROW, 0, 1) == CalculateOverlap(0.0, 0.0, 9.0, 0.0, 5.0, 0.0, 14.0, 0.0);
    assert Overlap(ROW, 1, 2) == CalculateOverlap(5.0, 0.0, 14.0, 0.0, 10.0, 0.0, 19.0, 0.0);
    assert Overlap(ROW, 0, 2) == CalculateOverlap(0.0, 0.0, 9.0, 0.0, 10.0, 0.0, 19.0, 0.0);
  }

  lemma {:induction false} LowEntriesKept(a: seq<int>, boxes: seq<real>, steps: seq<Step>, b: seq<int>, threshold: real, w: nat)
    requires Entries(a, boxes) && Run(a, boxes, steps, threshold, b) && w < |a|
    requires forall k | 0 <= k < |steps| :: w <= steps[k].winner
    ensures |b| == |a| && b[w] == a[w]
    decreases |steps|
  {
    hide Overlap;
    if steps != [] {
      LowEntriesKept(a[steps[0].victim := -1], boxes, steps[1..], b, threshold, w);
    }
  }

  /** When winners come in rank order, each of them survives. */
  lemma {:induction false} WinnersSurvive(a: seq<int>, boxes: seq<real>, steps: seq<Step>, b: seq<int>, threshold: real, k: nat)
    requires Entries(a, boxes) && Run(a, boxes, steps, threshold, b) && Ranked(steps) && k < |steps|
    ensures steps[k].winner < |a| == |b| && b[steps[k].winner] == a[steps[k].winner] != -1
    decreases |steps|
  {
    hide Overlap;
    var next := a[steps[0].victim := -1];
    if k == 0 {
      LowEntriesKept(next, boxes, steps[1..], b, threshold, steps[0].winner);
    } else {
      WinnersSurvive(next, boxes, steps[1..], b, threshold, k - 1);
    }
  }

  /** If the class identifiers read at all ranks but the last never decrease, the passes visit the positions
      in rank order and every removed entry overlaps an earlier-ranked survivor. */
  lemma RemovedOverlapsSurvivor(order: seq<int>, boxes: seq<real>, classIds: seq<int>, filters: seq<int>, threshold: real, j: nat)
    returns (i: nat)
    requires Entries(order, boxes) && |order| == |classIds| && j < |order|
    requires NonDecreasing(Suppressing(classIds)) && Increasing(filters)
    requires order[j] != -1 && Passes(order, boxes, classIds, filters, threshold)[j] == -1
    ensures i < j && Passes(order, boxes, classIds, filters, threshold)[i] == order[i]
    ensures Overlaps(boxes, order, i, j, threshold)
  {
    var steps := PassesRun(order, boxes, classIds, filters, threshold);
    hide Passes, Overlap;
    var r := Passes(order, boxes, classIds, filters, threshold);
    var k := RemovedHasStep(order, boxes, steps, r, threshold, j);
    WinnersSurvive(order, boxes, steps, r, threshold, k);
    i := steps[k].winner;
  }

  /** In general a removed entry may overlap no survivor at all: here the second pass removes the very entry
      that removed the last one in the first pass. */
  lemma OrphanedRemoval()
    ensures Entries([0, 1, 2], ROW) && Passes([0, 1, 2], ROW, [1, 0, 1], [0, 1], 0.3) == [0, -1, -1]
    ensures Overlap(ROW, 0, 2) == 0.0
  {
    RowOverlaps();
    hide Overlap;
    var o := [0, 1, 2];
    assert Suppress(o, ROW, 1, 2, 0.3) == Suppress([0, 1, -1], ROW, 1, 3, 0.3) == [0, 1, -1];
    assert Pass(o, ROW, [1, 0, 1], 0, 0.3, 0) == Pass(o, ROW, [1, 0, 1], 0, 0.3, 1) == Pass([0, 1, -1], ROW, [1, 0, 1], 0, 0.3, 2);
    assert Pass([0, 1, -1], ROW, [1, 0, 1], 0, 0.3, 2) == Pass([0, 1, -1], ROW, [1, 0, 1], 0, 0.3, 3) == [0, 1, -1];
    assert Suppress([0, 1, -1], ROW, 0, 1, 0.3) == Suppress([0, -1, -1], ROW, 0, 2, 0.3);
    assert Suppress([0, -1, -1], ROW, 0, 2, 0.3) == Suppress([0, -1, -1], ROW, 0, 3, 0.3) == [0, -1, -1];
    assert Pass([0, 1, -1], ROW, [1, 0, 1], 1, 0.3, 0) == Pass([0, -1, -1], ROW, [1, 0, 1], 1, 0.3, 1);
    assert Pass([0, -1, -1], ROW, [1, 0, 1], 1, 0.3, 1) == Pass([0, -1, -1], ROW, [1, 0, 1], 1, 0.3, 2);
    assert Pass([0, -1, -1], ROW, [1, 0, 1], 1, 0.3, 2) == Pass([0, -1, -1], ROW, [1, 0, 1], 1, 0.3, 3) == [0, -1, -1];
    assert [0, 1][1..] == [1] && [1][1..] == [];
  }

  /** Suppression crosses classes: a detection can lose to one of another class. */
  lemma ClassesInteract()
    ensures Entries([0, 1], ROW) && Passes([0, 1], ROW, [3, 7], [3, 7], 0.3) == [0, -1]
  {
    RowOverlaps();
    hide Overlap;
    assert Suppress([0, 1], ROW, 0, 1, 0.3) == Suppress([0, -1], ROW, 0, 2, 0.3) == [0, -1];
    assert Pass([0, 1], ROW, [3, 7], 3, 0.3, 0) == Pass([0, -1], ROW, [3, 7], 3, 0.3, 1);
    assert Pass([0, -1], ROW, [3, 7], 3, 0.3, 1) == Pass([0, -1], ROW, [3, 7], 3, 0.3, 2) == [0, -1];
    assert Pass([0, -1], ROW, [3, 7], 7, 0.3, 0) == Pass([0, -1], ROW, [3, 7], 7, 0.3, 1);
    assert Pass([0, -1], ROW, [3, 7], 7, 0.3, 1) == Pass([0, -1], ROW, [3, 7], 7, 0.3, 2) == [0, -1];
    assert [3, 7][1..] == [7] && [7][1..] == [];
  }

  // ----- The detector's loops

  /** `nms`: one pass, in place. */
  method NmsPass(validCount: nat, outputLocations: seq<real>, classIds: seq<int>, order: array<int>, filterId: int, threshold: real)
    requires validCount == order.Length == |classIds| && Entries(order[..], outputLocations)
    modifies order
    ensures Entries(order[..], outputLocations)
    ensures order[..] == Pass(old(order[..]), outputLocations, classIds, filterId, threshold, 0)
  {
    hide Overlap, Suppress;
    ghost var total := Pass(order[..], outputLocations, classIds, filterId, threshold, 0);
    var i := 0;
    while i < validCount
      invariant 0 <= i <= validCount && Entries(order[..], outputLocations)
      invariant Pass(order[..], outputLocations, classIds, filterId, threshold, i) == total
    {
      if !(order[i] == -1 || classIds[i] != filterId) {
        SuppressLater(validCount, outputLocations, order, order[i], i + 1, threshold);
      }
      i := i + 1;
    }
  }

  /** The inner loop of `nms`. */
  method SuppressLater(validCount: nat, outputLocations: seq<real>, order: array<int>, n: nat, from: nat, threshold: real)
    requires validCount == order.Length && Entries(order[..], outputLocations) && from <= validCount
    requires 4 * n + 4 <= |outputLocations|
    modifies order
    ensures Entries(order[..], outputLocations)
    ensures order[..] == Suppress(old(order[..]), outputLocations, n, from, threshold)
  {
    hide Overlap;
    ghost var total := Suppress(order[..], outputLocations, n, from, threshold);
    var j := from;
    while j < validCount
      invariant from <= j <= validCount && Entries(order[..], outputLocations)
      invariant Suppress(order[..], outputLocations, n, j, threshold) == total
    {
      var m := order[j];
      if m != -1 {
        var iou := Overlap(outputLocations, n, m);
        if iou > threshold {
          ghost var before := order[..];
          order[j] := -1;
          assert order[..] == before[j := -1];
        }
      }
      j := j + 1;
    }
  }
}
