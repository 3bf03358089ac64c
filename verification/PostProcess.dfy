/** The detector's post-processing: candidates from the grids, ranking, suppression, the bounded report. */
module PostProcess {
  import opened Arith
  import opened Nms
  import QuickSort

  const OBJ_CLASS_NUM: nat := 80
  const PROP_BOX_SIZE: nat := 85
  const OBJ_NUMB_MAX_SIZE: nat := 128

  type int8 = x: int | -128 <= x < 128

  // ----- Quantisation

  /** C conversion of a float to an integer: toward zero. */
  function Trunc(r: real): int {
    if r >= 0.0 then r.Floor else 0 - (0.0 - r).Floor
  }

  /** `__clip` and the conversion of its result. */
  function Clip(val: real, min: real, max: real): int {
    Trunc(if val <= min then min else if val >= max then max else val)
  }

  function QntF32ToAffine(f: real, zp: int, scale: real): (q: int)
    requires scale > 0.0
    ensures -128 <= q <= 127
  {
    Clip(f / scale + zp as real, -128.0, 127.0)
  }

  function Deqnt(q: int8, zp: int, scale: real): real {
    (q as real - zp as real) * scale
  }

  /** The integer test against the quantised threshold passes every value that reaches the threshold. */
  lemma ThresholdPasses(f: real, zp: int, scale: real, q: int8)
    requires scale > 0.0 && Deqnt(q, zp, scale) >= f
    ensures q >= QntF32ToAffine(f, zp, scale)
  {
    var v := f / scale + zp as real;
    Steps(f, q as real - zp as real, v - zp as real, scale);
    TruncBelow(v, q);
  }

  /** Where the threshold is in the range of a byte, the test passes nothing a whole step below it. */
  lemma ThresholdStops(f: real, zp: int, scale: real, q: int8)
    requires scale > 0.0 && f / scale + zp as real < 128.0 && q >= QntF32ToAffine(f, zp, scale)
    ensures Deqnt(q, zp, scale) > f - scale
  {
    var v := f / scale + zp as real;
    Steps(f, q as real - zp as real, v - zp as real, scale);
    TruncAbove(v, q);
  }

  /** Comparing multiples of the scale is comparing the factors. */
  lemma Steps(f: real, n: real, u: real, scale: real)
    requires scale > 0.0 && u == f / scale
    ensures n * scale >= f <==> n >= u
    ensures n * scale > f - scale <==> n > u - 1.0
  {
    var x, y := n - u, n - u + 1.0;
    assert u * scale == f;
    assert x * scale == n * scale - f;
    assert y * scale == n * scale - f + scale;
    Sign(x, scale);
    Sign(y, scale);
  }

  lemma Sign(x: real, scale: real)
    requires scale > 0.0
    ensures (x * scale >= 0.0 <==> x >= 0.0) && (x * scale > 0.0 <==> x > 0.0)
  {
  }

  lemma TruncBelow(v: real, q: int8)
    requires v <= q as real
    ensures Clip(v, -128.0, 127.0) <= q
  {
  }

  lemma TruncAbove(v: real, q: int8)
    requires v < 128.0 && q >= Clip(v, -128.0, 127.0)
    ensures q as real > v - 1.0
  {
  }

  // ----- Candidates

  datatype Candidate = Candidate(score: real, cls: nat, x: real, y: real, w: real, h: real)

  /** One output tensor of the model and how to read it. */
  datatype Grid = Grid(input: seq<int8>, anchor: seq<nat>, gridH: nat, gridW: nat, stride: nat, threshold: real, zp: int, scale: real) {

    ghost predicate Valid() {
      && |anchor| == 6 && scale > 0.0
      && |input| == (gridH * gridW) * 3 * PROP_BOX_SIZE
    }

    /** The number of cells times anchors. */
    function Slots(): nat {
      (gridH * gridW) * 3
    }
  }

  /** The quantised probability of class `m`. */
  function Prob(hw: seq<int8>, m: nat): int
    requires |hw| == PROP_BOX_SIZE && m < OBJ_CLASS_NUM
  {
    hw[5 + m]
  }

  /** The first class of greatest probability among classes 0 to k. */
  function BestClass(hw: seq<int8>, k: nat): (c: nat)
    requires |hw| == PROP_BOX_SIZE && k < OBJ_CLASS_NUM
    ensures c <= k
  {
    if k == 0 then 0
    else
      var c := BestClass(hw, k - 1);
      if Prob(hw, k) > Prob(hw, c) then k else c
  }

  /** The class reported has the greatest probability, the first of equals. */
  lemma {:induction false} BestClassIsBest(hw: seq<int8>, k: nat)
    requires |hw| == PROP_BOX_SIZE && k < OBJ_CLASS_NUM
    ensures forall m: nat | m <= k :: Prob(hw, m) <= Prob(hw, BestClass(hw, k))
    ensures forall m: nat | m < BestClass(hw, k) :: Prob(hw, m) < Prob(hw, BestClass(hw, k))
  {
    if k > 0 {
      BestClassIsBest(hw, k - 1);
    }
  }

  /** The candidate of cell row `h`, column `w` and anchor `a`, if its slot passes both tests. */
  function CandidateOf(g: Grid, hw: seq<int8>, h: nat, w: nat, a: nat): seq<Candidate>
    requires g.Valid() && |hw| == PROP_BOX_SIZE && a < 3
  {
    var c := BestClass(hw, OBJ_CLASS_NUM - 1);
    if hw[4] < QntF32ToAffine(g.threshold, g.zp, g.scale) || Score(g, hw, c) <= g.threshold then []
    else
      [MakeCandidate(Score(g, hw, c), c, Deqnt(hw[0], g.zp, g.scale), Deqnt(hw[1], g.zp, g.scale), Deqnt(hw[2], g.zp, g.scale),
                     Deqnt(hw[3], g.zp, g.scale), h, w, g.stride, g.anchor[a * 2], g.anchor[a * 2 + 1])]
  }

  /** Confidence times the probability of class `c`, dequantised. */
  function Score(g: Grid, hw: seq<int8>, c: nat): real
    requires |hw| == PROP_BOX_SIZE && c < OBJ_CLASS_NUM
  {
    Deqnt(hw[4], g.zp, g.scale) * Deqnt(hw[5 + c], g.zp, g.scale)
  }

  /** The box as the scan computes it from four dequantised numbers. */
  function MakeCandidate(score: real, cls: nat, d0: real, d1: real, d2: real, d3: real, h: nat, w: nat, stride: nat,
                         anchorW: nat, anchorH: nat): Candidate
  {
    var bw, bh := d2 * 2.0 * (d2 * 2.0) * anchorW as real, d3 * 2.0 * (d3 * 2.0) * anchorH as real;
    var px := (d0 * 2.0 - 0.5 + w as real) * stride as real - bw / 2.0;
    var py := (d1 * 2.0 - 0.5 + h as real) * stride as real - bh / 2.0;
    Candidate(score, cls, px, py, bw, bh)
  }

  // ----- What a candidate is

  /** The real number a quantised one stands for. */
  function Value(g: Grid, q: int8): real {
    (q - g.zp) as real * g.scale
  }

  /** Class `k` is no better than class `m`, and worse if it comes first. */
  predicate NoBetter(hw: seq<int8>, k: nat, m: nat)
    requires |hw| == PROP_BOX_SIZE && k < 80 && m < 80
  {
    hw[5 + k] <= hw[5 + m] && (k < m ==> hw[5 + k] < hw[5 + m])
  }

  /** Class `m` has the greatest probability, the first of equals. */
  predicate FirstGreatest(hw: seq<int8>, m: nat)
    requires |hw| == PROP_BOX_SIZE
  {
    m < 80 && forall k | 0 <= k < 80 :: NoBetter(hw, k, m)
  }

  /** Confidence times the probability of class `m`. */
  function Product(g: Grid, hw: seq<int8>, m: nat): real
    requires |hw| == PROP_BOX_SIZE && m < 80
  {
    Value(g, hw[4]) * Value(g, hw[5 + m])
  }

  /** A slot holds a detection when its confidence passes the integer test and the product of confidence and
      greatest class probability passes the real one. */
  ghost predicate Detected(g: Grid, hw: seq<int8>)
    requires g.Valid() && |hw| == PROP_BOX_SIZE
  {
    && hw[4] >= QntF32ToAffine(g.threshold, g.zp, g.scale)
    && forall m | 0 <= m < 80 && FirstGreatest(hw, m) :: Product(g, hw, m) > g.threshold
  }

  /** Where the centre of a box lies and how large it is, from the four numbers of its slot. */
  predicate Placed(c: Candidate, d0: real, d1: real, d2: real, d3: real, row: nat, column: nat, stride: nat,
                   anchorW: nat, anchorH: nat)
  {
    && c.x + c.w / 2.0 == (column as real + 2.0 * d0 - 0.5) * stride as real
    && c.y + c.h / 2.0 == (row as real + 2.0 * d1 - 0.5) * stride as real
    && c.w == 4.0 * (d2 * d2) * anchorW as real
    && c.h == 4.0 * (d3 * d3) * anchorH as real
  }

  /** Candidate `c` is what the 85 numbers of a slot in this row and column say, under anchor `a`: its place and
      size, its class and its score. */
  ghost predicate Describes(c: Candidate, g: Grid, hw: seq<int8>, row: nat, column: nat, a: nat)
    requires g.Valid() && |hw| == PROP_BOX_SIZE && a < 3
  {
    && Placed(c, Value(g, hw[0]), Value(g, hw[1]), Value(g, hw[2]), Value(g, hw[3]), row, column, g.stride,
              g.anchor[2 * a], g.anchor[2 * a + 1])
    && FirstGreatest(hw, c.cls) && c.score == Product(g, hw, c.cls)
  }

  lemma FirstGreatestUnique(hw: seq<int8>, m: nat, n: nat)
    requires |hw| == PROP_BOX_SIZE && FirstGreatest(hw, m) && FirstGreatest(hw, n)
    ensures m == n
  {
    assert NoBetter(hw, m, n) && NoBetter(hw, n, m);
  }

  lemma PlacedOne(c: Candidate, e: Candidate, d0: real, d1: real, d2: real, d3: real, row: nat, column: nat,
                  stride: nat, anchorW: nat, anchorH: nat)
    requires Placed(c, d0, d1, d2, d3, row, column, stride, anchorW, anchorH)
    requires Placed(e, d0, d1, d2, d3, row, column, stride, anchorW, anchorH)
    ensures c.x == e.x && c.y == e.y && c.w == e.w && c.h == e.h
  {
  }

  /** The description leaves nothing open. */
  lemma DescribesOne(c: Candidate, e: Candidate, g: Grid, hw: seq<int8>, row: nat, column: nat, a: nat)
    requires g.Valid() && |hw| == PROP_BOX_SIZE && a < 3
    requires Describes(c, g, hw, row, column, a) && Describes(e, g, hw, row, column, a)
    ensures c == e
  {
    hide FirstGreatest, Placed, Value, Product;
    FirstGreatestUnique(hw, c.cls, e.cls);
    PlacedOne(c, e, Value(g, hw[0]), Value(g, hw[1]), Value(g, hw[2]), Value(g, hw[3]), row, column, g.stride,
              g.anchor[2 * a], g.anchor[2 * a + 1]);
  }

  lemma PlacedRight(c: Candidate, d0: real, d1: real, d2: real, d3: real, row: nat, column: nat, stride: nat,
                    anchorW: nat, anchorH: nat)
    requires Placed(c, d0, d1, d2, d3, row, column, stride, anchorW, anchorH)
    ensures Placed(c.(x := c.x + stride as real), d0, d1, d2, d3, row, column + 1, stride, anchorW, anchorH)
  {
    OneMore(column as real + 2.0 * d0 - 0.5, stride as real);
  }

  lemma PlacedDown(c: Candidate, d0: real, d1: real, d2: real, d3: real, row: nat, column: nat, stride: nat,
                   anchorW: nat, anchorH: nat)
    requires Placed(c, d0, d1, d2, d3, row, column, stride, anchorW, anchorH)
    ensures Placed(c.(y := c.y + stride as real), d0, d1, d2, d3, row + 1, column, stride, anchorW, anchorH)
  {
    OneMore(row as real + 2.0 * d1 - 0.5, stride as real);
  }

  lemma OneMore(p: real, stride: real)
    ensures (p + 1.0) * stride == p * stride + stride
  {
  }

  /** The same numbers one cell further: the box moves right or down by one stride, and nothing else changes. */
  lemma NextCell(c: Candidate, g: Grid, hw: seq<int8>, row: nat, column: nat, a: nat)
    requires g.Valid() && |hw| == PROP_BOX_SIZE && a < 3 && Describes(c, g, hw, row, column, a)
    ensures Describes(c.(x := c.x + g.stride as real), g, hw, row, column + 1, a)
    ensures Describes(c.(y := c.y + g.stride as real), g, hw, row + 1, column, a)
  {
    hide FirstGreatest, Placed, Value, Product;
    PlacedRight(c, Value(g, hw[0]), Value(g, hw[1]), Value(g, hw[2]), Value(g, hw[3]), row, column, g.stride,
                g.anchor[2 * a], g.anchor[2 * a + 1]);
    PlacedDown(c, Value(g, hw[0]), Value(g, hw[1]), Value(g, hw[2]), Value(g, hw[3]), row, column, g.stride,
               g.anchor[2 * a], g.anchor[2 * a + 1]);
  }

  lemma DeqntIs(g: Grid, q: int8)
    ensures Deqnt(q, g.zp, g.scale) == Value(g, q)
  {
  }

  lemma BestIsFirstGreatest(hw: seq<int8>)
    requires |hw| == PROP_BOX_SIZE
    ensures FirstGreatest(hw, BestClass(hw, OBJ_CLASS_NUM - 1))
  {
    BestClassIsBest(hw, OBJ_CLASS_NUM - 1);
    var m := BestClass(hw, OBJ_CLASS_NUM - 1);
    hide BestClass;
    forall k | 0 <= k < 80
      ensures NoBetter(hw, k, m)
    {
      assert Prob(hw, k) == hw[5 + k] && Prob(hw, m) == hw[5 + m];
    }
  }

  lemma PlacedBy(score: real, cls: nat, d0: real, d1: real, d2: real, d3: real, row: nat, column: nat, stride: nat,
                 anchorW: nat, anchorH: nat)
    ensures var c := MakeCandidate(score, cls, d0, d1, d2, d3, row, column, stride, anchorW, anchorH);
            Placed(c, d0, d1, d2, d3, row, column, stride, anchorW, anchorH) && c.cls == cls && c.score == score
  {
    TwiceSquared(d2, anchorW as real);
    TwiceSquared(d3, anchorH as real);
    assert d0 * 2.0 - 0.5 + column as real == column as real + 2.0 * d0 - 0.5;
    assert d1 * 2.0 - 0.5 + row as real == row as real + 2.0 * d1 - 0.5;
  }

  lemma TwiceSquared(d: real, k: real)
    ensures d * 2.0 * (d * 2.0) * k == 4.0 * (d * d) * k
  {
  }

  lemma DetectedBy(g: Grid, hw: seq<int8>, m: nat)
    requires g.Valid() && |hw| == PROP_BOX_SIZE && FirstGreatest(hw, m)
    ensures Detected(g, hw) <==>
              hw[4] >= QntF32ToAffine(g.threshold, g.zp, g.scale) && Product(g, hw, m) > g.threshold
  {
    hide QntF32ToAffine, FirstGreatest, Product;
    forall n | 0 <= n < 80 && FirstGreatest(hw, n)
      ensures n == m
    {
      FirstGreatestUnique(hw, m, n);
    }
    FirstBelow80(hw, m);
  }

  lemma FirstBelow80(hw: seq<int8>, m: nat)
    requires |hw| == PROP_BOX_SIZE && FirstGreatest(hw, m)
    ensures m < 80
  {
  }

  lemma DeqntsAre(g: Grid, hw: seq<int8>, m: nat)
    requires |hw| == PROP_BOX_SIZE && m < 80
    ensures forall k | 0 <= k < 4 :: Deqnt(hw[k], g.zp, g.scale) == Value(g, hw[k])
    ensures Score(g, hw, m) == Product(g, hw, m)
  {
    DeqntIs(g, hw[4]);
    DeqntIs(g, hw[5 + m]);
    forall k | 0 <= k < 4
      ensures Deqnt(hw[k], g.zp, g.scale) == Value(g, hw[k])
    {
      DeqntIs(g, hw[k]);
    }
    hide Deqnt, Value;
  }

  /** A slot gives a candidate exactly when it holds a detection, and the candidate is as described. */
  lemma CandidateMeaning(g: Grid, hw: seq<int8>, h: nat, w: nat, a: nat)
    requires g.Valid() && |hw| == PROP_BOX_SIZE && a < 3
    ensures |CandidateOf(g, hw, h, w, a)| == if Detected(g, hw) then 1 else 0
    ensures forall c | c in CandidateOf(g, hw, h, w, a) :: Describes(c, g, hw, h, w, a)
  {
    hide Deqnt, Value, Product, Score, QntF32ToAffine, FirstGreatest, BestClass, Placed, Detected, MakeCandidate;
    var m := BestClass(hw, OBJ_CLASS_NUM - 1);
    BestIsFirstGreatest(hw);
    DetectedBy(g, hw, m);
    DeqntsAre(g, hw, m);
    PlacedBy(Product(g, hw, m), m, Value(g, hw[0]), Value(g, hw[1]), Value(g, hw[2]), Value(g, hw[3]), h, w, g.stride,
             g.anchor[a * 2], g.anchor[a * 2 + 1]);
  }

  /** Every candidate has a score above the threshold and a box of non-negative size. */
  lemma CandidateSound(g: Grid, hw: seq<int8>, h: nat, w: nat, a: nat)
    requires g.Valid() && |hw| == PROP_BOX_SIZE && a < 3
    ensures forall i | 0 <= i < |CandidateOf(g, hw, h, w, a)| ::
              var c := CandidateOf(g, hw, h, w, a)[i];
              c.score > g.threshold && c.cls < OBJ_CLASS_NUM && c.w >= 0.0 && c.h >= 0.0
  {
    hide BestClass, Deqnt, Score, MakeCandidate, QntF32ToAffine;
    var c := BestClass(hw, OBJ_CLASS_NUM - 1);
    SizesSound(Score(g, hw, c), c, Deqnt(hw[0], g.zp, g.scale), Deqnt(hw[1], g.zp, g.scale), Deqnt(hw[2], g.zp, g.scale),
               Deqnt(hw[3], g.zp, g.scale), h, w, g.stride, g.anchor[a * 2], g.anchor[a * 2 + 1]);
  }

  lemma SizesSound(score: real, cls: nat, d0: real, d1: real, d2: real, d3: real, h: nat, w: nat, stride: nat,
                   anchorW: nat, anchorH: nat)
    ensures var c := MakeCandidate(score, cls, d0, d1, d2, d3, h, w, stride, anchorW, anchorH);
            c.w >= 0.0 && c.h >= 0.0 && c.score == score && c.cls == cls
  {
    SquareTimes(d2 * 2.0, anchorW as real);
    SquareTimes(d3 * 2.0, anchorH as real);
  }

  lemma SquareTimes(b: real, k: real)
    requires k >= 0.0
    ensures b * b * k >= 0.0
  {
    assert b * b >= 0.0;
  }

  /** The 85 numbers of slot `t`: anchors of a cell together, cells row by row. */
  function SlotData(g: Grid, t: nat): (hw: seq<int8>)
    requires g.Valid() && t < g.Slots()
    ensures |hw| == PROP_BOX_SIZE
  {
    g.input[t * PROP_BOX_SIZE..t * PROP_BOX_SIZE + PROP_BOX_SIZE]
  }

  /** The candidates of the first `t` slots, in scan order. */
  function Scan(g: Grid, t: nat): seq<Candidate>
    requires g.Valid() && t <= g.Slots()
  {
    if t == 0 then []
    else
      var s := t - 1;
      Scan(g, s) + CandidateOf(g, SlotData(g, s), s / 3 / g.gridW, s / 3 % g.gridW, s % 3)
  }

  ghost predicate DetectedAt(g: Grid, s: nat)
    requires g.Valid() && s < g.Slots()
  {
    Detected(g, SlotData(g, s))
  }

  /** The slots before `t` that hold a detection, in order. */
  ghost function Found(g: Grid, t: nat): seq<nat>
    requires g.Valid() && t <= g.Slots()
  {
    if t == 0 then [] else if DetectedAt(g, t - 1) then Found(g, t - 1) + [t - 1] else Found(g, t - 1)
  }

  lemma {:induction false} FoundIs(g: Grid, t: nat)
    requires g.Valid() && t <= g.Slots()
    ensures forall k | 0 <= k < |Found(g, t)| :: Found(g, t)[k] < t && DetectedAt(g, Found(g, t)[k])
    ensures forall s | 0 <= s < t && DetectedAt(g, s) :: s in Found(g, t)
    ensures forall i, j | 0 <= i < j < |Found(g, t)| :: Found(g, t)[i] < Found(g, t)[j]
  {
    hide DetectedAt;
    if t > 0 {
      FoundIs(g, t - 1);
    }
  }

  /** Candidate `c` is what slot `s` says. */
  ghost predicate FromSlot(c: Candidate, g: Grid, s: nat)
    requires g.Valid() && s < g.Slots()
  {
    g.gridW > 0 && Describes(c, g, SlotData(g, s), s / 3 / g.gridW, s / 3 % g.gridW, s % 3)
  }

  /** Each candidate is what its slot says. */
  ghost predicate AllFrom(cs: seq<Candidate>, g: Grid, slots: seq<nat>)
    requires g.Valid()
  {
    |cs| == |slots| && forall k | 0 <= k < |cs| :: slots[k] < g.Slots() && FromSlot(cs[k], g, slots[k])
  }

  /** The scan yields one candidate for each slot that holds a detection, in slot order, each as described. */
  lemma {:induction false} ScanMeaning(g: Grid, t: nat)
    requires g.Valid() && t <= g.Slots()
    ensures AllFrom(Scan(g, t), g, Found(g, t))
  {
    hide Grid.Slots, Scan, Found, AllFrom;
    if t == 0 {
      NothingScanned(g);
    } else {
      ScanMeaning(g, t - 1);
      NextScanned(g, t - 1);
      assert (t - 1) + 1 == t;
    }
  }

  lemma NextScanned(g: Grid, s: nat)
    requires g.Valid() && s < g.Slots() && AllFrom(Scan(g, s), g, Found(g, s))
    ensures AllFrom(Scan(g, s + 1), g, Found(g, s + 1))
  {
    hide FromSlot, DetectedAt, Scan, AllFrom, Grid.Slots;
    var more := SlotMeaning(g, s);
    if DetectedAt(g, s) {
      assert more == [more[0]];
      AllFromSnoc(Scan(g, s), g, Found(g, s), more[0], s);
    } else {
      assert Scan(g, s) + [] == Scan(g, s);
    }
  }

  lemma NothingScanned(g: Grid)
    requires g.Valid()
    ensures AllFrom(Scan(g, 0), g, Found(g, 0))
  {
  }

  lemma AllFromSnoc(cs: seq<Candidate>, g: Grid, slots: seq<nat>, c: Candidate, s: nat)
    requires g.Valid() && AllFrom(cs, g, slots) && s < g.Slots() && FromSlot(c, g, s)
    ensures AllFrom(cs + [c], g, slots + [s])
  {
    hide FromSlot;
  }

  lemma SlotMeaning(g: Grid, s: nat) returns (more: seq<Candidate>)
    requires g.Valid() && s < g.Slots()
    ensures Scan(g, s + 1) == Scan(g, s) + more
    ensures if DetectedAt(g, s) then |more| == 1 && FromSlot(more[0], g, s) else more == []
  {
    more := CandidateOf(g, SlotData(g, s), s / 3 / g.gridW, s / 3 % g.gridW, s % 3);
    assert Scan(g, s + 1) == Scan(g, s) + more;
    hide CandidateOf, Detected, Describes, SlotData, Scan;
    CandidateMeaning(g, SlotData(g, s), s / 3 / g.gridW, s / 3 % g.gridW, s % 3);
    assert more != [] ==> more[0] in more;
  }

  predicate Sound(c: Candidate, threshold: real) {
    c.score > threshold && c.cls < OBJ_CLASS_NUM && c.w >= 0.0 && c.h >= 0.0
  }

  lemma {:induction false} ScanSound(g: Grid, t: nat)
    requires g.Valid() && t <= g.Slots()
    ensures forall i | 0 <= i < |Scan(g, t)| :: Sound(Scan(g, t)[i], g.threshold)
  {
    hide CandidateOf;
    if t > 0 {
      var s := t - 1;
      ScanSound(g, s);
      CandidateSound(g, SlotData(g, s), s / 3 / g.gridW, s / 3 % g.gridW, s % 3);
    }
  }

  lemma SlotNumbers(g: Grid, h: nat, w: nat, a: nat)
    requires g.Valid() && h < g.gridH && w < g.gridW && a < 3
    ensures var t := (h * g.gridW + w) * 3 + a;
            && t < g.Slots() && t / 3 / g.gridW == h && t / 3 % g.gridW == w && t % 3 == a
            && h * g.gridW * (PROP_BOX_SIZE * 3) + w * (PROP_BOX_SIZE * 3) + a * PROP_BOX_SIZE == t * PROP_BOX_SIZE
  {
    var cell := h * g.gridW + w;
    MulMono(h + 1, g.gridH, g.gridW);
    assert (h + 1) * g.gridW == h * g.gridW + g.gridW;
    assert (cell * 3 + a) / 3 == cell;
    QuotientUnique(cell, g.gridW, h, w);
  }

  /** The three vectors the scan pushes onto. */
  class Detections {
    var boxes: seq<real>
    var scores: seq<real>
    var classId: seq<int>

    constructor ()
      ensures Valid() && Candidates() == [] && scores == []
    {
      boxes, scores, classId := [], [], [];
    }

    ghost predicate Valid()
      reads this
    {
      |boxes| == 4 * |scores| && |classId| == |scores| && forall i | 0 <= i < |classId| :: 0 <= classId[i]
    }

    /** Candidate `i` put together from its places in the vectors. */
    ghost function Get(i: nat): Candidate
      reads this
      requires Valid() && i < |scores|
    {
      Candidate(scores[i], classId[i], boxes[4 * i], boxes[4 * i + 1], boxes[4 * i + 2], boxes[4 * i + 3])
    }

    ghost function Candidates(): (c: seq<Candidate>)
      reads this
      requires Valid()
      ensures |c| == |scores|
    {
      seq(|scores|, i requires 0 <= i < |scores| && Valid() reads this => Get(i))
    }

    method PushBack(score: real, cls: nat, x: real, y: real, w: real, h: real)
      requires Valid()
      modifies this
      ensures Valid() && |scores| == |old(scores)| + 1
      ensures Candidates() == old(Candidates()) + [Candidate(score, cls, x, y, w, h)]
    {
      boxes := boxes + [x];
      boxes := boxes + [y];
      boxes := boxes + [w];
      boxes := boxes + [h];
      scores := scores + [score];
      classId := classId + [cls];
    }
  }

  /** The class search loop. */
  method FindClass(hw: seq<int8>) returns (maxClassId: nat)
    requires |hw| == PROP_BOX_SIZE
    ensures maxClassId == BestClass(hw, OBJ_CLASS_NUM - 1)
  {
    var maxClassProbs := hw[5];
    maxClassId := 0;
    var k := 1;
    while k < OBJ_CLASS_NUM
      invariant 1 <= k <= OBJ_CLASS_NUM
      invariant maxClassId == BestClass(hw, k - 1) && maxClassProbs == hw[5 + maxClassId]
    {
      var prob := hw[5 + k];
      if prob > maxClassProbs {
        maxClassId := k;
        maxClassProbs := prob;
      }
      k := k + 1;
    }
  }

  /** The body of the innermost loop of `process_i8_rv1106`. */
  method ProcessSlot(d: Detections, g: Grid, hw: seq<int8>, h: nat, w: nat, a: nat, thresI8: int) returns (n: nat)
    requires d.Valid() && g.Valid() && |hw| == PROP_BOX_SIZE && a < 3
    requires thresI8 == QntF32ToAffine(g.threshold, g.zp, g.scale)
    modifies d
    ensures d.Valid() && d.Candidates() == old(d.Candidates()) + CandidateOf(g, hw, h, w, a)
    ensures |d.scores| == |old(d.scores)| + n
  {
    hide BestClass, Deqnt, QntF32ToAffine, Detections.Candidates;
    n := 0;
    var boxConfidence := hw[4];
    if boxConfidence >= thresI8 {
      var maxClassId := FindClass(hw);
      var limitScore := Deqnt(boxConfidence, g.zp, g.scale) * Deqnt(hw[5 + maxClassId], g.zp, g.scale);
      if limitScore > g.threshold {
        var boxX, boxY := Deqnt(hw[0], g.zp, g.scale) * 2.0 - 0.5, Deqnt(hw[1], g.zp, g.scale) * 2.0 - 0.5;
        var boxW, boxH := Deqnt(hw[2], g.zp, g.scale) * 2.0, Deqnt(hw[3], g.zp, g.scale) * 2.0;
        boxW := boxW * boxW;
        boxH := boxH * boxH;
        boxX := (boxX + w as real) * g.stride as real;
        boxY := (boxY + h as real) * g.stride as real;
        boxW := boxW * g.anchor[a * 2] as real;
        boxH := boxH * g.anchor[a * 2 + 1] as real;
        boxX := boxX - boxW / 2.0;
        boxY := boxY - boxH / 2.0;
        assert |CandidateOf(g, hw, h, w, a)| == 1;
        ghost var q := CandidateOf(g, hw, h, w, a)[0];
        assert q.score == limitScore;
        assert q.cls == maxClassId;
        assert q.w == boxW;
        assert q.h == boxH;
        assert q.x == boxX;
        assert q.y == boxY;
        assert CandidateOf(g, hw, h, w, a) == [Candidate(limitScore, maxClassId, boxX, boxY, boxW, boxH)];
        d.PushBack(limitScore, maxClassId, boxX, boxY, boxW, boxH);
        n := 1;
        return;
      }
    }
    assert CandidateOf(g, hw, h, w, a) == [];
    assert d.Candidates() + [] == d.Candidates();
  }

  lemma ScanStep(g: Grid, h: nat, w: nat, a: nat)
    requires g.Valid() && h < g.gridH && w < g.gridW && a < 3
    ensures var t := (h * g.gridW + w) * 3 + a;
            var offset := h * g.gridW * (PROP_BOX_SIZE * 3) + w * (PROP_BOX_SIZE * 3) + a * PROP_BOX_SIZE;
            && t < g.Slots() && offset + PROP_BOX_SIZE <= |g.input|
            && Scan(g, t + 1) == Scan(g, t) + CandidateOf(g, g.input[offset..offset + PROP_BOX_SIZE], h, w, a)
  {
    hide CandidateOf;
    SlotNumbers(g, h, w, a);
  }

  /** The loop over the anchors of one cell. */
  method ProcessCell(d: Detections, g: Grid, h: nat, w: nat, thresI8: int, ghost c0: seq<Candidate>) returns (validCount: nat)
    requires d.Valid() && g.Valid() && h < g.gridH && w < g.gridW
    requires thresI8 == QntF32ToAffine(g.threshold, g.zp, g.scale)
    requires (h * g.gridW + w) * 3 <= g.Slots()
    requires d.Candidates() == c0 + Scan(g, (h * g.gridW + w) * 3)
    modifies d
    ensures d.Valid() && |d.scores| == |old(d.scores)| + validCount
    ensures (h * g.gridW + w + 1) * 3 <= g.Slots()
    ensures d.Candidates() == c0 + Scan(g, (h * g.gridW + w + 1) * 3)
  {
    hide CandidateOf, QntF32ToAffine, Detections.Candidates, Scan;
    validCount := 0;
    ghost var t0, n0 := (h * g.gridW + w) * 3, |d.scores|;
    var a := 0;
    while a < 3
      invariant 0 <= a <= 3 && t0 + a <= g.Slots()
      invariant d.Valid() && d.Candidates() == c0 + Scan(g, t0 + a) && |d.scores| == n0 + validCount
    {
      ScanStep(g, h, w, a);
      var offset := h * g.gridW * (PROP_BOX_SIZE * 3) + w * (PROP_BOX_SIZE * 3) + a * PROP_BOX_SIZE;
      var n := ProcessSlot(d, g, g.input[offset..offset + PROP_BOX_SIZE], h, w, a, thresI8);
      validCount := validCount + n;
      a := a + 1;
    }
  }

  /** The loop over the cells of one row. */
  method ProcessRow(d: Detections, g: Grid, h: nat, thresI8: int, ghost c0: seq<Candidate>) returns (validCount: nat)
    requires d.Valid() && g.Valid() && h < g.gridH
    requires thresI8 == QntF32ToAffine(g.threshold, g.zp, g.scale)
    requires (h * g.gridW) * 3 <= g.Slots() && d.Candidates() == c0 + Scan(g, (h * g.gridW) * 3)
    modifies d
    ensures d.Valid() && |d.scores| == |old(d.scores)| + validCount
    ensures ((h + 1) * g.gridW) * 3 <= g.Slots() && d.Candidates() == c0 + Scan(g, ((h + 1) * g.gridW) * 3)
  {
    hide QntF32ToAffine, Detections.Candidates, Scan;
    validCount := 0;
    ghost var n0 := |d.scores|;
    var w := 0;
    while w < g.gridW
      invariant 0 <= w <= g.gridW && 0 <= (h * g.gridW + w) * 3 <= g.Slots()
      invariant d.Valid() && d.Candidates() == c0 + Scan(g, (h * g.gridW + w) * 3) && |d.scores| == n0 + validCount
    {
      var n := ProcessCell(d, g, h, w, thresI8, c0);
      validCount := validCount + n;
      w := w + 1;
    }
    assert h * g.gridW + g.gridW == (h + 1) * g.gridW;
  }

  /** `process_i8_rv1106`: cells row by row, the three anchors of each. */
  method ProcessGrid(d: Detections, g: Grid) returns (validCount: nat)
    requires d.Valid() && g.Valid()
    modifies d
    ensures d.Valid() && d.Candidates() == old(d.Candidates()) + Scan(g, g.Slots())
    ensures |d.scores| == |old(d.scores)| + validCount
    ensures AllFrom(Scan(g, g.Slots()), g, Found(g, g.Slots()))
  {
    hide QntF32ToAffine, Detections.Candidates, Scan, AllFrom, Found;
    ghost var c0, n0 := d.Candidates(), |d.scores|;
    validCount := 0;
    var thresI8 := QntF32ToAffine(g.threshold, g.zp, g.scale);
    ScanNone(g);
    assert c0 + [] == c0;
    var h := 0;
    while h < g.gridH
      invariant 0 <= h <= g.gridH && 0 <= (h * g.gridW) * 3 <= g.Slots()
      invariant d.Valid() && d.Candidates() == c0 + Scan(g, (h * g.gridW) * 3) && |d.scores| == n0 + validCount
    {
      var n := ProcessRow(d, g, h, thresI8, c0);
      validCount := validCount + n;
      h := h + 1;
    }
    ScanMeaning(g, g.Slots());
  }

  lemma ScanNone(g: Grid)
    requires g.Valid()
    ensures Scan(g, 0) == []
  {
  }

  // ----- Ranking

  /** The index list before sorting. */
  function Iota(n: nat): (s: seq<int>)
    ensures |s| == n && forall i | 0 <= i < n :: s[i] == i
  {
    seq(n, i => i)
  }

  ghost predicate Distinct<T>(s: seq<T>) {
    forall i, j | 0 <= i < j < |s| :: s[i] != s[j]
  }

  lemma {:induction false} DistinctOnce<T>(s: seq<T>, x: T)
    requires Distinct(s)
    ensures multiset(s)[x] <= 1
    decreases |s|
  {
    if s != [] {
      var n := |s| - 1;
      assert s == s[..n] + [s[n]];
      DistinctOnce(s[..n], x);
      assert forall k | 0 <= k < n :: s[..n][k] == s[k];
      assert s[n] !in s[..n];
    }
  }

  lemma TwiceCounted<T>(s: seq<T>, i: nat, j: nat)
    requires i < j < |s| && s[i] == s[j]
    ensures multiset(s)[s[i]] >= 2
  {
    assert s == s[..j] + [s[j]] + s[j + 1..];
    assert s[..j][i] == s[i];
    assert s[i] in multiset(s[..j]);
  }

  /** After the sort position `i` holds the score of the candidate its index names, and no candidate twice. */
  lemma RankedPairs(scores0: seq<real>, scores: seq<real>, order: seq<int>)
    requires |scores0| == |scores| == |order|
    requires multiset(QuickSort.Zip(scores0, Iota(|scores0|))) == multiset(QuickSort.Zip(scores, order))
    ensures forall i | 0 <= i < |order| :: 0 <= order[i] < |order| && scores[i] == scores0[order[i]]
    ensures Distinct(order)
  {
    var z0, z := QuickSort.Zip(scores0, Iota(|scores0|)), QuickSort.Zip(scores, order);
    forall i | 0 <= i < |order|
      ensures 0 <= order[i] < |order| && scores[i] == scores0[order[i]]
    {
      assert z[i] in multiset(z);
      assert z[i] in z0;
    }
    assert Distinct(z0);
    forall i, j | 0 <= i < j < |order|
      ensures order[i] != order[j]
    {
      if order[i] == order[j] {
        assert z[i] == z[j];
        TwiceCounted(z, i, j);
        DistinctOnce(z0, z[i]);
      }
    }
  }

  /** The classes present, each once, the smallest first. */
  predicate ClassList(filters: seq<int>, classIds: seq<int>) {
    Increasing(filters) && Covers(filters, classIds) && forall f | f in filters :: f in classIds
  }

  /** `std::set<int>` of the class identifiers, walked from the smallest. */
  method ClassSet(classId: seq<int>) returns (filters: seq<int>)
    ensures ClassList(filters, classId)
  {
    filters := [];
    var i := 0;
    while i < |classId|
      invariant 0 <= i <= |classId| && Increasing(filters)
      invariant forall k | 0 <= k < i :: classId[k] in filters
      invariant forall f | f in filters :: f in classId
    {
      ghost var before := filters;
      filters := Insert(filters, classId[i]);
      forall k | 0 <= k < i + 1
        ensures classId[k] in filters
      {
        var y := classId[k];
        assert k < i ==> y in before;
        assert k == i ==> y in filters;
      }
      i := i + 1;
    }
  }

  /** Inserts into an increasing list, unless already there. */
  method Insert(s: seq<int>, x: int) returns (r: seq<int>)
    requires Increasing(s)
    ensures Increasing(r) && x in r
    ensures forall y | y in s :: y in r
    ensures forall y | y in r :: y in s || y == x
  {
    var k := 0;
    while k < |s| && s[k] < x
      invariant 0 <= k <= |s| && forall j | 0 <= j < k :: s[j] < x
    {
      k := k + 1;
    }
    if k < |s| && s[k] == x {
      r := s;
    } else {
      r := s[..k] + [x] + s[k..];
      assert s == s[..k] + s[k..];
    }
  }

  // ----- The report

  datatype Result = Result(left: int, top: int, right: int, bottom: int, prop: real, cls: int)

  /** `clamp`. */
  function Clamp(val: real, min: int, max: int): int {
    if val > min as real then (if val < max as real then Trunc(val) else max) else min
  }

  lemma ClampMonotone(a: real, b: real, max: nat)
    requires a <= b
    ensures 0 <= Clamp(a, 0, max) <= Clamp(b, 0, max) <= max
  {
  }

  /** `side` is the whole part of `v`, cut to the range from 0 to `max`. */
  predicate Within(side: int, v: real, max: nat) {
    side == if v < 0.0 then 0 else if v > max as real then max else v.Floor
  }

  lemma ClampWithin(v: real, max: nat)
    ensures Within(Clamp(v, 0, max), v, max)
  {
  }

  function ResultOf(c: Candidate, score: real, w: nat, h: nat): Result {
    Result(Clamp(c.x, 0, w), Clamp(c.y, 0, h), Clamp(c.x + c.w, 0, w), Clamp(c.y + c.h, 0, h), score, c.cls)
  }

  /** The positions reported among the first `k`: those not crossed out, up to the room there is. */
  function Positions(order: seq<int>, k: nat): (ps: seq<nat>)
    requires k <= |order|
    ensures |ps| <= OBJ_NUMB_MAX_SIZE
    ensures forall i | 0 <= i < |ps| :: ps[i] < k && order[ps[i]] != -1
    ensures forall i, j | 0 <= i < j < |ps| :: ps[i] < ps[j]
  {
    if k == 0 then []
    else
      var ps := Positions(order, k - 1);
      if order[k - 1] == -1 || |ps| >= OBJ_NUMB_MAX_SIZE then ps else ps + [k - 1]
  }

  /** Nothing is passed over: every survivor is reported unless the list was already full of better ones. */
  lemma {:induction false} SurvivorsReported(order: seq<int>, k: nat, p: nat)
    requires p < k <= |order| && order[p] != -1
    ensures p in Positions(order, k) || (|Positions(order, k)| == OBJ_NUMB_MAX_SIZE && forall q | q in Positions(order, k) :: q < p)
  {
    if p < k - 1 {
      SurvivorsReported(order, k - 1, p);
    }
  }

  /** A report made from ranked candidates: scores in order, each result one candidate's, boxes inside the image. */
  ghost predicate Reports(results: seq<Result>, cands: seq<Candidate>, scores: seq<real>, order: seq<int>, w: nat, h: nat)
    requires |scores| == |order| && forall i | 0 <= i < |order| :: order[i] == -1 || 0 <= order[i] < |cands|
  {
    var ps := Positions(order, |order|);
    && |results| == |ps|
    && forall i | 0 <= i < |ps| :: results[i] == ResultOf(cands[order[ps[i]]], scores[ps[i]], w, h)
  }

  /** The boxes of candidates as the flat vector holds them. */
  ghost predicate FlatBoxes(boxes: seq<real>, cands: seq<Candidate>) {
    && |boxes| == 4 * |cands|
    && forall i | 0 <= i < |cands| :: BoxAt(boxes, cands, i)
  }

  predicate BoxAt(boxes: seq<real>, cands: seq<Candidate>, i: nat)
    requires |boxes| == 4 * |cands| && i < |cands|
  {
    && boxes[4 * i] == cands[i].x && boxes[4 * i + 1] == cands[i].y
    && boxes[4 * i + 2] == cands[i].w && boxes[4 * i + 3] == cands[i].h
  }

  /** What the ranking hands on: positions with non-increasing scores, each naming a candidate with that
      score, no candidate twice. */
  ghost predicate Ranked(cands: seq<Candidate>, scores: seq<real>, order: seq<int>) {
    && |scores| == |order| == |cands| && Distinct(order)
    && (forall i | 0 <= i < |order| :: 0 <= order[i] < |cands| && scores[i] == cands[order[i]].score)
    && (forall i, j | 0 <= i < j < |scores| :: scores[i] >= scores[j])
  }

  /** The ranked list after suppression: entries kept or crossed out, no two survivors overlapping. */
  ghost predicate Thinned(boxes: seq<real>, order: seq<int>, kept: seq<int>, threshold: real) {
    && |kept| == |order| && Entries(kept, boxes)
    && (forall i | 0 <= i < |order| :: kept[i] == order[i] || kept[i] == -1)
    && (|order| > 0 ==> kept[0] == order[0])
    && (forall i, j | 0 <= i < j < |kept| :: !Overlaps(boxes, kept, i, j, threshold))
  }

  ghost function ClassIds(cands: seq<Candidate>): (ids: seq<int>)
    ensures |ids| == |cands|
  {
    seq(|cands|, i requires 0 <= i < |cands| => cands[i].cls)
  }

  /** The ranked list after one suppression pass for every class present. */
  ghost predicate Suppressed(boxes: seq<real>, classIds: seq<int>, order: seq<int>, kept: seq<int>, threshold: real) {
    && Entries(order, boxes) && |order| == |classIds|
    && exists filters :: ClassList(filters, classIds) && kept == Passes(order, boxes, classIds, filters, threshold)
  }

  lemma SuppressedIsThinned(boxes: seq<real>, classIds: seq<int>, order: seq<int>, kept: seq<int>, threshold: real)
    requires Suppressed(boxes, classIds, order, kept, threshold)
    ensures Thinned(boxes, order, kept, threshold)
  {
    hide Passes, Overlap;
    var filters :| ClassList(filters, classIds) && kept == Passes(order, boxes, classIds, filters, threshold);
    NoSurvivorsOverlap(order, boxes, classIds, filters, threshold);
  }

  lemma KeptInRange(cands: seq<Candidate>, scores: seq<real>, order: seq<int>, kept: seq<int>)
    requires Ranked(cands, scores, order) && |kept| == |order|
    requires forall i | 0 <= i < |order| :: kept[i] == order[i] || kept[i] == -1
    ensures forall i | 0 <= i < |kept| :: kept[i] == -1 || 0 <= kept[i] < |cands|
  {
  }

  /** What a caller may rely on: at most 128 results in non-increasing order of score; score, class and box
      of each are those of one candidate, of no two the same; every box lies in the image the right way
      round; no two results' candidates overlap above the threshold; and the best candidate comes first. */
  ghost predicate GoodReport(results: seq<Result>, cands: seq<Candidate>, boxes: seq<real>, order: seq<int>,
                             kept: seq<int>, w: nat, h: nat, conf: real, threshold: real)
  {
    var ps := Positions(kept, |kept|);
    && |results| == |ps| <= 128 && |boxes| == 4 * |cands| && |order| == |cands|
    && (forall i | 0 <= i < |results| :: OneCandidate(results[i], cands, kept[ps[i]], w, h, conf))
    && (forall i, j | 0 <= i < j < |results| ::
          && results[i].prop >= results[j].prop && kept[ps[i]] != kept[ps[j]]
          && CandidateOverlap(cands[kept[ps[i]]], cands[kept[ps[j]]]) <= threshold)
    && (|cands| > 0 ==> |results| > 0 && kept[ps[0]] == order[0])
  }

  /** The overlap of the boxes of two candidates, corner to corner. */
  function CandidateOverlap(c: Candidate, e: Candidate): real {
    CalculateOverlap(c.x, c.y, c.x + c.w, c.y + c.h, e.x, e.y, e.x + e.w, e.y + e.h)
  }

  lemma OverlapOfCandidates(boxes: seq<real>, cands: seq<Candidate>, n: nat, m: nat)
    requires FlatBoxes(boxes, cands) && n < |cands| && m < |cands|
    ensures Overlap(boxes, n, m) == CandidateOverlap(cands[n], cands[m])
  {
    assert BoxAt(boxes, cands, n) && BoxAt(boxes, cands, m);
    hide CalculateOverlap;
  }

  /** Result `r` is candidate `n`, above the confidence threshold and in the image. */
  ghost predicate OneCandidate(r: Result, cands: seq<Candidate>, n: int, w: nat, h: nat, conf: real) {
    && 0 <= n < |cands| && r.prop == cands[n].score > conf && r.cls == cands[n].cls
    && Within(r.left, cands[n].x, w) && Within(r.right, cands[n].x + cands[n].w, w)
    && Within(r.top, cands[n].y, h) && Within(r.bottom, cands[n].y + cands[n].h, h)
    && 0 <= r.left <= r.right <= w && 0 <= r.top <= r.bottom <= h
  }

  /** Every report made from ranked, thinned candidates is a good one. */
  lemma ReportIsSound(results: seq<Result>, cands: seq<Candidate>, boxes: seq<real>, scores: seq<real>, order: seq<int>,
                      kept: seq<int>, w: nat, h: nat, conf: real, threshold: real)
    requires Ranked(cands, scores, order) && Thinned(boxes, order, kept, threshold) && FlatBoxes(boxes, cands)
    requires forall i | 0 <= i < |cands| :: Sound(cands[i], conf)
    requires forall i | 0 <= i < |kept| :: kept[i] == -1 || 0 <= kept[i] < |cands|
    requires Reports(results, cands, scores, kept, w, h)
    ensures GoodReport(results, cands, boxes, order, kept, w, h, conf, threshold)
  {
    assert |kept| == |order| == |cands|;
    FlatLength(boxes, cands);
    hide Overlap, CandidateOverlap, FlatBoxes, Positions, Overlaps, Thinned, Ranked, OneCandidate, Sound, Reports;
    var ps := Positions(kept, |kept|);
    ReportLength(results, cands, scores, kept, w, h);
    forall i | 0 <= i < |results|
      ensures OneCandidate(results[i], cands, kept[ps[i]], w, h, conf) && results[i].prop == scores[ps[i]]
    {
      EachSound(results, cands, boxes, scores, order, kept, w, h, conf, threshold, i);
    }
    forall i, j | 0 <= i < j < |results|
      ensures && results[i].prop >= results[j].prop && kept[ps[i]] != kept[ps[j]]
              && CandidateOverlap(cands[kept[ps[i]]], cands[kept[ps[j]]]) <= threshold
    {
      RankedApart(cands, boxes, scores, order, kept, threshold, ps[i], ps[j]);
      OverlapOfCandidates(boxes, cands, kept[ps[i]], kept[ps[j]]);
    }
    if |cands| > 0 {
      FirstIs(boxes, order, kept, threshold);
      RankedNames(cands, scores, order);
      FirstReported(kept, |kept|);
    }
  }

  lemma FlatLength(boxes: seq<real>, cands: seq<Candidate>)
    requires FlatBoxes(boxes, cands)
    ensures |boxes| == 4 * |cands|
  {
  }

  lemma ReportLength(results: seq<Result>, cands: seq<Candidate>, scores: seq<real>, kept: seq<int>, w: nat, h: nat)
    requires |scores| == |kept| && forall i | 0 <= i < |kept| :: kept[i] == -1 || 0 <= kept[i] < |cands|
    requires Reports(results, cands, scores, kept, w, h)
    ensures |results| == |Positions(kept, |kept|)|
  {
    hide Positions, ResultOf;
  }

  lemma RankedNames(cands: seq<Candidate>, scores: seq<real>, order: seq<int>)
    requires Ranked(cands, scores, order)
    ensures forall i | 0 <= i < |order| :: order[i] >= 0
  {
  }

  lemma EachSound(results: seq<Result>, cands: seq<Candidate>, boxes: seq<real>, scores: seq<real>, order: seq<int>,
                  kept: seq<int>, w: nat, h: nat, conf: real, threshold: real, i: nat)
    requires Ranked(cands, scores, order) && Thinned(boxes, order, kept, threshold)
    requires forall k | 0 <= k < |cands| :: Sound(cands[k], conf)
    requires forall k | 0 <= k < |kept| :: kept[k] == -1 || 0 <= kept[k] < |cands|
    requires Reports(results, cands, scores, kept, w, h) && i < |results|
    ensures |results| == |Positions(kept, |kept|)|
    ensures var p := Positions(kept, |kept|)[i];
            OneCandidate(results[i], cands, kept[p], w, h, conf) && results[i].prop == scores[p]
  {
    hide Positions, Clamp, Sound, Overlaps, Within;
    var p := Positions(kept, |kept|)[i];
    KeptIs(boxes, order, kept, threshold, p);
    assert Sound(cands[kept[p]], conf);
    ResultInside(cands[kept[p]], conf, w, h);
  }

  lemma RankedApart(cands: seq<Candidate>, boxes: seq<real>, scores: seq<real>, order: seq<int>, kept: seq<int>,
                    threshold: real, p: nat, q: nat)
    requires Ranked(cands, scores, order) && Thinned(boxes, order, kept, threshold)
    requires p < q < |order| && kept[p] != -1 && kept[q] != -1
    ensures scores[p] >= scores[q] && kept[p] != kept[q]
    ensures Entries(kept, boxes) && Overlap(boxes, kept[p], kept[q]) <= threshold
  {
    KeptIs(boxes, order, kept, threshold, p);
    KeptIs(boxes, order, kept, threshold, q);
    SurvivorsApart(boxes, order, kept, p, q, threshold);
    hide Thinned, Overlap;
  }

  lemma KeptIs(boxes: seq<real>, order: seq<int>, kept: seq<int>, threshold: real, i: nat)
    requires Thinned(boxes, order, kept, threshold) && i < |order| && kept[i] != -1
    ensures kept[i] == order[i]
  {
  }

  lemma FirstIs(boxes: seq<real>, order: seq<int>, kept: seq<int>, threshold: real)
    requires Thinned(boxes, order, kept, threshold) && |order| > 0
    ensures kept[0] == order[0]
  {
  }

  lemma ResultInside(c: Candidate, conf: real, w: nat, h: nat)
    requires Sound(c, conf)
    ensures OneCandidate(ResultOf(c, c.score, w, h), [c], 0, w, h, conf)
  {
    ClampWithin(c.x, w);
    ClampWithin(c.x + c.w, w);
    ClampWithin(c.y, h);
    ClampWithin(c.y + c.h, h);
    ClampMonotone(c.x, c.x + c.w, w);
    ClampMonotone(c.y, c.y + c.h, h);
    hide Clamp, Within;
  }

  lemma SurvivorsApart(boxes: seq<real>, order: seq<int>, kept: seq<int>, i: nat, j: nat, threshold: real)
    requires Thinned(boxes, order, kept, threshold) && i < j < |order| && kept[i] != -1 && kept[j] != -1
    ensures Entries(kept, boxes) && Overlap(boxes, kept[i], kept[j]) <= threshold
  {
    hide Overlap;
    assert !Overlaps(boxes, kept, i, j, threshold);
  }

  lemma {:induction false} FirstReported(kept: seq<int>, k: nat)
    requires 0 < k <= |kept| && kept[0] != -1
    ensures |Positions(kept, k)| > 0 && Positions(kept, k)[0] == 0
  {
    if k > 1 {
      FirstReported(kept, k - 1);
    }
  }

  // ----- The detector

  /** Sorts and suppresses: the middle part of `post_process`. */
  method Rank(d: Detections, nmsThreshold: real) returns (scores: array<real>, indexArray: array<int>, ghost order: seq<int>)
    requires d.Valid() && |d.scores| > 0
    ensures fresh(scores) && fresh(indexArray) && scores.Length == indexArray.Length == |d.scores|
    ensures Ranked(d.Candidates(), scores[..], order)
    ensures Suppressed(d.boxes, d.classId, order, indexArray[..], nmsThreshold)
  {
    hide Passes, ClassList;
    var validCount := |d.scores|;
    scores := new real[validCount](i requires 0 <= i < |d.scores| reads d => d.scores[i]);
    indexArray := new int[validCount](i => i);
    assert scores[..] == d.scores && indexArray[..] == Iota(validCount);
    var _ := QuickSort.QuickSort(scores, 0, validCount - 1, indexArray);
    order := indexArray[..];
    RankedPairs(d.scores, scores[..], order);
    SortedScores(scores[..], order);
    assert Ranked(d.Candidates(), scores[..], order);
    var filters := ClassSet(d.classId);
    Suppress(d.boxes, d.classId, indexArray, filters, nmsThreshold);
  }

  lemma SortedScores(scores: seq<real>, order: seq<int>)
    requires |scores| == |order| && QuickSort.Sorted(QuickSort.Zip(scores, order), 0, |scores| - 1)
    ensures forall i, j | 0 <= i < j < |scores| :: scores[i] >= scores[j]
  {
    var z := QuickSort.Zip(scores, order);
    assert forall i | 0 <= i < |scores| :: z[i].0 == scores[i];
  }

  /** One `nms` pass for every class present, from the smallest identifier on. */
  method Suppress(boxes: seq<real>, classId: seq<int>, indexArray: array<int>, filters: seq<int>, threshold: real)
    requires indexArray.Length == |classId| && Entries(indexArray[..], boxes)
    modifies indexArray
    ensures Entries(indexArray[..], boxes)
    ensures indexArray[..] == Passes(old(indexArray[..]), boxes, classId, filters, threshold)
  {
    hide Pass, Overlap;
    ghost var total := Passes(indexArray[..], boxes, classId, filters, threshold);
    var k := 0;
    assert filters[0..] == filters;
    while k < |filters|
      invariant 0 <= k <= |filters| && Entries(indexArray[..], boxes)
      invariant Passes(indexArray[..], boxes, classId, filters[k..], threshold) == total
    {
      assert filters[k..][0] == filters[k] && filters[k..][1..] == filters[k + 1..];
      NmsPass(|classId|, boxes, classId, indexArray, filters[k], threshold);
      k := k + 1;
    }
  }

  /** One entry of the report: the box of candidate `n`, clamped, with its score and class. */
  method ReportEntry(d: Detections, n: nat, score: real, w: nat, h: nat) returns (r: Result)
    requires d.Valid() && n < |d.scores|
    ensures r == ResultOf(d.Candidates()[n], score, w, h)
  {
    hide Clamp, Detections.Candidates, ResultOf;
    ReportedAs(d, n, score, w, h);
    var x1, y1 := d.boxes[n * 4 + 0], d.boxes[n * 4 + 1];
    var x2, y2 := x1 + d.boxes[n * 4 + 2], y1 + d.boxes[n * 4 + 3];
    r := Result(Clamp(x1, 0, w), Clamp(y1, 0, h), Clamp(x2, 0, w), Clamp(y2, 0, h), score, d.classId[n]);
  }

  /** The last loop of `post_process`: fills the fixed result array. */
  method Report(d: Detections, scores: array<real>, indexArray: array<int>, w: nat, h: nat, results: array<Result>)
    returns (lastCount: nat)
    requires d.Valid() && scores.Length == indexArray.Length == |d.scores| && results.Length == OBJ_NUMB_MAX_SIZE
    requires forall i | 0 <= i < indexArray.Length :: indexArray[i] == -1 || 0 <= indexArray[i] < |d.scores|
    modifies results
    ensures lastCount <= OBJ_NUMB_MAX_SIZE
    ensures Reports(results[..lastCount], d.Candidates(), scores[..], indexArray[..], w, h)
    ensures forall i | lastCount <= i < results.Length :: results[i] == old(results[i])
  {
    hide Clamp, Detections.Candidates, Positions, ResultOf;
    ghost var cands, order := d.Candidates(), indexArray[..];
    lastCount := 0;
    var i := 0;
    ghost var ps := Positions(order, 0);
    PositionsNone(order);
    while i < indexArray.Length
      invariant 0 <= i <= indexArray.Length
      invariant ps == Positions(order, i) && lastCount == |ps|
      invariant forall k | 0 <= k < lastCount :: results[k] == ResultOf(cands[order[ps[k]]], scores[ps[k]], w, h)
      invariant forall k | lastCount <= k < results.Length :: results[k] == old(results[k])
    {
      if !(indexArray[i] == -1 || lastCount >= OBJ_NUMB_MAX_SIZE) {
        var n := indexArray[i];
        results[lastCount] := ReportEntry(d, n, scores[i], w, h);
        lastCount := lastCount + 1;
        ps := ps + [i];
      }
      PositionsStep(order, i);
      i := i + 1;
    }
  }

  lemma PositionsNone(order: seq<int>)
    ensures Positions(order, 0) == []
  {
  }

  lemma PositionsStep(order: seq<int>, k: nat)
    requires k < |order|
    ensures var ps := Positions(order, k);
            Positions(order, k + 1) == if order[k] == -1 || |ps| >= OBJ_NUMB_MAX_SIZE then ps else ps + [k]
  {
  }

  lemma ReportedAs(d: Detections, n: nat, score: real, w: nat, h: nat)
    requires d.Valid() && n < |d.scores|
    ensures var x1, y1 := d.boxes[n * 4 + 0], d.boxes[n * 4 + 1];
            var x2, y2 := x1 + d.boxes[n * 4 + 2], y1 + d.boxes[n * 4 + 3];
            ResultOf(d.Candidates()[n], score, w, h)
              == Result(Clamp(x1, 0, w), Clamp(y1, 0, h), Clamp(x2, 0, w), Clamp(y2, 0, h), score, d.classId[n])
  {
    hide Clamp, Detections.Candidates;
    CandidateAt(d, n);
  }

  lemma CandidateAt(d: Detections, n: nat)
    requires d.Valid() && n < |d.scores|
    ensures d.Candidates()[n] == d.Get(n)
  {
  }

  function Blank(): Result {
    Result(0, 0, 0, 0, 0.0, 0)
  }

  /** The candidates of all grids, one grid after another. */
  function ScanAll(grids: seq<Grid>, k: nat): seq<Candidate>
    requires k <= |grids| && forall i | 0 <= i < |grids| :: grids[i].Valid()
  {
    if k == 0 then [] else ScanAll(grids, k - 1) + Scan(grids[k - 1], grids[k - 1].Slots())
  }

  lemma {:induction false} ScanAllSound(grids: seq<Grid>, k: nat, conf: real)
    requires k <= |grids| && forall i | 0 <= i < |grids| :: grids[i].Valid() && grids[i].threshold == conf
    ensures forall i | 0 <= i < |ScanAll(grids, k)| :: Sound(ScanAll(grids, k)[i], conf)
  {
    hide Scan;
    if k > 0 {
      ScanAllSound(grids, k - 1, conf);
      ScanSound(grids[k - 1], grids[k - 1].Slots());
    }
  }

  /** `post_process`: scans the three grids, ranks, suppresses, reports. */
  method PostProcess(grids: seq<Grid>, modelW: nat, modelH: nat, conf: real, nmsThreshold: real, results: array<Result>)
    returns (count: nat, ghost boxes: seq<real>, ghost scores: seq<real>, ghost order: seq<int>, ghost kept: seq<int>)
    requires |grids| == 3 && forall i | 0 <= i < |grids| :: grids[i].Valid() && grids[i].threshold == conf
    requires results.Length == OBJ_NUMB_MAX_SIZE
    modifies results
    ensures count <= OBJ_NUMB_MAX_SIZE && forall i | count <= i < results.Length :: results[i] == Blank()
    ensures var cands := ScanAll(grids, 3);
            if cands == [] then count == 0
            else
              && FlatBoxes(boxes, cands) && Ranked(cands, scores, order)
              && Suppressed(boxes, ClassIds(cands), order, kept, nmsThreshold)
              && GoodReport(results[..count], cands, boxes, order, kept, modelW, modelH, conf, nmsThreshold)
  {
    hide Scan, Ranked, Thinned, Suppressed, Reports, GoodReport, ClassIds;
    forall i | 0 <= i < results.Length {
      results[i] := Blank();
    }
    var d := new Detections();
    var validCount, i := 0, 0;
    while i < 3
      invariant 0 <= i <= 3 && d.Valid() && fresh(d)
      invariant d.Candidates() == ScanAll(grids, i) && |d.scores| == validCount
      invariant forall k | 0 <= k < results.Length :: results[k] == Blank()
    {
      var n := ProcessGrid(d, grids[i]);
      validCount := validCount + n;
      i := i + 1;
    }
    count, boxes, scores, order, kept := 0, d.boxes, [], [], [];
    if validCount <= 0 {
      return;
    }
    var sorted, indexArray;
    sorted, indexArray, order := Rank(d, nmsThreshold);
    scores, kept := sorted[..], indexArray[..];
    ghost var cands := d.Candidates();
    BoxesOf(d);
    ClassesOf(d);
    SuppressedIsThinned(boxes, d.classId, order, kept, nmsThreshold);
    RankFacts(cands, scores, order, boxes, kept, nmsThreshold);
    count := Report(d, sorted, indexArray, modelW, modelH, results);
    ScanAllSound(grids, 3, conf);
    ReportIsSound(results[..count], cands, boxes, scores, order, kept, modelW, modelH, conf, nmsThreshold);
  }

  lemma ClassesOf(d: Detections)
    requires d.Valid()
    ensures d.classId == ClassIds(d.Candidates())
  {
    forall i | 0 <= i < |d.scores|
      ensures d.classId[i] == ClassIds(d.Candidates())[i]
    {
      CandidateAt(d, i);
    }
  }

  lemma RankFacts(cands: seq<Candidate>, scores: seq<real>, order: seq<int>, boxes: seq<real>, kept: seq<int>, threshold: real)
    requires Ranked(cands, scores, order) && Thinned(boxes, order, kept, threshold)
    ensures |kept| == |cands| && forall i | 0 <= i < |kept| :: kept[i] == -1 || 0 <= kept[i] < |cands|
  {
    KeptInRange(cands, scores, order, kept);
  }

  lemma BoxesOf(d: Detections)
    requires d.Valid()
    ensures FlatBoxes(d.boxes, d.Candidates())
  {
    forall i | 0 <= i < |d.scores|
      ensures BoxAt(d.boxes, d.Candidates(), i)
    {
      CandidateAt(d, i);
    }
  }
}
