/** The zigzag order, the prediction of DC values, and a whole entropy-coded segment. */
module JpegScan {
  import opened Bits
  import opened JpegTables
  import opened JpegBlock
  import JpegBits

  function ZigZagRow0(x: nat): nat {
    match x
    case 0 => 0 case 1 => 1 case 2 => 5 case 3 => 6 case 4 => 14 case 5 => 15 case 6 => 27 case _ => 28
  }

  function ZigZagRow1(x: nat): nat {
    match x
    case 0 => 2 case 1 => 4 case 2 => 7 case 3 => 13 case 4 => 16 case 5 => 26 case 6 => 29 case _ => 42
  }

  function ZigZagRow2(x: nat): nat {
    match x
    case 0 => 3 case 1 => 8 case 2 => 12 case 3 => 17 case 4 => 25 case 5 => 30 case 6 => 41 case _ => 43
  }

  function ZigZagRow3(x: nat): nat {
    match x
    case 0 => 9 case 1 => 11 case 2 => 18 case 3 => 24 case 4 => 31 case 5 => 40 case 6 => 44 case _ => 53
  }

  function ZigZagRow4(x: nat): nat {
    match x
    case 0 => 10 case 1 => 19 case 2 => 23 case 3 => 32 case 4 => 39 case 5 => 45 case 6 => 52 case _ => 54
  }

  function ZigZagRow5(x: nat): nat {
    match x
    case 0 => 20 case 1 => 22 case 2 => 33 case 3 => 38 case 4 => 46 case 5 => 51 case 6 => 55 case _ => 60
  }

  function ZigZagRow6(x: nat): nat {
    match x
    case 0 => 21 case 1 => 34 case 2 => 37 case 3 => 47 case 4 => 50 case 5 => 56 case 6 => 59 case _ => 61
  }

  function ZigZagRow7(x: nat): nat {
    match x
    case 0 => 35 case 1 => 36 case 2 => 48 case 3 => 49 case 4 => 57 case 5 => 58 case 6 => 62 case _ => 63
  }

  /** `stbiw__jpg_ZigZag`: where the coefficient of row j / 8 and column j % 8 goes. */
  function ZigZag(j: nat): nat {
    match j / 8
    case 0 => ZigZagRow0(j % 8)
    case 1 => ZigZagRow1(j % 8)
    case 2 => ZigZagRow2(j % 8)
    case 3 => ZigZagRow3(j % 8)
    case 4 => ZigZagRow4(j % 8)
    case 5 => ZigZagRow5(j % 8)
    case 6 => ZigZagRow6(j % 8)
    case _ => ZigZagRow7(j % 8)
  }

  // ----- The standard's order (ITU-T T.81, figure A.6)

  /** Positions on the diagonals up to the longest: odd ones run down, even ones up. */
  function UpperIndex(y: nat, x: nat): nat {
    (y + x) * (y + x + 1) / 2 + if (y + x) % 2 == 1 then y else x
  }

  /** The place of row `y` and column `x` along the diagonals; the lower half mirrors the upper. */
  function DiagonalIndex(y: nat, x: nat): int
    requires y < 8 && x < 8
  {
    if y + x < 8 then UpperIndex(y, x) else 63 - UpperIndex(7 - y, 7 - x)
  }

  lemma ZigZagCheck0(x: nat)
    requires x < 8
    ensures ZigZagRow0(x) == DiagonalIndex(0, x)
  {
    match x {
      case 0 => case 1 => case 2 => case 3 => case 4 => case 5 => case 6 => case _ =>
    }
  }

  lemma ZigZagCheck1(x: nat)
    requires x < 8
    ensures ZigZagRow1(x) == DiagonalIndex(1, x)
  {
    match x {
      case 0 => case 1 => case 2 => case 3 => case 4 => case 5 => case 6 => case _ =>
    }
  }

  lemma ZigZagCheck2(x: nat)
    requires x < 8
    ensures ZigZagRow2(x) == DiagonalIndex(2, x)
  {
    match x {
      case 0 => case 1 => case 2 => case 3 => case 4 => case 5 => case 6 => case _ =>
    }
  }

  lemma ZigZagCheck3(x: nat)
    requires x < 8
    ensures ZigZagRow3(x) == DiagonalIndex(3, x)
  {
    match x {
      case 0 => case 1 => case 2 => case 3 => case 4 => case 5 => case 6 => case _ =>
    }
  }

  lemma ZigZagCheck4(x: nat)
    requires x < 8
    ensures ZigZagRow4(x) == DiagonalIndex(4, x)
  {
    match x {
      case 0 => case 1 => case 2 => case 3 => case 4 => case 5 => case 6 => case _ =>
    }
  }

  lemma ZigZagCheck5(x: nat)
    requires x < 8
    ensures ZigZagRow5(x) == DiagonalIndex(5, x)
  {
    match x {
      case 0 => case 1 => case 2 => case 3 => case 4 => case 5 => case 6 => case _ =>
    }
  }

  lemma ZigZagCheck6(x: nat)
    requires x < 8
    ensures ZigZagRow6(x) == DiagonalIndex(6, x)
  {
    match x {
      case 0 => case 1 => case 2 => case 3 => case 4 => case 5 => case 6 => case _ =>
    }
  }

  lemma ZigZagCheck7(x: nat)
    requires x < 8
    ensures ZigZagRow7(x) == DiagonalIndex(7, x)
  {
    match x {
      case 0 => case 1 => case 2 => case 3 => case 4 => case 5 => case 6 => case _ =>
    }
  }

  /** The table is the standard's diagonal order. */
  lemma ZigZagIsStandard(j: nat)
    requires j < 64
    ensures ZigZag(j) == DiagonalIndex(j / 8, j % 8) && ZigZag(j) < 64
  {
    hide DiagonalIndex;
    var x := j % 8;
    match j / 8 {
      case 0 => ZigZagCheck0(x);
      case 1 => ZigZagCheck1(x);
      case 2 => ZigZagCheck2(x);
      case 3 => ZigZagCheck3(x);
      case 4 => ZigZagCheck4(x);
      case 5 => ZigZagCheck5(x);
      case 6 => ZigZagCheck6(x);
      case _ => ZigZagCheck7(x);
    }
    hide *;
    DiagonalBound(j / 8, x);
  }

  lemma DiagonalBound(y: nat, x: nat)
    requires y < 8 && x < 8
    ensures 0 <= DiagonalIndex(y, x) < 64
  {
  }

  /** The places before diagonal `d`. */
  function Triangle(d: nat): nat {
    d * (d + 1) / 2
  }

  lemma Triangles(d: nat)
    requires d < 8
    ensures Triangle(d + 1) == Triangle(d) + d + 1
  {
    match d {
      case 0 => case 1 => case 2 => case 3 => case 4 => case 5 => case 6 => case _ =>
    }
  }

  lemma {:induction false} TriangleMono(d: nat, e: nat)
    requires d <= e <= 8
    ensures Triangle(d) <= Triangle(e)
  {
    if d < e {
      Triangles(e - 1);
      TriangleMono(d, e - 1);
    }
  }

  lemma UpperRange(y: nat, x: nat)
    requires y + x < 8
    ensures Triangle(y + x) <= UpperIndex(y, x) < Triangle(y + x + 1)
  {
    Triangles(y + x);
  }

  lemma UpperInjective(y: nat, x: nat, b: nat, a: nat)
    requires y + x < 8 && b + a < 8 && UpperIndex(y, x) == UpperIndex(b, a)
    ensures y == b && x == a
  {
    UpperRange(y, x);
    UpperRange(b, a);
    hide Triangle;
    if y + x < b + a {
      TriangleMono(y + x + 1, b + a);
    } else if b + a < y + x {
      TriangleMono(b + a + 1, y + x);
    }
  }

  lemma UpperSmall(y: nat, x: nat)
    requires y + x < 8
    ensures UpperIndex(y, x) < 36 && (y + x < 7 ==> UpperIndex(y, x) < 28)
  {
    UpperRange(y, x);
    TriangleMono(y + x + 1, if y + x < 7 then 7 else 8);
  }

  lemma DiagonalInjective(y: nat, x: nat, b: nat, a: nat)
    requires y < 8 && x < 8 && b < 8 && a < 8 && DiagonalIndex(y, x) == DiagonalIndex(b, a)
    ensures y == b && x == a
  {
    hide UpperIndex;
    if y + x < 8 {
      UpperSmall(y, x);
    } else {
      UpperSmall(7 - y, 7 - x);
    }
    if b + a < 8 {
      UpperSmall(b, a);
    } else {
      UpperSmall(7 - b, 7 - a);
    }
    if y + x < 8 && b + a < 8 {
      UpperInjective(y, x, b, a);
    } else if y + x >= 8 && b + a >= 8 {
      UpperInjective(7 - y, 7 - x, 7 - b, 7 - a);
    }
  }

  /** No two coefficients go to the same place: the order loses nothing. */
  lemma ZigZagInjective(i: nat, j: nat)
    requires i < 64 && j < 64 && ZigZag(i) == ZigZag(j)
    ensures i == j
  {
    hide ZigZag, DiagonalIndex;
    ZigZagIsStandard(i);
    ZigZagIsStandard(j);
    DiagonalInjective(i / 8, i % 8, j / 8, j % 8);
  }

  /** `du` is the block `q` in zigzag order, and nothing else is in it. */
  ghost predicate Reordered(q: Block, du: Block) {
    && (forall j | 0 <= j < 64 :: ZigZagOk(j) && du[ZigZag(j)] == q[j])
    && (forall m | 0 <= m < 64 :: du[m] == 0 || ComesFrom(q, du, m))
  }

  /** Position `m` was filled from the grid. */
  ghost predicate ComesFrom(q: Block, du: seq<int>, m: nat)
    requires m < |du|
  {
    exists j :: 0 <= j < 64 && ZigZag(j) == m && du[m] == q[j]
  }

  predicate ZigZagOk(j: nat) {
    ZigZag(j) < 64
  }

  lemma StillFrom(q: Block, before: seq<int>, after: seq<int>, j: nat)
    requires j < 64 && ZigZagOk(j) && |before| == 64 && after == before[ZigZag(j) := q[j]]
    requires forall m | 0 <= m < 64 :: before[m] == 0 || ComesFrom(q, before, m)
    ensures forall m | 0 <= m < 64 :: after[m] == 0 || ComesFrom(q, after, m)
  {
    hide ZigZag;
    forall m | 0 <= m < 64
      ensures after[m] == 0 || ComesFrom(q, after, m)
    {
      if m != ZigZag(j) && after[m] != 0 {
        assert ComesFrom(q, before, m);
        var k :| 0 <= k < 64 && ZigZag(k) == m && before[m] == q[k];
        assert after[m] == q[k];
      }
    }
  }

  /** The reordering loop of `stbiw__jpg_processDU`, on quantised coefficients. */
  method Reorder(q: Block) returns (du: Block)
    ensures Reordered(q, du)
  {
    hide ZigZag;
    var a := new int[64](_ => 0);
    var y, j := 0, 0;
    while y < 8
      invariant 0 <= y <= 8 && j == 8 * y
      invariant forall k | 0 <= k < j :: ZigZagOk(k) && a[ZigZag(k)] == q[k]
      invariant forall m | 0 <= m < 64 :: a[m] == 0 || ComesFrom(q, a[..], m)
    {
      var x := 0;
      while x < 8
        invariant 0 <= x <= 8 && j == 8 * y + x
        invariant forall k | 0 <= k < j :: ZigZagOk(k) && a[ZigZag(k)] == q[k]
        invariant forall m | 0 <= m < 64 :: a[m] == 0 || ComesFrom(q, a[..], m)
      {
        ghost var before := a[..];
        ZigZagIsStandard(j);
        forall k | 0 <= k < j
          ensures ZigZag(k) != ZigZag(j)
        {
          if ZigZag(k) == ZigZag(j) {
            ZigZagInjective(k, j);
          }
        }
        a[ZigZag(j)] := q[j];
        StillFrom(q, before, a[..], j);
        x := x + 1;
        j := j + 1;
      }
      y := y + 1;
    }
    du := a[..];
  }

  /** The decoder's way back. */
  function Dezigzag(du: Block): (q: Block)
  {
    seq(64, j requires 0 <= j < 64 => (ZigZagIsStandard(j); du[ZigZag(j)]))
  }

  lemma DezigzagInverse(q: Block, du: Block)
    requires Reordered(q, du)
    ensures Dezigzag(du) == q
  {
    hide ZigZag, ComesFrom;
    assert forall j | 0 <= j < 64 :: ZigZagOk(j) && du[ZigZag(j)] == q[j];
  }

  /** The DC coefficient stays in front, so the order does not matter to the baseline range. */
  lemma BaselineKept(q: Block, du: Block, dc: int)
    requires Reordered(q, du) && Baseline(q, dc)
    ensures Baseline(du, dc) && du[0] == q[0]
  {
    assert ZigZagOk(0) && ZigZag(0) == 0;
    hide ZigZag;
    forall m | 1 <= m < 64
      ensures -1023 <= du[m] <= 1023
    {
      if du[m] != 0 {
        var j :| 0 <= j < 64 && ZigZag(j) == m && du[m] == q[j];
      }
    }
  }

  // ----- The segment

  datatype Component = Y | U | V

  /** A data unit: its component and its coefficients, in grid order before the coder and in zigzag order after. */
  datatype Unit = Unit(c: Component, du: Block)

  /** What unit `i` is predicted from: the DC coefficient of the last unit before it that has component `c`, or 0. */
  function LastDc(units: seq<Unit>, i: nat, c: Component): int
    requires i <= |units|
  {
    if i == 0 then 0 else if units[i - 1].c == c then units[i - 1].du[0] else LastDc(units, i - 1, c)
  }

  function DcTable(c: Component): Table {
    if c == Y then YDC else UVDC
  }

  function AcTable(c: Component): Table {
    if c == Y then YAC else UVAC
  }

  /** The bits of unit `i`. */
  function UnitBits(units: seq<Unit>, i: nat): seq<bit>
    requires i < |units|
  {
    var u := units[i];
    BlockBits(DcTable(u.c), AcTable(u.c), u.du, LastDc(units, i, u.c))
  }

  /** The bits of the first `n` units. */
  function UnitsBits(units: seq<Unit>, n: nat): seq<bit>
    requires n <= |units|
  {
    if n == 0 then [] else UnitsBits(units, n - 1) + UnitBits(units, n - 1)
  }

  /** Unit `i` is in the baseline range against its prediction. */
  predicate InRange(units: seq<Unit>, i: nat)
    requires i < |units|
  {
    Baseline(units[i].du, LastDc(units, i, units[i].c))
  }

  predicate AllBaseline(units: seq<Unit>) {
    forall i | 0 <= i < |units| :: InRange(units, i)
  }

  /** `p` is what `LastDc` says in so many words. */
  ghost predicate Predicts(units: seq<Unit>, i: nat, c: Component, p: int)
    requires i <= |units|
  {
    || (p == 0 && forall k | 0 <= k < i :: units[k].c != c)
    || (exists k :: 0 <= k < i && units[k].c == c && p == units[k].du[0] && NoneBetween(units, k, i, c))
  }

  predicate NoneBetween(units: seq<Unit>, k: nat, i: nat, c: Component)
    requires i <= |units|
  {
    forall m | k < m < i :: units[m].c != c
  }

  /** The law of prediction, for every unit of any list: the DC coefficient of the last unit before it with the
      same component, or 0 if there is none; and nothing else. */
  lemma {:induction false} LastDcIs(units: seq<Unit>, i: nat, c: Component, p: int)
    requires i <= |units|
    ensures Predicts(units, i, c, p) <==> p == LastDc(units, i, c)
    decreases i
  {
    if i > 0 {
      PredictsStep(units, i, c, p);
      hide Predicts;
      LastDcIs(units, i - 1, c, p);
    }
  }

  lemma PredictsStep(units: seq<Unit>, i: nat, c: Component, p: int)
    requires 0 < i <= |units|
    ensures Predicts(units, i, c, p)
       <==> if units[i - 1].c == c then p == units[i - 1].du[0] else Predicts(units, i - 1, c, p)
  {
    if units[i - 1].c == c {
      assert NoneBetween(units, i - 1, i, c);
    } else {
      assert forall k | 0 <= k < i - 1 :: NoneBetween(units, k, i - 1, c) <==> NoneBetween(units, k, i, c);
    }
  }

  // ----- A reader

  /** The components of the scan and the tables each selects, as the scan header announces them. */
  const SCAN: seq<byte> := [3, 1, 0x00, 2, 0x11, 3, 0x11]

  /** The byte that selects the tables of a component: Y is number 1, U is 2, V is 3. */
  function Selector(c: Component): byte {
    match c
    case Y => SCAN[2]
    case U => SCAN[4]
    case V => SCAN[6]
  }

  /** DC table 0 is defined as the luminance table, 1 as the chrominance table. */
  function ScanDcTable(c: Component): Table {
    if Selector(c) / 16 == 0 then YDC else UVDC
  }

  function ScanAcTable(c: Component): Table {
    if Selector(c) % 16 == 0 then YAC else UVAC
  }

  function Prediction(last: map<Component, int>, c: Component): int {
    if c in last then last[c] else 0
  }

  ghost predicate Remembers(last: map<Component, int>, units: seq<Unit>, i: nat)
    requires i <= |units|
  {
    forall c :: Prediction(last, c) == LastDc(units, i, c)
  }

  /** Decodes units of known components, remembering the last DC value decoded of each. */
  function ReadUnits(s: seq<bit>, comps: seq<Component>, last: map<Component, int>): Option<(seq<Unit>, seq<bit>)>
    decreases |comps|
  {
    if comps == [] then Some(([], s))
    else
      var c := comps[0];
      match ReadBlock(ScanDcTable(c), ScanAcTable(c), s, Prediction(last, c))
      case None => None
      case Some((du, s1)) =>
        match ReadUnits(s1, comps[1..], last[c := du[0]])
        case None => None
        case Some((units, rest)) => Some(([Unit(c, du)] + units, rest))
  }

  function Components(units: seq<Unit>): (cs: seq<Component>)
    ensures |cs| == |units| && forall i | 0 <= i < |units| :: cs[i] == units[i].c
  {
    seq(|units|, i requires 0 <= i < |units| => units[i].c)
  }

  // ----- Reading undoes writing

  /** The bits of the units from `i` on. */
  function BitsFrom(units: seq<Unit>, i: nat): seq<bit>
    requires i <= |units|
    decreases |units| - i
  {
    if i == |units| then [] else UnitBits(units, i) + BitsFrom(units, i + 1)
  }

  lemma {:induction false} BitsSplit(units: seq<Unit>, i: nat)
    requires i <= |units|
    ensures UnitsBits(units, |units|) == UnitsBits(units, i) + BitsFrom(units, i)
    decreases |units| - i
  {
    hide UnitBits;
    if i == |units| {
      assert UnitsBits(units, i) + [] == UnitsBits(units, i);
    } else {
      BitsSplit(units, i + 1);
      SeqAssoc(UnitsBits(units, i), UnitBits(units, i), BitsFrom(units, i + 1));
    }
  }

  lemma TablesAgree(c: Component)
    ensures ScanDcTable(c) == DcTable(c) && ScanAcTable(c) == AcTable(c)
    ensures IsDc(DcTable(c)) && !IsDc(AcTable(c))
  {
  }

  /** One unit decodes, and the reader then remembers what the next ones are predicted from. */
  lemma UnitRoundTrip(units: seq<Unit>, i: nat, last: map<Component, int>, rest: seq<bit>)
    requires i < |units| && InRange(units, i) && Remembers(last, units, i)
    ensures var u := units[i];
            && ReadBlock(ScanDcTable(u.c), ScanAcTable(u.c), UnitBits(units, i) + rest, Prediction(last, u.c)) == Some((u.du, rest))
            && Remembers(last[u.c := u.du[0]], units, i + 1)
  {
    var u := units[i];
    RemembersNext(units, i, last);
    hide BlockBits, ReadBlock, Baseline, IsDc, ScanDcTable, ScanAcTable, DcTable, AcTable, LastDc, Prediction;
    TablesAgree(u.c);
    BlockRoundTrip(DcTable(u.c), AcTable(u.c), u.du, LastDc(units, i, u.c), rest);
    assert Prediction(last, u.c) == LastDc(units, i, u.c);
  }

  lemma RemembersNext(units: seq<Unit>, i: nat, last: map<Component, int>)
    requires i < |units| && Remembers(last, units, i)
    ensures Remembers(last[units[i].c := units[i].du[0]], units, i + 1)
  {
    var next := last[units[i].c := units[i].du[0]];
    forall c
      ensures Prediction(next, c) == LastDc(units, i + 1, c)
    {
      assert Prediction(last, c) == LastDc(units, i, c);
    }
  }

  /** Any sequence of units, interleaved in any order, decodes to itself. */
  lemma {:induction false} UnitsRoundTrip(units: seq<Unit>, i: nat, last: map<Component, int>, rest: seq<bit>)
    requires AllBaseline(units) && i <= |units| && Remembers(last, units, i)
    ensures ReadUnits(BitsFrom(units, i) + rest, Components(units)[i..], last) == Some((units[i..], rest))
    decreases |units| - i
  {
    hide UnitBits, ReadBlock, InRange, Remembers, Prediction;
    if i == |units| {
      assert BitsFrom(units, i) + rest == rest;
    } else {
      var u := units[i];
      assert InRange(units, i);
      UnitRoundTrip(units, i, last, BitsFrom(units, i + 1) + rest);
      UnitsRoundTrip(units, i + 1, last[u.c := u.du[0]], rest);
      SeqAssoc(UnitBits(units, i), BitsFrom(units, i + 1), rest);
      assert Components(units)[i..][0] == u.c && Components(units)[i..][1..] == Components(units)[i + 1..];
      assert units[i..] == [u] + units[i + 1..];
    }
  }

  /** What a decoder needs to know of a finished segment: stuffed throughout, and under the stuffing the
      bits of the units and fewer than eight ones. */
  ghost predicate Segment(out: seq<byte>, bits: seq<bit>) {
    && JpegBits.WellStuffed(out)
    && exists k: nat :: k < 8 && JpegBits.BytesMsb(JpegBits.Unstuff(out)) == bits + Msb(0x7F, 7)[..k]
  }

  /** A finished segment decodes to its units; only fill bits are left. */
  lemma SegmentRoundTrip(out: seq<byte>, units: seq<Unit>)
    requires AllBaseline(units) && Segment(out, UnitsBits(units, |units|))
    ensures var r := ReadUnits(JpegBits.BytesMsb(JpegBits.Unstuff(out)), Components(units), map[]);
            r.Some? && r.value.0 == units && |r.value.1| < 8
  {
    hide UnitsBits, BitsFrom, ReadUnits, AllBaseline, JpegBits.BytesMsb, JpegBits.Unstuff, Msb;
    var k: nat :| k < 8 && JpegBits.BytesMsb(JpegBits.Unstuff(out)) == UnitsBits(units, |units|) + Msb(0x7F, 7)[..k];
    NothingBefore(units);
    UnitsRoundTrip(units, 0, map[], Msb(0x7F, 7)[..k]);
  }

  lemma NothingBefore(units: seq<Unit>)
    ensures UnitsBits(units, |units|) == BitsFrom(units, 0)
    ensures Remembers(map[], units, 0)
    ensures Components(units)[0..] == Components(units) && units[0..] == units
  {
    BitsSplit(units, 0);
    hide BitsFrom;
  }

  /** After the seven fill bits every bit that matters has left the buffer. */
  lemma FillFlushes(w: JpegBits.Writer, bits: seq<bit>, before: nat)
    requires w.Valid() && before < 8 && w.bitCnt == (before + 7) % 8 && |bits| % 8 == before
    requires w.Stream() == bits + Msb(0x7F, 7)
    ensures Segment(w.out, bits)
  {
    hide JpegBits.BytesMsb, JpegBits.Unstuff, Msb, JpegBits.Waiting, JpegBits.WellStuffed, JpegBits.TopAligned;
    var sent := JpegBits.BytesMsb(JpegBits.Unstuff(w.out));
    var k: int := 7 - w.bitCnt;
    assert |sent| == |bits| + k;
    assert w.Stream()[..|sent|] == sent;
    assert (bits + Msb(0x7F, 7))[..|bits| + k] == bits + Msb(0x7F, 7)[..k];
  }

  lemma StreamLength(w: JpegBits.Writer)
    requires w.Valid()
    ensures |w.Stream()| % 8 == w.bitCnt
  {
  }

  /** The units as a decoder hands them on: coefficients back on the grid. */
  function OnGrid(units: seq<Unit>): (grids: seq<Unit>)
    ensures |grids| == |units|
  {
    seq(|units|, i requires 0 <= i < |units| => Unit(units[i].c, Dezigzag(units[i].du)))
  }

  lemma OnGridSnoc(units: seq<Unit>, u: Unit, g: Unit)
    requires u.c == g.c && Dezigzag(u.du) == g.du
    ensures OnGrid(units + [u]) == OnGrid(units) + [g]
  {
    hide Dezigzag;
  }

  /** What a segment decodes to: the blocks given, every coefficient at its place on the grid, and fill bits. */
  ghost predicate DecodesTo(out: seq<byte>, grids: seq<Unit>) {
    var r := ReadUnits(JpegBits.BytesMsb(JpegBits.Unstuff(out)), Components(grids), map[]);
    r.Some? && OnGrid(r.value.0) == grids && |r.value.1| < 8
  }

  lemma GridsRoundTrip(out: seq<byte>, grids: seq<Unit>, units: seq<Unit>)
    requires OnGrid(units) == grids && AllBaseline(units) && Segment(out, UnitsBits(units, |units|))
    ensures DecodesTo(out, grids)
  {
    hide Segment, UnitsBits, ReadUnits, AllBaseline, JpegBits.BytesMsb, JpegBits.Unstuff, Dezigzag;
    SegmentRoundTrip(out, units);
    assert Components(units) == Components(grids);
  }

  // ----- The encoder

  /** Predictions look only at the units before, and there only at components and DC coefficients. */
  lemma {:induction false} LastDcSame(a: seq<Unit>, b: seq<Unit>, i: nat, c: Component)
    requires i <= |a| && i <= |b|
    requires forall k | 0 <= k < i :: a[k].c == b[k].c && a[k].du[0] == b[k].du[0]
    ensures LastDc(a, i, c) == LastDc(b, i, c)
    decreases i
  {
    if i > 0 {
      LastDcSame(a, b, i - 1, c);
    }
  }

  lemma UnitBitsSame(units: seq<Unit>, u: Unit, i: nat)
    requires i < |units|
    ensures UnitBits(units + [u], i) == UnitBits(units, i) && InRange(units + [u], i) == InRange(units, i)
  {
    hide BlockBits, Baseline;
    LastDcSame(units + [u], units, i, units[i].c);
  }

  lemma {:induction false} UnitsPrefix(units: seq<Unit>, u: Unit, n: nat)
    requires n <= |units|
    ensures UnitsBits(units + [u], n) == UnitsBits(units, n)
  {
    hide UnitBits;
    if n > 0 {
      UnitsPrefix(units, u, n - 1);
      UnitBitsSame(units, u, n - 1);
    }
  }

  lemma UnitsSnoc(units: seq<Unit>, u: Unit)
    requires AllBaseline(units) && Baseline(u.du, LastDc(units, |units|, u.c))
    ensures AllBaseline(units + [u])
    ensures UnitsBits(units + [u], |units| + 1)
         == UnitsBits(units, |units|) + BlockBits(DcTable(u.c), AcTable(u.c), u.du, LastDc(units, |units|, u.c))
  {
    UnitsPrefix(units, u, |units|);
    LastUnit(units, u);
    hide BlockBits, Baseline, UnitBits, InRange, LastDc;
    forall i | 0 <= i < |units| + 1
      ensures InRange(units + [u], i)
    {
      if i < |units| {
        assert InRange(units, i);
        UnitBitsSame(units, u, i);
      }
    }
  }

  lemma LastUnit(units: seq<Unit>, u: Unit)
    ensures InRange(units + [u], |units|) == Baseline(u.du, LastDc(units, |units|, u.c))
    ensures UnitBits(units + [u], |units|) == BlockBits(DcTable(u.c), AcTable(u.c), u.du, LastDc(units, |units|, u.c))
  {
    hide BlockBits, Baseline;
    LastDcSame(units + [u], units, |units|, u.c);
  }

  lemma LastDcSnoc(units: seq<Unit>, u: Unit, c: Component)
    ensures LastDc(units + [u], |units| + 1, c) == if c == u.c then u.du[0] else LastDc(units, |units|, c)
  {
    LastDcSame(units + [u], units, |units|, c);
  }

  /** The macroblock loop and the fill bits of `stbi_write_jpg_core`, on the blocks of quantised coefficients in
      the order it visits them: each is reordered and coded in turn, against the last DC value of its component. */
  method WriteSegment(grids: seq<Unit>) returns (out: seq<byte>, ghost units: seq<Unit>)
    requires AllBaseline(grids)
    ensures OnGrid(units) == grids && AllBaseline(units)
    ensures Segment(out, UnitsBits(units, |units|))
    ensures DecodesTo(out, grids)
  {
    hide BlockBits, Baseline, JpegBits.Writer.Stream, Reordered, UnitsBits, AllBaseline, OnGrid, Segment, DecodesTo, LastDc;
    var w := new JpegBits.Writer();
    var dcY, dcU, dcV := 0, 0, 0;
    var i := 0;
    units := [];
    NoUnits(grids);
    while i < |grids|
      invariant 0 <= i <= |grids| == |grids| && |units| == i && w.Valid() && fresh(w)
      invariant AllBaseline(units) && OnGrid(units) == grids[..i]
      invariant forall k | 0 <= k < i :: units[k].c == grids[k].c && units[k].du[0] == grids[k].du[0]
      invariant dcY == LastDc(units, i, Y) && dcU == LastDc(units, i, U) && dcV == LastDc(units, i, V)
      invariant w.Stream() == UnitsBits(units, i)
    {
      var c := grids[i].c;
      BaselineNext(grids, units, i);
      var du := Reorder(grids[i].du);
      BaselineKept(grids[i].du, du, LastDc(units, i, c));
      DezigzagInverse(grids[i].du, du);
      TablesAgree(c);
      match c {
        case Y => dcY := ProcessDU(w, du, dcY, YDC, YAC);
        case U => dcU := ProcessDU(w, du, dcU, UVDC, UVAC);
        case V => dcV := ProcessDU(w, du, dcV, UVDC, UVAC);
      }
      UnitsSnoc(units, Unit(c, du));
      LastDcSnoc(units, Unit(c, du), Y);
      LastDcSnoc(units, Unit(c, du), U);
      LastDcSnoc(units, Unit(c, du), V);
      OnGridSnoc(units, Unit(c, du), grids[i]);
      units := units + [Unit(c, du)];
      i := i + 1;
    }
    assert grids[..i] == grids;
    StreamLength(w);
    ghost var before := w.bitCnt;
    ghost var total := w.Stream();
    Pow2Of8();
    w.WriteBits(0x7F, 7);
    FillFlushes(w, total, before);
    out := w.out;
    GridsRoundTrip(out, grids, units);
  }

  lemma NoUnits(grids: seq<Unit>)
    ensures UnitsBits([], 0) == [] && AllBaseline([]) && OnGrid([]) == grids[..0]
    ensures LastDc([], 0, Y) == LastDc([], 0, U) == LastDc([], 0, V) == 0
  {
  }

  lemma BaselineNext(grids: seq<Unit>, units: seq<Unit>, i: nat)
    requires i < |grids| && |units| == i && AllBaseline(grids)
    requires forall k | 0 <= k < i :: units[k].c == grids[k].c && units[k].du[0] == grids[k].du[0]
    ensures Baseline(grids[i].du, LastDc(units, i, grids[i].c))
  {
    hide Baseline;
    assert InRange(grids, i);
    LastDcSame(grids, units, i, grids[i].c);
  }
}
