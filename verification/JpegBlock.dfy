/** The integer half of the JPEG block coder, and the standard's block decoder. */
module JpegBlock {
  import opened Arith
  import opened Bits
  import opened JpegTables
  import JpegBits

  function Abs(v: int): nat {
    if v < 0 then -v else v
  }

  /** How many bits a number needs. */
  function BitLength(n: nat): nat {
    if n == 0 then 0 else 1 + BitLength(n / 2)
  }

  lemma {:induction false} BitLengthBounds(n: nat, m: nat)
    requires n < Pow2(m)
    ensures n < Pow2(BitLength(n)) && BitLength(n) <= m
    ensures n > 0 ==> BitLength(n) >= 1 && Pow2(BitLength(n) - 1) <= n
  {
    if n > 0 {
      BitLengthBounds(n / 2, m - 1);
    }
  }

  /** The category of a non-zero value and the bits sent after it (ITU-T T.81, section F.1.2.1). */
  function Category(v: int): nat {
    BitLength(Abs(v))
  }

  function Extra(v: int): (e: nat) {
    (if v < 0 then v - 1 else v) % Pow2(Category(v))
  }

  /** The standard's sign extension (figure F.12). */
  function Extend(e: nat, size: nat): int
  {
    if size == 0 then 0 else if e < Pow2(size - 1) then e - Pow2(size) + 1 else e
  }

  /** A value of either sign comes back from its category and bits. */
  lemma ExtendInverse(v: int)
    requires v != 0
    ensures Category(v) >= 1 && Extra(v) < Pow2(Category(v)) && Extend(Extra(v), Category(v)) == v
  {
    var s := Category(v);
    BitLengthSelf(Abs(v));
    assert Pow2(s) == 2 * Pow2(s - 1);
    hide Pow2, BitLength;
    SignedBits(v, Pow2(s - 1));
  }

  lemma SignedBits(v: int, p: nat)
    requires p >= 1 && p <= Abs(v) < 2 * p
    ensures (if v < 0 then v - 1 else v) % (2 * p) == if v < 0 then v - 1 + 2 * p else v
  {
    if v < 0 {
      ModUp(v - 1, 2 * p);
    } else {
      ModSame(v, 2 * p);
    }
  }

  lemma ModUp(x: int, d: int)
    requires d > 0 && -d <= x < 0
    ensures x % d == x + d
  {
    ModSame(x + d, d);
    assert x == d * -1 + (x + d);
    QuotientUnique(x, d, -1, x + d);
  }

  lemma ModSame(x: int, d: int)
    requires 0 <= x < d
    ensures x % d == x
  {
    QuotientUnique(x, d, 0, x);
  }

  lemma {:induction false} BitLengthSelf(n: nat)
    ensures n < Pow2(BitLength(n))
    ensures n > 0 ==> BitLength(n) >= 1 && Pow2(BitLength(n) - 1) <= n
  {
    if n > 0 {
      BitLengthSelf(n / 2);
    }
  }

  /** `stbiw__jpg_calcBits`. */
  method CalcBits(v: int) returns (bits: nat, size: nat)
    ensures v != 0 ==> size == Category(v) && bits == Extra(v)
  {
    var tmp1: nat := if v < 0 then -v else v;
    var val := if v < 0 then v - 1 else v;
    size := 1;
    tmp1 := tmp1 / 2;
    while tmp1 != 0
      invariant v != 0 ==> size + BitLength(tmp1) == Category(v)
      decreases tmp1
    {
      size := size + 1;
      tmp1 := tmp1 / 2;
    }
    bits := val % Pow2(size);
  }

  // ----- The bits of a block

  type Block = du: seq<int> | |du| == 64 witness seq(64, _ => 0)

  /** Coefficients of 8-bit baseline images, the DC one as the difference from the last block's. */
  predicate Baseline(du: Block, dc: int) {
    -2047 <= du[0] - dc <= 2047 && forall i | 1 <= i < 64 :: -1023 <= du[i] <= 1023
  }

  /** A symbol's code word, then the value bits. */
  function ValueBits(t: Table, run: nat, v: int): seq<bit> {
    WordBits(CodeWord(t, 16 * run + Category(v))) + Msb(Extra(v), Category(v))
  }

  function DcBits(t: Table, diff: int): seq<bit> {
    if diff == 0 then WordBits(CodeWord(t, 0)) else ValueBits(t, 0, diff)
  }

  /** The last non-zero position, 0 if there is none after the first. */
  function LastNonZero(du: Block, k: nat): (e: nat)
    requires k < 64
    ensures e <= k && (forall i | e < i <= k :: du[i] == 0) && (e > 0 ==> du[e] != 0)
  {
    if k > 0 && du[k] == 0 then LastNonZero(du, k - 1) else k
  }

  /** The next non-zero position from `i` on. */
  function NextNonZero(du: Block, i: nat, end: nat): (p: nat)
    requires i <= end < 64 && du[end] != 0
    ensures i <= p <= end && du[p] != 0 && forall k | i <= k < p :: du[k] == 0
    decreases end - i
  {
    if du[i] == 0 then NextNonZero(du, i + 1, end) else i
  }

  function MarkerBits(t: Table, n: nat): seq<bit> {
    if n == 0 then [] else WordBits(CodeWord(t, 0xF0)) + MarkerBits(t, n - 1)
  }

  /** The AC coefficients from `i` on: sixteen-zero markers, run and size, value; then the end of block. */
  function AcBits(t: Table, du: Block, i: nat, end: nat): seq<bit>
    requires end < 64 && i <= end + 1 && (end > 0 ==> du[end] != 0) && i >= 1
    decreases end + 1 - i
  {
    if i > end then (if end != 63 then WordBits(CodeWord(t, 0)) else [])
    else
      var p := NextNonZero(du, i, end);
      MarkerBits(t, (p - i) / 16) + ValueBits(t, (p - i) % 16, du[p]) + AcBits(t, du, p + 1, end)
  }

  function BlockBits(dcTable: Table, acTable: Table, du: Block, dc: int): seq<bit> {
    DcBits(dcTable, du[0] - dc) + AcBits(acTable, du, 1, LastNonZero(du, 63))
  }

  // ----- The standard's decoder (ITU-T T.81, section F.2.2)

  function Receive(s: seq<bit>, n: nat): Option<(nat, seq<bit>)> {
    if |s| < n then None else Some((MsbValue(s[..n]), s[n..]))
  }

  function ReadDc(t: Table, s: seq<bit>): Option<(int, seq<bit>)> {
    match ReadCode(t, s, 1)
    case None => None
    case Some((size, s1)) =>
      match Receive(s1, size)
      case None => None
      case Some((e, s2)) => Some((Extend(e, size), s2))
  }

  /** Continues a block of which `acc` is known. */
  function ReadAc(t: Table, s: seq<bit>, acc: seq<int>): (r: Option<(Block, seq<bit>)>)
    requires |acc| <= 64
    decreases 64 - |acc|
  {
    if |acc| == 64 then Some((acc, s))
    else
      match ReadCode(t, s, 1)
      case None => None
      case Some((symbol, s1)) =>
        var run, size := symbol / 16, symbol % 16;
        if size == 0 then
          if run == 15 then (if |acc| + 16 > 64 then None else ReadAc(t, s1, acc + Zeros(16)))
          else Some((acc + Zeros(64 - |acc|), s1))
        else if |acc| + run + 1 > 64 then None
        else
          match Receive(s1, size)
          case None => None
          case Some((e, s2)) => ReadAc(t, s2, acc + Zeros(run) + [Extend(e, size)])
  }

  function ReadBlock(dcTable: Table, acTable: Table, s: seq<bit>, dc: int): Option<(Block, seq<bit>)> {
    match ReadDc(dcTable, s)
    case None => None
    case Some((diff, s1)) => ReadAc(acTable, s1, [dc + diff])
  }

  // ----- Decoding undoes encoding

  predicate IsDc(t: Table) {
    t == YDC || t == UVDC
  }

  lemma CategoryBound(v: int, m: nat)
    requires Abs(v) < Pow2(m)
    ensures Category(v) <= m
  {
    BitLengthBounds(Abs(v), m);
  }

  lemma ReceiveRoundTrip(e: nat, n: nat, t: seq<bit>)
    requires e < Pow2(n)
    ensures Receive(Msb(e, n) + t, n) == Some((e, t))
  {
    hide Msb, Pow2, MsbValue;
    assert (Msb(e, n) + t)[..n] == Msb(e, n) && (Msb(e, n) + t)[n..] == t;
    MsbInverse(e, n);
  }

  /** The code word and value bits of a non-zero value, read in order. */
  lemma ValueRoundTrip(t: Table, run: nat, v: int, rest: seq<bit>)
    requires v != 0 && Sendable(t, 16 * run + Category(v))
    ensures var tail := Msb(Extra(v), Category(v)) + rest;
            && ReadCode(t, ValueBits(t, run, v) + rest, 1) == Some((16 * run + Category(v), tail))
            && Receive(tail, Category(v)) == Some((Extra(v), rest))
            && Extend(Extra(v), Category(v)) == v && Category(v) >= 1
  {
    hide ReadCode, WordBits, CodeWord, Msb, Receive, Extend, Extra, Category, Sendable, Pow2;
    ExtendInverse(v);
    var w := WordBits(CodeWord(t, 16 * run + Category(v)));
    SeqAssoc(w, Msb(Extra(v), Category(v)), rest);
    SymbolRoundTrip(t, 16 * run + Category(v), Msb(Extra(v), Category(v)) + rest);
    ReceiveRoundTrip(Extra(v), Category(v), rest);
  }

  lemma ReceiveNothing(s: seq<bit>)
    ensures Receive(s, 0) == Some((0, s)) && Extend(0, 0) == 0
  {
    assert s[..0] == [] && s[0..] == s;
  }

  lemma DcRoundTrip(t: Table, diff: int, rest: seq<bit>)
    requires IsDc(t) && -2047 <= diff <= 2047
    ensures ReadDc(t, DcBits(t, diff) + rest) == Some((diff, rest))
  {
    hide ReadDc, DcBits;
    if diff == 0 {
      DcUnchanged(t, rest);
    } else {
      DcChanged(t, diff, rest);
    }
  }

  lemma DcUnchanged(t: Table, rest: seq<bit>)
    requires IsDc(t)
    ensures ReadDc(t, DcBits(t, 0) + rest) == Some((0, rest))
  {
    hide ReadCode, WordBits, CodeWord, IsDc;
    SymbolRoundTrip(t, 0, rest);
    ReceiveNothing(rest);
  }

  lemma DcChanged(t: Table, diff: int, rest: seq<bit>)
    requires IsDc(t) && -2047 <= diff <= 2047 && diff != 0
    ensures ReadDc(t, DcBits(t, diff) + rest) == Some((diff, rest))
  {
    hide ReadCode, ValueBits, Receive, Extend, Category, Pow2;
    Pow2To16();
    CategoryBound(diff, 11);
    ValueRoundTrip(t, 0, diff, rest);
  }

  lemma MarkerStep(t: Table, s: seq<bit>, acc: seq<int>)
    requires !IsDc(t) && |acc| + 16 < 64
    ensures ReadAc(t, WordBits(CodeWord(t, 0xF0)) + s, acc) == ReadAc(t, s, acc + Zeros(16))
  {
    SymbolRoundTrip(t, 0xF0, s);
    hide ReadCode, WordBits, CodeWord;
  }

  lemma {:induction false} MarkersRoundTrip(t: Table, n: nat, s: seq<bit>, acc: seq<int>)
    requires !IsDc(t) && |acc| + 16 * n < 64
    ensures ReadAc(t, MarkerBits(t, n) + s, acc) == ReadAc(t, s, acc + Zeros(16 * n))
    decreases n
  {
    hide ReadAc, WordBits, CodeWord;
    if n == 0 {
      assert MarkerBits(t, n) + s == s && acc + Zeros(0) == acc;
    } else {
      SeqAssoc(WordBits(CodeWord(t, 0xF0)), MarkerBits(t, n - 1), s);
      MarkerStep(t, MarkerBits(t, n - 1) + s, acc);
      MarkersRoundTrip(t, n - 1, s, acc + Zeros(16));
      assert acc + Zeros(16) + Zeros(16 * (n - 1)) == acc + Zeros(16 * n);
    }
  }

  /** One step of the decoder on a symbol that announces a value. */
  lemma ReadAcValue(t: Table, s: seq<bit>, acc: seq<int>, symbol: nat, s1: seq<bit>, e: nat, s2: seq<bit>)
    requires |acc| + symbol / 16 + 1 <= 64 && symbol % 16 != 0
    requires ReadCode(t, s, 1) == Some((symbol, s1)) && Receive(s1, symbol % 16) == Some((e, s2))
    ensures ReadAc(t, s, acc) == ReadAc(t, s2, acc + Zeros(symbol / 16) + [Extend(e, symbol % 16)])
  {
    hide ReadCode, Receive, Extend, Zeros;
  }

  lemma ValueStep(t: Table, run: nat, v: int, s: seq<bit>, acc: seq<int>)
    requires !IsDc(t) && v != 0 && -1023 <= v <= 1023 && run <= 15 && |acc| + run + 1 <= 64
    ensures ReadAc(t, ValueBits(t, run, v) + s, acc) == ReadAc(t, s, acc + Zeros(run) + [v])
  {
    hide ReadCode, ValueBits, Receive, Extend, Category, Extra, Zeros, Msb, ReadAc, Sendable, IsDc, Pow2;
    AcSendable(t, run, v);
    ValueRoundTrip(t, run, v, s);
    RunSize(run, Category(v));
    ReadAcValue(t, ValueBits(t, run, v) + s, acc, 16 * run + Category(v), Msb(Extra(v), Category(v)) + s, Extra(v), s);
  }

  lemma RunSize(run: nat, size: nat)
    requires size < 16
    ensures (16 * run + size) / 16 == run && (16 * run + size) % 16 == size
  {
  }

  lemma EndStep(t: Table, s: seq<bit>, acc: seq<int>)
    requires !IsDc(t) && |acc| < 64
    ensures ReadAc(t, WordBits(CodeWord(t, 0)) + s, acc) == Some((acc + Zeros(64 - |acc|), s))
  {
    SymbolRoundTrip(t, 0, s);
    hide ReadCode, WordBits, CodeWord;
  }

  lemma RunSplit(du: Block, i: nat, p: nat)
    requires i <= p < 64 && forall k | i <= k < p :: du[k] == 0
    ensures du[..i] + Zeros(16 * ((p - i) / 16)) + Zeros((p - i) % 16) + [du[p]] == du[..p + 1]
  {
    assert 16 * ((p - i) / 16) + (p - i) % 16 == p - i;
  }

  lemma {:induction false} AcRoundTrip(t: Table, du: Block, i: nat, end: nat, rest: seq<bit>)
    requires !IsDc(t) && end < 64 && 1 <= i <= end + 1 && (end > 0 ==> du[end] != 0)
    requires (forall k | 1 <= k < 64 :: -1023 <= du[k] <= 1023) && forall k | end < k < 64 :: du[k] == 0
    ensures ReadAc(t, AcBits(t, du, i, end) + rest, du[..i]) == Some((du, rest))
    decreases end + 1 - i
  {
    hide MarkerBits, ValueBits, WordBits, CodeWord, ReadAc, Zeros;
    if i <= end {
      AcStep(t, du, i, end, rest);
      AcRoundTrip(t, du, NextNonZero(du, i, end) + 1, end, rest);
    } else if end != 63 {
      EndStep(t, rest, du[..i]);
      ZeroTail(du, i);
    } else {
      FullBlock(t, du, rest);
    }
  }

  lemma ZeroTail(du: Block, i: nat)
    requires i <= 64 && forall k | i <= k < 64 :: du[k] == 0
    ensures du[..i] + Zeros(64 - i) == du
  {
  }

  lemma FullBlock(t: Table, du: Block, rest: seq<bit>)
    ensures ReadAc(t, [] + rest, du[..64]) == Some((du, rest))
  {
    assert [] + rest == rest && du[..64] == du;
  }

  lemma AcStep(t: Table, du: Block, i: nat, end: nat, rest: seq<bit>)
    requires !IsDc(t) && end < 64 && 1 <= i <= end && du[end] != 0
    requires forall k | 1 <= k < 64 :: -1023 <= du[k] <= 1023
    ensures var p := NextNonZero(du, i, end);
            ReadAc(t, AcBits(t, du, i, end) + rest, du[..i]) == ReadAc(t, AcBits(t, du, p + 1, end) + rest, du[..p + 1])
  {
    hide MarkerBits, ValueBits, ReadAc, Zeros, AcBits, IsDc;
    var p := NextNonZero(du, i, end);
    var n, r := (p - i) / 16, (p - i) % 16;
    RunSplit(du, i, p);
    AcUnfold(t, du, i, end);
    SeqAssoc4(MarkerBits(t, n), ValueBits(t, r, du[p]), AcBits(t, du, p + 1, end), rest);
    RunRoundTrip(t, n, r, du[p], AcBits(t, du, p + 1, end) + rest, du[..i]);
  }

  lemma RunRoundTrip(t: Table, n: nat, r: nat, v: int, s: seq<bit>, acc: seq<int>)
    requires !IsDc(t) && v != 0 && -1023 <= v <= 1023 && r <= 15 && |acc| + 16 * n + r + 1 <= 64
    ensures ReadAc(t, MarkerBits(t, n) + (ValueBits(t, r, v) + s), acc)
         == ReadAc(t, s, acc + Zeros(16 * n) + Zeros(r) + [v])
  {
    hide MarkerBits, ValueBits, ReadAc, IsDc;
    MarkersRoundTrip(t, n, ValueBits(t, r, v) + s, acc);
    ValueStep(t, r, v, s, acc + Zeros(16 * n));
  }

  lemma AcUnfold(t: Table, du: Block, i: nat, end: nat)
    requires end < 64 && 1 <= i <= end && du[end] != 0
    ensures var p := NextNonZero(du, i, end);
            AcBits(t, du, i, end) == MarkerBits(t, (p - i) / 16) + ValueBits(t, (p - i) % 16, du[p]) + AcBits(t, du, p + 1, end)
  {
    hide MarkerBits, ValueBits, NextNonZero;
  }

  /** Decoding a block gives back all 64 coefficients, for any block in the baseline range, whatever follows. */
  lemma BlockRoundTrip(dcTable: Table, acTable: Table, du: Block, dc: int, rest: seq<bit>)
    requires IsDc(dcTable) && !IsDc(acTable) && Baseline(du, dc)
    ensures ReadBlock(dcTable, acTable, BlockBits(dcTable, acTable, du, dc) + rest, dc) == Some((du, rest))
  {
    hide DcBits, AcBits, ReadDc, ReadAc;
    var end := LastNonZero(du, 63);
    var d, a := DcBits(dcTable, du[0] - dc), AcBits(acTable, du, 1, end);
    SeqAssoc(d, a, rest);
    DcRoundTrip(dcTable, du[0] - dc, a + rest);
    assert [dc + (du[0] - dc)] == du[..1];
    AcRoundTrip(acTable, du, 1, end, rest);
  }

  // ----- The encoder

  method SendWord(w: JpegBits.Writer, t: Table, symbol: nat)
    requires w.Valid() && Sendable(t, symbol)
    modifies w
    ensures w.Valid() && w.Stream() == old(w.Stream()) + WordBits(CodeWord(t, symbol))
  {
    WordsAreAnnounced(t, symbol);
    FirstBelow(t, CodeWord(t, symbol));
    hide CodeWord, First, Index, NrCodes, Values, Msb, Pow2;
    w.WriteBits(CodeWord(t, symbol).code, CodeWord(t, symbol).len);
  }

  /** A run and size code word, then the value bits. */
  method SendValue(w: JpegBits.Writer, t: Table, run: nat, v: int)
    requires w.Valid() && v != 0 && Category(v) <= 11 && Sendable(t, 16 * run + Category(v))
    modifies w
    ensures w.Valid() && w.Stream() == old(w.Stream()) + ValueBits(t, run, v)
  {
    hide CodeWord, Sendable, Category, Extra, Msb, Pow2, WordBits;
    ghost var s := w.Stream();
    var bits, size := CalcBits(v);
    ExtendInverse(v);
    SendWord(w, t, 16 * run + size);
    w.WriteBits(bits, size);
    SeqAssoc(s, WordBits(CodeWord(t, 16 * run + size)), Msb(bits, size));
  }

  /** The DC part of `stbiw__jpg_processDU`. */
  method SendDc(w: JpegBits.Writer, t: Table, diff: int)
    requires w.Valid() && IsDc(t) && -2047 <= diff <= 2047
    modifies w
    ensures w.Valid() && w.Stream() == old(w.Stream()) + DcBits(t, diff)
  {
    hide CodeWord, ValueBits;
    if diff == 0 {
      SendWord(w, t, 0);
    } else {
      Pow2To16();
      CategoryBound(diff, 11);
      SendValue(w, t, 0, diff);
    }
  }

  /** The sixteen-zero markers of a run. */
  method SendMarkers(w: JpegBits.Writer, t: Table, lng: nat)
    requires w.Valid() && !IsDc(t)
    modifies w
    ensures w.Valid() && w.Stream() == old(w.Stream()) + MarkerBits(t, lng)
  {
    hide CodeWord, WordBits, MarkerBits;
    ghost var s := w.Stream();
    MarkersNone(t);
    assert s + [] == s;
    var nrMarker := 1;
    while nrMarker <= lng
      invariant 1 <= nrMarker <= lng + 1 && w.Valid()
      invariant w.Stream() == s + MarkerBits(t, nrMarker - 1)
    {
      MarkersSnoc(t, nrMarker - 1);
      SeqAssoc(s, MarkerBits(t, nrMarker - 1), WordBits(CodeWord(t, 0xF0)));
      SendWord(w, t, 0xF0);
      nrMarker := nrMarker + 1;
    }
  }

  /** One zero run and the value after it. */
  method SendRun(w: JpegBits.Writer, t: Table, nrZeroes: nat, v: int)
    requires w.Valid() && !IsDc(t) && v != 0 && -1023 <= v <= 1023
    modifies w
    ensures w.Valid()
    ensures w.Stream() == old(w.Stream()) + (MarkerBits(t, nrZeroes / 16) + ValueBits(t, nrZeroes % 16, v))
  {
    hide ValueBits, MarkerBits, Category, Sendable, IsDc, JpegBits.Writer.Stream;
    ghost var s := w.Stream();
    var n := nrZeroes;
    if n >= 16 {
      SendMarkers(w, t, n / 16);
      n := n % 16;
    } else {
      MarkersNone(t);
      assert s == s + MarkerBits(t, 0);
    }
    AcSendable(t, n, v);
    SendValue(w, t, n, v);
    SeqAssoc(s, MarkerBits(t, nrZeroes / 16), ValueBits(t, n, v));
  }

  lemma AcSendable(t: Table, run: nat, v: int)
    requires !IsDc(t) && v != 0 && -1023 <= v <= 1023 && run <= 15
    ensures Category(v) <= 10 && Sendable(t, 16 * run + Category(v))
  {
    Pow2To16();
    CategoryBound(v, 10);
    ExtendInverse(v);
    hide Category;
    RunSize(run, Category(v));
  }

  lemma MarkersNone(t: Table)
    ensures MarkerBits(t, 0) == []
  {
  }

  lemma {:induction false} MarkersSnoc(t: Table, n: nat)
    ensures MarkerBits(t, n + 1) == MarkerBits(t, n) + WordBits(CodeWord(t, 0xF0))
  {
    hide CodeWord, WordBits;
    if n > 0 {
      MarkersSnoc(t, n - 1);
      SeqAssoc(WordBits(CodeWord(t, 0xF0)), MarkerBits(t, n - 1), WordBits(CodeWord(t, 0xF0)));
    }
  }

  /** The loops over runs and values, up to the last non-zero coefficient. */
  method SendRuns(w: JpegBits.Writer, t: Table, du: Block, end0pos: nat)
    requires w.Valid() && !IsDc(t) && forall k | 1 <= k < 64 :: -1023 <= du[k] <= 1023
    requires 0 < end0pos < 64 && du[end0pos] != 0
    modifies w
    ensures w.Valid()
    ensures w.Stream() + AcBits(t, du, end0pos + 1, end0pos) == old(w.Stream()) + AcBits(t, du, 1, end0pos)
  {
    hide CodeWord, ValueBits, WordBits, MarkerBits, AcBits, IsDc;
    ghost var total := w.Stream() + AcBits(t, du, 1, end0pos);
    var i := 1;
    while i <= end0pos
      invariant 1 <= i <= end0pos + 1 && w.Valid()
      invariant w.Stream() + AcBits(t, du, i, end0pos) == total
    {
      var startPos := i;
      i := SkipZeros(du, i, end0pos);
      ghost var s := w.Stream();
      AcUnfold(t, du, startPos, end0pos);
      SendRun(w, t, i - startPos, du[i]);
      SeqAssoc(s, MarkerBits(t, (i - startPos) / 16) + ValueBits(t, (i - startPos) % 16, du[i]), AcBits(t, du, i + 1, end0pos));
      i := i + 1;
    }
  }

  method SkipZeros(du: Block, startPos: nat, end0pos: nat) returns (i: nat)
    requires startPos <= end0pos < 64 && du[end0pos] != 0
    ensures i == NextNonZero(du, startPos, end0pos)
  {
    i := startPos;
    while i <= end0pos && du[i] == 0
      invariant startPos <= i <= end0pos
      invariant NextNonZero(du, i, end0pos) == NextNonZero(du, startPos, end0pos)
    {
      i := i + 1;
    }
  }

  /** The AC part of `stbiw__jpg_processDU`. */
  method SendAc(w: JpegBits.Writer, t: Table, du: Block)
    requires w.Valid() && !IsDc(t) && forall k | 1 <= k < 64 :: -1023 <= du[k] <= 1023
    modifies w
    ensures w.Valid() && w.Stream() == old(w.Stream()) + AcBits(t, du, 1, LastNonZero(du, 63))
  {
    hide CodeWord, WordBits, AcBits;
    var end0pos := 63;
    while end0pos > 0 && du[end0pos] == 0
      invariant 0 <= end0pos <= 63 && LastNonZero(du, end0pos) == LastNonZero(du, 63)
    {
      end0pos := end0pos - 1;
    }
    AcEnd(t, du, end0pos);
    if end0pos == 0 {
      SendWord(w, t, 0);
      return;
    }
    SendRuns(w, t, du, end0pos);
    if end0pos != 63 {
      SendWord(w, t, 0);
    } else {
      assert w.Stream() + [] == w.Stream();
    }
  }

  lemma AcEnd(t: Table, du: Block, end: nat)
    requires end < 64 && (end > 0 ==> du[end] != 0)
    ensures AcBits(t, du, end + 1, end) == if end != 63 then WordBits(CodeWord(t, 0)) else []
  {
    hide CodeWord, WordBits;
  }

  /** `stbiw__jpg_processDU` from the quantised coefficients in zigzag order on. */
  method ProcessDU(w: JpegBits.Writer, du: Block, dc: int, dcTable: Table, acTable: Table) returns (r: int)
    requires w.Valid() && IsDc(dcTable) && !IsDc(acTable) && Baseline(du, dc)
    modifies w
    ensures w.Valid() && r == du[0]
    ensures w.Stream() == old(w.Stream()) + BlockBits(dcTable, acTable, du, dc)
  {
    hide DcBits, AcBits;
    ghost var s := w.Stream();
    SendDc(w, dcTable, du[0] - dc);
    SendAc(w, acTable, du);
    SeqAssoc(s, DcBits(dcTable, du[0] - dc), AcBits(acTable, du, 1, LastNonZero(du, 63)));
    r := du[0];
  }
}
