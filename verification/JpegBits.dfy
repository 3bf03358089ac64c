/** The bit writer of the JPEG entropy coder, with its byte stuffing. */
module JpegBits {
  import opened Arith
  import opened Bits

  // ----- Byte stuffing (ITU-T T.81, section F.1.2.3)

  /** Every 0xFF is followed by 0x00. */
  predicate WellStuffed(s: seq<byte>) {
    forall i | 0 <= i < |s| && s[i] == 0xFF :: i + 1 < |s| && s[i + 1] == 0
  }

  /** Removes the byte after every 0xFF. */
  function Unstuff(s: seq<byte>): seq<byte>
    decreases |s|
  {
    if s == [] then []
    else if s[0] == 0xFF && |s| > 1 then [s[0]] + Unstuff(s[2..])
    else [s[0]] + Unstuff(s[1..])
  }

  function Stuffed(c: byte): seq<byte> {
    if c == 0xFF then [c, 0] else [c]
  }

  lemma StuffedKeeps(s: seq<byte>, c: byte)
    requires WellStuffed(s)
    ensures WellStuffed(s + Stuffed(c))
  {
  }

  lemma UnstuffOne(c: byte)
    ensures Unstuff(Stuffed(c)) == [c]
  {
    if c == 0xFF {
      assert Unstuff([c, 0]) == [c] + Unstuff([c, 0][2..]);
    } else {
      assert Unstuff([c]) == [c] + Unstuff([c][1..]);
    }
  }

  lemma UnstuffStep(s: seq<byte>, k: nat, t: seq<byte>)
    requires s != [] && k == (if s[0] == 0xFF then 2 else 1) <= |s|
    ensures Unstuff(s + t) == [s[0]] + Unstuff(s[k..] + t)
  {
    assert (s + t)[k..] == s[k..] + t;
  }

  /** Unstuffing takes back each byte that was sent. */
  lemma {:induction false} UnstuffSnoc(s: seq<byte>, c: byte)
    requires WellStuffed(s)
    ensures Unstuff(s + Stuffed(c)) == Unstuff(s) + [c]
    decreases |s|
  {
    if s == [] {
      assert s + Stuffed(c) == Stuffed(c);
      UnstuffOne(c);
    } else {
      assert s[0] == 0xFF ==> |s| > 1;
      hide Unstuff, Stuffed, WellStuffed;
      var k := if s[0] == 0xFF then 2 else 1;
      WellStuffedTail(s, k);
      UnstuffSnoc(s[k..], c);
      UnstuffStep(s, k, Stuffed(c));
      UnstuffStep(s, k, []);
      assert s + [] == s && s[k..] + [] == s[k..];
      SeqAssoc([s[0]], Unstuff(s[k..]), [c]);
    }
  }

  lemma WellStuffedTail(s: seq<byte>, k: nat)
    requires WellStuffed(s) && k <= |s|
    ensures WellStuffed(s[k..])
  {
    forall i | 0 <= i < |s[k..]| && s[k..][i] == 0xFF
      ensures i + 1 < |s[k..]| && s[k..][i + 1] == 0
    {
      assert s[k + i] == 0xFF;
    }
  }

  /** Bytes to bits, most significant first. */
  function BytesMsb(bs: seq<byte>): (s: seq<bit>)
    ensures |s| == 8 * |bs|
    decreases |bs|
  {
    if bs == [] then [] else BytesMsb(bs[..|bs| - 1]) + Msb(bs[|bs| - 1], 8)
  }

  // ----- The buffer

  /** `v` holds `c` bits at the top of 24 and nothing below them. */
  predicate TopAligned(v: nat, c: nat) {
    c <= 24 && v < 0x100_0000 && Msb(v, 24)[c..] == Msb(0, 24 - c)
  }

  /** The bits waiting in the buffer, the oldest first. */
  function Waiting(v: nat, c: nat): (s: seq<bit>)
    requires c <= 24
    ensures |s| == c
  {
    Msb(v, 24)[..c]
  }

  lemma {:induction false} OrComm(a: nat, b: nat)
    ensures Or(a, b) == Or(b, a)
    decreases a + b
  {
    if a > 0 && b > 0 {
      OrComm(a / 2, b / 2);
    }
  }

  lemma {:induction false} OrHigh(g: nat, v: nat, x: nat, n: nat)
    requires v < Pow2(n) && x < Pow2(n)
    ensures Or(v + Shl(g, n), x) == Or(v, x) + Shl(g, n)
    decreases n
  {
    if n == 0 {
      assert v == 0 && x == 0;
    } else if v + Shl(g, n) == 0 || x == 0 {
    } else {
      hide Or;
      var t := Shl(g, n - 1);
      assert (v + 2 * t) / 2 == v / 2 + t && (v + 2 * t) % 2 == v % 2;
      OrHigh(g, v / 2, x / 2, n - 1);
      OrUnfold(v, x);
      OrUnfold(v + 2 * t, x);
    }
  }

  lemma OrUnfold(a: nat, b: nat)
    ensures Or(a, b) == (if a % 2 == 1 || b % 2 == 1 then 1 else 0) + 2 * Or(a / 2, b / 2)
  {
  }

  lemma {:induction false} OrBelow(a: nat, b: nat, n: nat)
    requires a < Pow2(n) && b < Pow2(n)
    ensures Or(a, b) < Pow2(n)
    decreases n
  {
    if n > 0 && a > 0 && b > 0 {
      OrBelow(a / 2, b / 2, n - 1);
    }
  }

  lemma {:induction false} ShlShl(v: nat, m: nat, n: nat)
    ensures Shl(Shl(v, m), n) == Shl(v, m + n)
    decreases n
  {
    if n > 0 {
      ShlShl(v, m, n - 1);
    }
  }

  lemma {:induction false} ShlAdd(a: nat, b: nat, n: nat)
    ensures Shl(a + b, n) == Shl(a, n) + Shl(b, n)
    decreases n
  {
    if n > 0 {
      ShlAdd(a, b, n - 1);
    }
  }

  lemma {:induction false} ShlBelow(v: nat, m: nat, n: nat)
    requires v < Pow2(m)
    ensures Shl(v, n) < Pow2(m + n)
    decreases n
  {
    if n > 0 {
      ShlBelow(v, m, n - 1);
      assert m + n - 1 == m + (n - 1);
    }
  }

  lemma {:induction false} MsbZero(m: nat, n: nat)
    ensures Msb(0, m) + Msb(0, n) == Msb(0, m + n)
    decreases n
  {
    if n == 0 {
      assert Msb(0, m) + [] == Msb(0, m);
    } else {
      MsbZero(m, n - 1);
      assert m + n - 1 == m + (n - 1);
      SeqAssoc(Msb(0, m), Msb(0, n - 1), [0]);
    }
  }

  lemma Pow2Of24()
    ensures Pow2(16) == 0x1_0000 && Pow2(24) == 0x100_0000
  {
    Pow2To16();
    assert Pow2(17) == 2 * Pow2(16);
    assert Pow2(19) == 4 * Pow2(17);
    assert Pow2(21) == 4 * Pow2(19);
    assert Pow2(23) == 4 * Pow2(21);
  }

  lemma MsbInjective(a: nat, b: nat, n: nat)
    requires a < Pow2(n) && b < Pow2(n) && Msb(a, n) == Msb(b, n)
    ensures a == b
  {
    MsbInverse(a, n);
    MsbInverse(b, n);
  }

  /** The buffer as a shifted number. */
  lemma AlignedValue(v: nat, c: nat) returns (p: nat)
    requires TopAligned(v, c)
    ensures p < Pow2(c) && v == Shl(p, 24 - c) && Waiting(v, c) == Msb(p, c)
  {
    Pow2Of24();
    hide Msb, Pow2, Shl, Shr;
    p := Shr(v, 24 - c);
    MsbPrefix(v, 24, c);
    ShrBelow(v, 24 - c, c);
    ShlBelow(p, c, 24 - c);
    ZeroBelow(24 - c);
    MsbConcat(p, c, 0, 24 - c);
    assert Msb(v, 24) == Msb(v, 24)[..c] + Msb(v, 24)[c..];
    MsbInjective(v, Shl(p, 24 - c), 24);
  }

  lemma ZeroBelow(n: nat)
    ensures 0 < Pow2(n)
  {
  }

  /** A number shifted to the top of the buffer waits there, bit for bit. */
  lemma ShiftedAligned(q: nat, m: nat)
    requires m <= 24 && q < Pow2(m)
    ensures TopAligned(Shl(q, 24 - m), m) && Waiting(Shl(q, 24 - m), m) == Msb(q, m)
  {
    Pow2Of24();
    hide Msb, Pow2, Shl;
    var k: nat := 24 - m;
    ZeroBelow(k);
    MsbConcat(q, m, 0, k);
    ShlBelow(q, m, k);
    assert Msb(Shl(q, k), 24)[..m] == Msb(q, m);
    assert Msb(Shl(q, k), 24)[m..] == Msb(0, k);
  }

  lemma OrShifted(p: nat, c: nat, code: nat, n: nat, k: nat)
    requires c + n + k == 24 && p < Pow2(c) && code < Pow2(n)
    ensures Or(Shl(p, 24 - c), Shl(code, k)) == Shl(Shl(p, n) + code, k)
    ensures Shl(p, n) + code < Pow2(c + n)
  {
    hide Pow2, Shl, Or;
    ShlBelow(code, n, k);
    OrComm(Shl(p, 24 - c), Shl(code, k));
    assert n + k == 24 - c;
    OrDisjoint(Shl(code, k), p, n + k);
    ShlShl(p, n, k);
    ShlAdd(Shl(p, n), code, k);
    ShlAddBelow(code, n, p, c);
  }

  /** Or-ing in a code below the waiting bits appends it to them. */
  lemma AddStep(v: nat, c: nat, code: nat, n: nat)
    requires TopAligned(v, c) && c + n <= 24 && code < Pow2(n)
    ensures var w := Or(v, Shl(code, 24 - c - n));
            TopAligned(w, c + n) && Waiting(w, c + n) == Waiting(v, c) + Msb(code, n)
  {
    var p := AlignedValue(v, c);
    hide Msb, Pow2, Shl, Or, TopAligned, Waiting;
    OrShifted(p, c, code, n, 24 - c - n);
    MsbConcat(p, c, code, n);
    ShiftedAligned(Shl(p, n) + code, c + n);
  }

  lemma ShlOf8And16(a: nat)
    ensures Shl(a, 8) == 256 * a && Shl(a, 16) == 0x1_0000 * a
  {
    ShlOf8(a);
    ShlOf8(256 * a);
    ShlShl(a, 8, 8);
  }

  /** Sending the top eight bits and shifting the rest up loses nothing. */
  lemma OutStep(v: nat, c: nat)
    requires TopAligned(v, c) && c >= 8
    ensures var w := v % 0x1_0000 * 256;
            && v / 0x1_0000 < 256 && TopAligned(w, c - 8)
            && Waiting(v, c) == Msb(v / 0x1_0000, 8) + Waiting(w, c - 8)
  {
    Pow2Of24();
    Pow2Of8();
    hide Msb, Pow2, Shl;
    var a, b := v / 0x1_0000, v % 0x1_0000;
    ShlOf8And16(a);
    ShlOf8And16(b);
    MsbConcat(a, 8, b, 16);
    MsbConcat(b, 16, 0, 8);
    var z: nat := 24 - c;
    MsbZero(z, 8);
    assert Msb(v, 24) == Msb(a, 8) + Msb(b, 16);
    assert Msb(b * 256, 24) == Msb(b, 16) + Msb(0, 8);
    assert Msb(v, 24)[c..] == Msb(b, 16)[c - 8..];
    assert Msb(b * 256, 24)[c - 8..] == Msb(b, 16)[c - 8..] + Msb(0, 8);
    assert Msb(v, 24)[..c] == Msb(a, 8) + Msb(b, 16)[..c - 8];
    assert Msb(b * 256, 24)[..c - 8] == Msb(b, 16)[..c - 8];
  }

  class Writer {
    /** The bytes of the entropy-coded segment so far. */
    var out: seq<byte>
    var bitBuf: uint32
    var bitCnt: nat

    constructor ()
      ensures Valid() && out == [] && bitCnt == 0 && Stream() == []
    {
      out, bitBuf, bitCnt := [], 0, 0;
    }

    /** Between calls fewer than eight bits wait, and every 0xFF sent is followed by 0x00; what has been
        shifted out above bit 24 does not matter. */
    ghost predicate Valid()
      reads this
    {
      bitCnt < 8 && TopAligned(bitBuf % 0x100_0000, bitCnt) && WellStuffed(out)
    }

    /** All bits written: those of the bytes sent, without stuffing, then the waiting ones. */
    ghost function Stream(): seq<bit>
      reads this
      requires bitCnt <= 24
    {
      BytesMsb(Unstuff(out)) + Waiting(bitBuf % 0x100_0000, bitCnt)
    }

    /** `stbiw__putc`. */
    method PutC(c: byte)
      modifies this
      ensures out == old(out) + [c] && bitBuf == old(bitBuf) && bitCnt == old(bitCnt)
    {
      out := out + [c];
    }

    /** Sends one byte, stuffed. */
    method SendByte()
      requires 8 <= bitCnt <= 24 && TopAligned(bitBuf % 0x100_0000, bitCnt) && WellStuffed(out)
      modifies this
      ensures bitCnt == old(bitCnt) - 8 && TopAligned(bitBuf % 0x100_0000, bitCnt) && WellStuffed(out)
      ensures Stream() == old(Stream())
    {
      hide TopAligned, WellStuffed, Unstuff, BytesMsb, Waiting;
      ghost var v, o := bitBuf % 0x100_0000, out;
      var c := bitBuf / 0x1_0000 % 256;
      HighBits(bitBuf);
      OutStep(v, bitCnt);
      StuffedKeeps(o, c);
      UnstuffSnoc(o, c);
      BytesMsbSnoc(Unstuff(o), c);
      PutC(c);
      if c == 255 {
        PutC(0);
      }
      StuffedIs(o, c);
      bitBuf := bitBuf * 256 % 0x1_0000_0000;
      bitCnt := bitCnt - 8;
      SeqAssoc(BytesMsb(Unstuff(o)), Msb(c, 8), Waiting(bitBuf % 0x100_0000, bitCnt));
    }

    /** `stbiw__jpg_writeBits`. */
    method WriteBits(code: nat, n: nat)
      requires Valid() && n <= 16 && code < Pow2(n)
      modifies this
      ensures Valid() && Stream() == old(Stream()) + Msb(code, n)
      ensures bitCnt == (old(bitCnt) + n) % 8
    {
      hide TopAligned, WellStuffed, Unstuff, BytesMsb, Waiting, Shl, Or, Msb, Pow2;
      ghost var v, c0 := bitBuf % 0x100_0000, bitCnt;
      bitCnt := bitCnt + n;
      var shifted := Shl(code, 24 - bitCnt);
      AddStep(v, c0, code, n);
      OrWord(bitBuf, shifted, code, n, 24 - bitCnt);
      bitBuf := Or(bitBuf, shifted);
      SeqAssoc(BytesMsb(Unstuff(out)), Waiting(v, c0), Msb(code, n));
      while bitCnt >= 8
        invariant bitCnt <= 24 && TopAligned(bitBuf % 0x100_0000, bitCnt) && WellStuffed(out)
        invariant Stream() == old(Stream()) + Msb(code, n)
        invariant bitCnt % 8 == (c0 + n) % 8
        decreases bitCnt
      {
        SendByte();
      }
    }
  }

  lemma StuffedIs(o: seq<byte>, c: byte)
    ensures o + Stuffed(c) == if c == 255 then o + [c] + [0] else o + [c]
  {
  }

  lemma HighBits(b: uint32)
    ensures b / 0x1_0000 % 256 == b % 0x100_0000 / 0x1_0000
    ensures b * 256 % 0x1_0000_0000 % 0x100_0000 == b % 0x100_0000 % 0x1_0000 * 256
  {
    var g, v := b / 0x100_0000, b % 0x100_0000;
    var a, r := v / 0x1_0000, v % 0x1_0000;
    assert b == 0x100_0000 * g + v && v == 0x1_0000 * a + r;
    QuotientUnique(b, 0x1_0000, 256 * g + a, r);
    QuotientUnique(256 * g + a, 256, g, a);
    QuotientUnique(b * 256, 0x1_0000_0000, g, v * 256);
    QuotientUnique(v * 256, 0x100_0000, a, r * 256);
  }

  lemma BytesMsbSnoc(bs: seq<byte>, c: byte)
    ensures BytesMsb(bs + [c]) == BytesMsb(bs) + Msb(c, 8)
  {
    assert (bs + [c])[..|bs|] == bs;
  }

  lemma ShlOf24(a: nat)
    ensures Shl(a, 24) == 0x100_0000 * a
  {
    ShlOf8And16(a);
    ShlOf8(0x1_0000 * a);
    ShlShl(a, 16, 8);
  }

  /** Or-ing below bit 24 leaves the byte above it alone. */
  lemma OrWord(b: uint32, x: nat, code: nat, n: nat, k: nat)
    requires code < Pow2(n) && n + k <= 24 && x == Shl(code, k)
    ensures Or(b, x) < 0x1_0000_0000
    ensures Or(b, x) % 0x100_0000 == Or(b % 0x100_0000, x)
  {
    hide Or, Shl, Pow2;
    var g, v := b / 0x100_0000, b % 0x100_0000;
    Pow2Of24();
    ShlBelow(code, n, k);
    Pow2Mono(n + k, 24);
    OrBelow(v, x, 24);
    OrHigh(g, v, x, 24);
    ShlOf24(g);
    QuotientUnique(Or(b, x), 0x100_0000, g, Or(v, x));
  }
}
