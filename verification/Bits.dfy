/** Bytes, bits and the two bit orders used by the encoders. */
module Bits {

  type byte = x: int | 0 <= x < 256
  type bit = x: int | 0 <= x < 2
  /** A C `unsigned int` of the target. */
  type uint32 = x: int | 0 <= x < 0x1_0000_0000

  datatype Option<+T> = None | Some(value: T)

  function Pow2(n: nat): (p: nat)
    ensures p >= 1
  {
    if n == 0 then 1 else 2 * Pow2(n - 1)
  }

  /** `v << n` on an unbounded number. */
  function Shl(v: nat, n: nat): nat
  {
    if n == 0 then v else 2 * Shl(v, n - 1)
  }

  /** `v >> n`. */
  function Shr(v: nat, n: nat): nat
    decreases n
  {
    if n == 0 then v else Shr(v / 2, n - 1)
  }

  lemma {:induction false} Pow2Mono(a: nat, b: nat)
    requires a <= b
    ensures Pow2(a) <= Pow2(b)
  {
    if a < b {
      Pow2Mono(a, b - 1);
    }
  }

  /** The `n` low bits of `v`, least significant first. */
  function Lsb(v: nat, n: nat): (s: seq<bit>)
    ensures |s| == n
  {
    if n == 0 then [] else [v % 2] + Lsb(v / 2, n - 1)
  }

  /** The `n` low bits of `v`, most significant first. */
  function Msb(v: nat, n: nat): (s: seq<bit>)
    ensures |s| == n
  {
    if n == 0 then [] else Msb(v / 2, n - 1) + [v % 2]
  }

  /** The number whose bits, least significant first, are `s`. */
  function LsbValue(s: seq<bit>): nat
  {
    if s == [] then 0 else s[0] + 2 * LsbValue(s[1..])
  }

  /** The number whose bits, most significant first, are `s`. */
  function MsbValue(s: seq<bit>): nat
  {
    if s == [] then 0 else 2 * MsbValue(s[..|s| - 1]) + s[|s| - 1]
  }

  lemma {:induction false} LsbInverse(v: nat, n: nat)
    requires v < Pow2(n)
    ensures LsbValue(Lsb(v, n)) == v
  {
    if n > 0 {
      LsbInverse(v / 2, n - 1);
      assert Lsb(v, n)[1..] == Lsb(v / 2, n - 1);
    }
  }

  lemma {:induction false} MsbInverse(v: nat, n: nat)
    requires v < Pow2(n)
    ensures MsbValue(Msb(v, n)) == v
  {
    if n > 0 {
      MsbInverse(v / 2, n - 1);
      assert Msb(v, n)[..n - 1] == Msb(v / 2, n - 1);
    }
  }

  lemma {:induction false} LsbOfValue(s: seq<bit>)
    ensures LsbValue(s) < Pow2(|s|)
    ensures Lsb(LsbValue(s), |s|) == s
  {
    if s != [] {
      LsbOfValue(s[1..]);
      assert s == [s[0]] + s[1..];
    }
  }

  lemma {:induction false} MsbOfValue(s: seq<bit>)
    ensures MsbValue(s) < Pow2(|s|)
    ensures Msb(MsbValue(s), |s|) == s
  {
    if s != [] {
      MsbOfValue(s[..|s| - 1]);
      assert s == s[..|s| - 1] + [s[|s| - 1]];
    }
  }

  /** The leading bits of a code are the code shifted right. */
  lemma {:induction false} MsbPrefix(v: nat, n: nat, k: nat)
    requires k <= n
    ensures Msb(v, n)[..k] == Msb(Shr(v, n - k), k)
    decreases n
  {
    if k < n {
      MsbPrefix(v / 2, n - 1, k);
      assert Msb(v, n)[..k] == Msb(v / 2, n - 1)[..k];
    } else {
      assert Msb(v, n)[..k] == Msb(v, n);
    }
  }

  lemma {:induction false} MsbCons(v: nat, n: nat)
    ensures Msb(v, n + 1) == [Shr(v, n) % 2] + Msb(v, n)
    decreases n
  {
    if n > 0 {
      MsbCons(v / 2, n - 1);
    } else {
      assert Msb(v, 1) == Msb(v / 2, 0) + [v % 2];
    }
  }

  lemma {:induction false} LsbSplit(v: nat, m: nat, n: nat)
    ensures Lsb(v, m + n) == Lsb(v, m) + Lsb(Shr(v, m), n)
    decreases m
  {
    if m > 0 {
      LsbSplit(v / 2, m - 1, n);
      assert (m + n) - 1 == (m - 1) + n;
    }
  }

  lemma {:induction false} ShrBelow(v: nat, m: nat, n: nat)
    requires v < Pow2(m + n)
    ensures Shr(v, m) < Pow2(n)
    decreases m
  {
    if m > 0 {
      assert Pow2(m + n) == 2 * Pow2((m - 1) + n);
      ShrBelow(v / 2, m - 1, n);
    }
  }

  lemma {:induction false} ShrSnoc(v: nat, n: nat)
    ensures Shr(v, n + 1) == Shr(v, n) / 2
    decreases n
  {
    if n > 0 {
      ShrSnoc(v / 2, n - 1);
    }
  }

  /** A number below a power of two plus a shifted one: still below the larger power. */
  lemma {:induction false} ShlAddBelow(a: nat, m: nat, b: nat, n: nat)
    requires a < Pow2(m) && b < Pow2(n)
    ensures a + Shl(b, m) < Pow2(m + n)
    decreases m
  {
    if m > 0 {
      ShlAddBelow(a / 2, m - 1, b, n);
      assert Pow2(m + n) == 2 * Pow2((m - 1) + n);
    }
  }

  /** Concatenating bit strings is adding shifted numbers (least significant first). */
  lemma {:induction false} LsbConcat(a: nat, m: nat, b: nat, n: nat)
    requires a < Pow2(m)
    ensures Lsb(a + Shl(b, m), m + n) == Lsb(a, m) + Lsb(b, n)
    decreases m
  {
    if m > 0 {
      var t := Shl(b, m - 1);
      assert (a + 2 * t) % 2 == a % 2 && (a + 2 * t) / 2 == a / 2 + t;
      LsbConcat(a / 2, m - 1, b, n);
      assert (m + n) - 1 == (m - 1) + n;
    }
  }

  /** Concatenating bit strings is adding shifted numbers (most significant first). */
  lemma {:induction false} MsbConcat(a: nat, m: nat, b: nat, n: nat)
    requires b < Pow2(n)
    ensures Msb(Shl(a, n) + b, m + n) == Msb(a, m) + Msb(b, n)
    decreases n
  {
    if n > 0 {
      var t := Shl(a, n - 1);
      assert (2 * t + b) % 2 == b % 2 && (2 * t + b) / 2 == t + b / 2;
      MsbConcat(a, m, b / 2, n - 1);
      assert (m + n) - 1 == m + (n - 1);
    }
  }

  /** The first bits of a number sent high bit first are the number shifted down. */
  lemma MsbPrefixValue(v: nat, n: nat, k: nat, t: seq<bit>)
    requires k <= n && v < Pow2(n)
    ensures MsbValue((Msb(v, n) + t)[..k]) == Shr(v, n - k)
  {
    hide Msb, Shr, Pow2, MsbValue;
    assert (Msb(v, n) + t)[..k] == Msb(v, n)[..k];
    MsbPrefix(v, n, k);
    ShrBelow(v, n - k, k);
    MsbInverse(Shr(v, n - k), k);
  }

  /** The low byte and the rest. */
  lemma LowByte(v: nat)
    ensures Lsb(v % 256, 8) == Lsb(v, 8)
    ensures Shr(v, 8) == v / 256
  {
    Pow2Of8();
    ShrOf4(v);
    ShrOf4(v / 16);
    ShrSplit(v, 4, 4);
    ShlOf8(v / 256);
    LsbConcat(v % 256, 8, v / 256, 0);
    LsbSplit(v, 8, 0);
  }

  lemma ShrOf4(v: nat)
    ensures Shr(v, 4) == v / 16
  {
    assert Shr(v, 4) == Shr(v / 2, 3) == Shr(v / 2 / 2, 2);
    assert Shr(v / 2 / 2, 2) == Shr(v / 2 / 2 / 2, 1) == v / 2 / 2 / 2 / 2;
  }

  lemma ShlOf8(v: nat)
    ensures Shl(v, 8) == 256 * v
  {
    assert Shl(v, 1) == 2 * v;
    assert Shl(v, 2) == 2 * Shl(v, 1);
    assert Shl(v, 4) == 4 * Shl(v, 2);
    assert Shl(v, 6) == 4 * Shl(v, 4);
    assert Shl(v, 8) == 4 * Shl(v, 6);
  }

  lemma {:induction false} ShrSplit(v: nat, m: nat, n: nat)
    ensures Shr(v, m + n) == Shr(Shr(v, m), n)
    decreases m
  {
    if m > 0 {
      ShrSplit(v / 2, m - 1, n);
    }
  }

  /** Bitwise or of two non-negative numbers. */
  function Or(a: nat, b: nat): nat
    decreases a + b
  {
    if a == 0 then b
    else if b == 0 then a
    else (if a % 2 == 1 || b % 2 == 1 then 1 else 0) + 2 * Or(a / 2, b / 2)
  }

  /** Where the set bits of the operands do not meet, or is addition. */
  lemma {:induction false} OrDisjoint(a: nat, b: nat, n: nat)
    requires a < Pow2(n)
    ensures Or(a, Shl(b, n)) == a + Shl(b, n)
    decreases n
  {
    if n > 0 && a > 0 && Shl(b, n) > 0 {
      var t := Shl(b, n - 1);
      OrDisjoint(a / 2, b, n - 1);
      assert (2 * t) % 2 == 0 && (2 * t) / 2 == t;
    }
  }

  /** Bytes to bits, each byte least significant bit first (RFC 1951, section 3.1.1). */
  function BytesLsb(bs: seq<byte>): (s: seq<bit>)
    ensures |s| == 8 * |bs|
  {
    if bs == [] then [] else Lsb(bs[0], 8) + BytesLsb(bs[1..])
  }

  lemma {:induction false} BytesLsbConcat(a: seq<byte>, b: seq<byte>)
    ensures BytesLsb(a + b) == BytesLsb(a) + BytesLsb(b)
  {
    hide Lsb;
    if a == [] {
      assert a + b == b;
    } else {
      BytesLsbConcat(a[1..], b);
      assert (a + b)[1..] == a[1..] + b;
      SeqAssoc(Lsb(a[0], 8), BytesLsb(a[1..]), BytesLsb(b));
    }
  }

  lemma BytesLsbSnoc(a: seq<byte>, b: byte)
    ensures BytesLsb(a + [b]) == BytesLsb(a) + Lsb(b, 8)
  {
    hide Lsb, BytesLsb;
    BytesLsbConcat(a, [b]);
    BytesLsbOne(b);
  }

  lemma {:induction false} BytesLsbInjective(a: seq<byte>, b: seq<byte>)
    requires BytesLsb(a) == BytesLsb(b)
    ensures a == b
  {
    if a != [] {
      Pow2Of8();
      LsbInverse(a[0], 8);
      LsbInverse(b[0], 8);
      assert BytesLsb(a)[..8] == Lsb(a[0], 8) && BytesLsb(b)[..8] == Lsb(b[0], 8);
      assert BytesLsb(a)[8..] == BytesLsb(a[1..]) && BytesLsb(b)[8..] == BytesLsb(b[1..]);
      BytesLsbInjective(a[1..], b[1..]);
      assert a == [a[0]] + a[1..] && b == [b[0]] + b[1..];
    }
  }

  /** Bits to bytes, low bit first, the last byte padded with zero bits. */
  function Pack(s: seq<bit>): (bs: seq<byte>)
    ensures |bs| == (|s| + 7) / 8
    decreases |s|
  {
    if s == [] then []
    else if |s| < 8 then
      LsbOfByte(s);
      [LsbValue(s)]
    else
      LsbOfByte(s[..8]);
      [LsbValue(s[..8])] + Pack(s[8..])
  }

  lemma LsbOfByte(s: seq<bit>)
    requires |s| <= 8
    ensures LsbValue(s) < 256
  {
    LsbOfValue(s);
    Pow2Mono(|s|, 8);
    Pow2Of8();
  }

  lemma {:induction false} ShrToZero(v: nat, n: nat)
    requires v < Pow2(n)
    ensures Shr(v, n) == 0
    decreases n
  {
    if n > 0 {
      ShrToZero(v / 2, n - 1);
    }
  }

  /** Zero bits on top do not change a number. */
  lemma LsbPadded(s: seq<bit>, k: nat)
    ensures Lsb(LsbValue(s), |s| + k) == s + Lsb(0, k)
  {
    hide Lsb, LsbValue, Shr, Pow2;
    LsbOfValue(s);
    LsbSplit(LsbValue(s), |s|, k);
    ShrToZero(LsbValue(s), |s|);
  }

  function Zeros(n: nat): (s: seq<byte>)
    ensures |s| == n
  {
    seq(n, _ => 0)
  }

  lemma SeqAssoc<T>(a: seq<T>, b: seq<T>, c: seq<T>)
    ensures a + b + c == a + (b + c)
  {
  }

  lemma SeqAssoc4<T>(a: seq<T>, b: seq<T>, c: seq<T>, d: seq<T>)
    ensures a + b + c + d == a + (b + (c + d))
  {
  }

  lemma PackShort(s: seq<bit>, k: nat)
    requires 0 < |s| < 8 && |s| + k == 8
    ensures BytesLsb(Pack(s)) == s + Lsb(0, k)
  {
    hide Lsb, LsbValue, BytesLsb, Pack, Pow2;
    PackOfShort(s);
    BytesLsbOne(LsbValue(s));
    LsbPadded(s, k);
  }

  lemma BytesLsbOne(b: byte)
    ensures BytesLsb([b]) == Lsb(b, 8)
  {
    hide Lsb;
    assert BytesLsb([b]) == Lsb(b, 8) + BytesLsb([b][1..]);
  }

  lemma PackOfShort(s: seq<bit>)
    requires 0 < |s| < 8
    ensures LsbValue(s) < 256 && Pack(s) == [LsbValue(s)]
  {
    hide LsbValue;
    LsbOfByte(s);
  }

  /** How many zero bits complete the last byte. */
  function PadLen(n: nat): (k: nat)
    ensures k < 8 && (n + k) % 8 == 0
  {
    (8 - n % 8) % 8
  }

  lemma PadLenValues(n: nat)
    ensures PadLen(n + 8) == PadLen(n)
    ensures n < 8 ==> PadLen(n) == if n == 0 then 0 else 8 - n
  {
  }

  /** Packing keeps every bit and adds fewer than eight zeros. */
  lemma {:induction false} PackBits(s: seq<bit>)
    ensures BytesLsb(Pack(s)) == s + Lsb(0, PadLen(|s|))
    decreases |s|
  {
    hide Lsb, LsbValue, BytesLsb, Pack, PadLen;
    if s == [] {
      PadLenValues(0);
      PackNil();
    } else if |s| < 8 {
      PadLenValues(|s|);
      PackShort(s, 8 - |s|);
    } else {
      var head, tail, z := s[..8], s[8..], Lsb(0, PadLen(|s|));
      PadLenValues(|tail|);
      PackBits(tail);
      PackHead(s);
      LsbOfValue(head);
      SeqAssoc(head, tail, z);
      assert s == head + tail;
    }
  }

  lemma PackNil()
    ensures BytesLsb(Pack([])) == [] == Lsb(0, 0)
  {
  }

  lemma PackHead(s: seq<bit>)
    requires |s| >= 8
    ensures BytesLsb(Pack(s)) == Lsb(LsbValue(s[..8]), 8) + BytesLsb(Pack(s[8..]))
  {
    hide Lsb, LsbValue;
    assert Pack(s)[1..] == Pack(s[8..]);
  }

  /** Bytes whose bits are `s` and some padding are the packing of `s`. */
  lemma PackUnique(bs: seq<byte>, s: seq<bit>, k: nat)
    requires k < 8 && BytesLsb(bs) == s + Lsb(0, k)
    ensures bs == Pack(s)
  {
    PackBits(s);
    hide BytesLsb, Pack;
    assert |BytesLsb(bs)| == 8 * |bs| == |s| + k;
    assert k == PadLen(|s|);
    BytesLsbInjective(bs, Pack(s));
  }

  lemma Pow2Of8()
    ensures Pow2(7) == 128 && Pow2(8) == 256 && Pow2(9) == 512
  {
    assert Pow2(4) == 16;
    assert Pow2(7) == 8 * Pow2(4);
  }

  lemma Pow2To16()
    ensures Pow2(0) == 1 && Pow2(1) == 2 && Pow2(2) == 4 && Pow2(3) == 8 && Pow2(4) == 16 && Pow2(5) == 32
    ensures Pow2(6) == 64 && Pow2(7) == 128 && Pow2(8) == 256 && Pow2(9) == 512 && Pow2(10) == 1024 && Pow2(11) == 2048
    ensures Pow2(12) == 4096 && Pow2(13) == 8192 && Pow2(14) == 16384 && Pow2(15) == 32768 && Pow2(16) == 65536
  {
    Pow2Of8();
    assert Pow2(10) == 2 * Pow2(9);
    assert Pow2(12) == 4 * Pow2(10);
    assert Pow2(14) == 4 * Pow2(12);
    assert Pow2(16) == 4 * Pow2(14);
  }

  /** Four bytes, most significant first. */
  function Be32(v: nat): (s: seq<byte>)
    ensures |s| == 4
  {
    [v / 0x100_0000 % 256, v / 0x1_0000 % 256, v / 0x100 % 256, v % 256]
  }

  function FromBe32(s: seq<byte>): (v: nat)
    requires |s| == 4
  {
    ((s[0] as int * 256 + s[1] as int) * 256 + s[2] as int) * 256 + s[3] as int
  }

  lemma DivSteps(v: nat)
    ensures v / 0x1_0000 == v / 0x100 / 0x100
    ensures v / 0x100_0000 == v / 0x1_0000 / 0x100
  {
  }

  lemma Mod32(d: nat, y: nat)
    requires y < 0x1_0000_0000
    ensures (d * 0x1_0000_0000 + y) % 0x1_0000_0000 == y
  {
  }

  /** Big-endian words keep a number exactly when it fits 32 bits. */
  lemma Be32Inverse(v: nat)
    ensures FromBe32(Be32(v)) == v % 0x1_0000_0000
  {
    DivSteps(v);
    var a, b, c := v / 0x100, v / 0x1_0000, v / 0x100_0000;
    var r0, r1, r2, r3 := v % 0x100, a % 0x100, b % 0x100, c % 0x100;
    assert v == 0x100 * a + r0 && a == 0x100 * b + r1 && b == 0x100 * c + r2 && c == 0x100 * (c / 0x100) + r3;
    Mod32(c / 0x100, ((r3 * 256 + r2) * 256 + r1) * 256 + r0);
  }
}
