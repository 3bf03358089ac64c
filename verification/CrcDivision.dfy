/** CRC-32 as a remainder: long division of bit strings over two elements (RFC 2083, section 3.4). */
module CrcDivision {
  import opened Bits
  import opened Word32
  import opened Crc32

  // ----- Long division

  /** x^32 + x^26 + x^23 + x^22 + x^16 + x^12 + x^11 + x^10 + x^8 + x^7 + x^5 + x^4 + x^2 + x + 1, highest power first. */
  const GENERATOR: seq<bit> :=
    [1, 0, 0, 0, 0, 0, 1, 0, 0, 1, 1, 0, 0, 0, 0, 0, 1, 0, 0, 0, 1, 1, 1, 0, 1, 1, 0, 1, 1, 0, 1, 1, 1]

  /** The sum of two polynomials: bit by bit, without carries. */
  function Plus(a: seq<bit>, b: seq<bit>): (r: seq<bit>)
    requires |a| == |b|
    ensures |r| == |a| && forall i | 0 <= i < |a| :: r[i] == if a[i] == b[i] then 0 else 1
  {
    seq(|a|, i requires 0 <= i < |a| => if a[i] == b[i] then 0 else 1)
  }

  function Constant(b: bit, n: nat): (r: seq<bit>)
    ensures |r| == n && forall i | 0 <= i < n :: r[i] == b
  {
    seq(n, _ => b)
  }

  /** Takes the generator away below each leading one until 32 bits are left. */
  function Remainder(d: seq<bit>): (r: seq<bit>)
    requires |d| >= 32
    ensures |r| == 32
    decreases |d|
  {
    if |d| == 32 then d
    else if d[0] == 0 then Remainder(d[1..])
    else Remainder(Plus(d[..33], GENERATOR)[1..] + d[33..])
  }

  /** The message, each byte low bit first, shifted up by 32, its first 32 bits complemented. */
  function Dividend(s: seq<byte>): (d: seq<bit>)
    ensures |d| >= 32
  {
    var m := BytesLsb(s) + Constant(0, 32);
    Plus(m[..32], Constant(1, 32)) + m[32..]
  }

  /** The check bits a reader expects: the complemented remainder, highest power first. */
  function Check(s: seq<byte>): (r: seq<bit>)
    ensures |r| == 32
  {
    Plus(Remainder(Dividend(s)), Constant(1, 32))
  }

  // ----- The register as bits

  function Low(c: bv32): bit {
    if c & 1 == 1 then 1 else 0
  }

  function Half(c: bv32): bv32 {
    c >> 1
  }

  function HalfN(c: bv32, n: nat): bv32
    decreases n
  {
    if n == 0 then c else HalfN(Half(c), n - 1)
  }

  /** The word without its low byte. */
  function DropByte(c: bv32): bv32 {
    c >> 8
  }

  /** The `n` low bits of the register, lowest first; the lowest is the highest power. */
  function Reg(c: bv32, n: nat): (r: seq<bit>)
    ensures |r| == n
    decreases n
  {
    if n == 0 then [] else [Low(c)] + Reg(Half(c), n - 1)
  }

  lemma {:induction false} RegXor(x: bv32, y: bv32, n: nat)
    ensures Reg(Xor(x, y), n) == Plus(Reg(x, n), Reg(y, n))
    decreases n
  {
    hide Xor, Low, Half;
    if n > 0 {
      LowXor(x, y);
      HalfXor(x, y);
      RegXor(Half(x), Half(y), n - 1);
    }
  }

  lemma LowXor(x: bv32, y: bv32)
    ensures Low(Xor(x, y)) == if Low(x) == Low(y) then 0 else 1
  {
    hide Xor;
    OddXor(x, y);
  }

  lemma HalfXor(x: bv32, y: bv32)
    ensures Half(Xor(x, y)) == Xor(Half(x), Half(y))
  {
    hide Xor;
    ShiftXor(x, y);
  }

  lemma {:induction false} RegSplit(c: bv32, m: nat, n: nat)
    ensures Reg(c, m + n) == Reg(c, m) + Reg(HalfN(c, m), n)
    decreases m
  {
    hide Low, Half;
    if m > 0 {
      RegSplit(Half(c), m - 1, n);
      assert (m + n) - 1 == (m - 1) + n;
      SeqAssoc([Low(c)], Reg(Half(c), m - 1), Reg(HalfN(c, m), n));
    }
  }

  lemma EightHalves(c: bv32)
    ensures Half(Half(Half(Half(Half(Half(Half(Half(c)))))))) == DropByte(c)
  {
  }

  lemma HalfOf8(c: bv32)
    ensures HalfN(c, 8) == DropByte(c)
  {
    EightHalves(c);
    hide Half, DropByte;
    assert HalfN(c, 8) == HalfN(Half(Half(Half(Half(c)))), 4);
  }

  /** The bits of the four bytes of a word. */
  lemma RegBytes(c: bv32)
    ensures var c1 := DropByte(c);
            var c2 := DropByte(c1);
            Reg(c, 32) == Reg(c, 8) + (Reg(c1, 8) + (Reg(c2, 8) + Reg(DropByte(c2), 8)))
  {
    hide Reg, HalfN, DropByte;
    RegSplit(c, 8, 24);
    HalfOf8(c);
    RegSplit(DropByte(c), 8, 16);
    HalfOf8(DropByte(c));
    RegSplit(DropByte(DropByte(c)), 8, 8);
    HalfOf8(DropByte(DropByte(c)));
  }

  lemma RegOfByte(c: bv32)
    ensures var c1 := Half(c);
            var c2 := Half(c1);
            var c3 := Half(c2);
            var c4 := Half(c3);
            var c5 := Half(c4);
            var c6 := Half(c5);
            var c7 := Half(c6);
            Reg(c, 8) == [Low(c), Low(c1), Low(c2), Low(c3), Low(c4), Low(c5), Low(c6), Low(c7)]
  {
    hide Low, Half;
    RegFour(c);
    RegFour(Half(Half(Half(Half(c)))));
    assert Reg(c, 8) == [Low(c), Low(Half(c)), Low(Half(Half(c))), Low(Half(Half(Half(c))))] + Reg(Half(Half(Half(Half(c)))), 4);
  }

  lemma RegFour(c: bv32)
    ensures Reg(c, 4) == [Low(c), Low(Half(c)), Low(Half(Half(c))), Low(Half(Half(Half(c))))]
    ensures Reg(c, 8) == Reg(c, 4) + Reg(Half(Half(Half(Half(c)))), 4)
  {
    hide Low, Half;
    RegSplit(c, 4, 4);
  }

  lemma ByteHalf(b: bv8)
    ensures b as int == 2 * ((b >> 1) as int) + (if b & 1 == 1 then 1 else 0)
  {
    assert b as int == 2 * ((b >> 1) as int) + ((b & 1) as int);
  }

  lemma ByteWord(b: bv8)
    ensures Half(b as bv32) == (b >> 1) as bv32
    ensures Low(b as bv32) == if b & 1 == 1 then 1 else 0
  {
  }

  lemma HalfAndLow(b: bv8)
    ensures Low(b as bv32) == b as nat % 2 && (b >> 1) as nat == b as nat / 2 && Half(b as bv32) == (b >> 1) as bv32
  {
    ByteHalf(b);
    ByteWord(b);
    hide Low, Half;
  }

  /** A byte has the same bits as a number and in the register. */
  lemma {:induction false} ByteBits(b: bv8, n: nat)
    ensures Reg(b as bv32, n) == Lsb(b as nat, n)
    decreases n
  {
    hide Low, Half;
    if n > 0 {
      HalfAndLow(b);
      ByteBits(b >> 1, n - 1);
    }
  }

  /** The low byte of a word. */
  function LowByteOf(c: bv32): bv8 {
    (c & 0xff) as bv8
  }

  function And(x: bv32, y: bv32): bv32 {
    x & y
  }

  lemma WordOfLow(c: bv32)
    ensures LowByteOf(c) as bv32 == And(c, 0xff)
  {
  }

  lemma AndHalf(c: bv32, m: bv32)
    ensures Half(And(c, m)) == And(Half(c), Half(m)) && (Low(m) == 1 ==> Low(And(c, m)) == Low(c))
  {
  }

  /** The `n` low bits of the mask are set. */
  predicate Ones(m: bv32, n: nat)
    decreases n
  {
    n == 0 || (Low(m) == 1 && Ones(Half(m), n - 1))
  }

  lemma {:induction false} MaskKeeps(c: bv32, m: bv32, n: nat)
    requires Ones(m, n)
    ensures Reg(And(c, m), n) == Reg(c, n)
    decreases n
  {
    hide And, Low, Half;
    if n > 0 {
      AndHalf(c, m);
      MaskKeeps(Half(c), Half(m), n - 1);
    }
  }

  lemma EightOnes()
    ensures Ones(0xff, 8)
  {
    assert Ones(0xf, 4);
    assert Half(Half(Half(Half(0xff)))) == 0xf;
  }

  /** Only the low byte matters to the eight low bits. */
  lemma LowByteBits(c: bv32)
    ensures Reg(c, 8) == Lsb(LowByteOf(c) as nat, 8)
  {
    hide Reg, Low, Half, LowByteOf, Lsb, And, Ones;
    ByteBits(LowByteOf(c), 8);
    WordOfLow(c);
    EightOnes();
    MaskKeeps(c, 0xff, 8);
  }

  // ----- Dividing bit by bit

  function Feed(c: bv32, bits: seq<bit>): bv32
    decreases |bits|
  {
    if bits == [] then c else Feed(Step(Xor(c, if bits[0] == 1 then 1 else 0)), bits[1..])
  }

  lemma {:induction false} FeedConcat(c: bv32, a: seq<bit>, b: seq<bit>)
    ensures Feed(c, a + b) == Feed(Feed(c, a), b)
    decreases |a|
  {
    hide Step, Xor;
    if a == [] {
      assert a + b == b;
    } else {
      FeedConcat(Step(Xor(c, if a[0] == 1 then 1 else 0)), a[1..], b);
      assert (a + b)[1..] == a[1..] + b;
    }
  }

  lemma LowOnly(b: bv32)
    ensures b & 1 == (if Low(b) == 1 then 1 else 0) && b >> 1 == Half(b)
  {
  }

  lemma {:induction false} FeedBitsIs(c: bv32, b: bv32, n: nat)
    ensures FeedBits(c, b, n) == Feed(c, Reg(b, n))
    decreases n
  {
    hide Step, Xor, Low, Half;
    if n > 0 {
      LowOnly(b);
      FeedBitsIs(Step(Xor(c, b & 1)), Half(b), n - 1);
      assert Reg(b, n)[1..] == Reg(Half(b), n - 1);
    }
  }

  lemma FeedByteIs(c: bv32, x: byte)
    ensures FeedBits(c, x as bv8 as bv32, 8) == Feed(c, Lsb(x, 8))
  {
    hide FeedBits, Feed, Reg, Lsb;
    ByteBits(x as bv8, 8);
    FeedBitsIs(c, x as bv8 as bv32, 8);
  }

  lemma {:induction false} FeedBytesIs(c: bv32, s: seq<byte>)
    ensures FeedBytes(c, s) == Feed(c, BytesLsb(s))
    decreases |s|
  {
    hide FeedBits, Feed, Reg, Lsb;
    if s == [] {
      FeedNothing(c);
    } else {
      FeedByteIs(c, s[0]);
      FeedBytesIs(FeedBits(c, s[0] as bv8 as bv32, 8), s[1..]);
      FeedConcat(c, Lsb(s[0], 8), BytesLsb(s[1..]));
    }
  }

  lemma FeedNothing(c: bv32)
    ensures Feed(c, []) == c
  {
  }

  // ----- The register holds the remainder

  /** What is still to be divided: the bits to come, shifted up, with the register added to the first 32. */
  function Loaded(bits: seq<bit>, c: bv32): (d: seq<bit>)
    ensures |d| == |bits| + 32
  {
    var m := bits + Constant(0, 32);
    Plus(m[..32], Reg(c, 32)) + m[32..]
  }

  lemma GeneratorIs()
    ensures Reg(0xEDB88320, 32) == GENERATOR[1..]
  {
    RegBytes(0xEDB88320);
    hide Reg;
    RegOfByte(0xEDB88320);
    RegOfByte(0xEDB883);
    RegOfByte(0xEDB8);
    RegOfByte(0xED);
  }

  lemma HalfTop(c: bv32)
    ensures Reg(Half(c), 32) == Reg(Half(c), 31) + [0]
  {
    RegSplit(Half(c), 31, 1);
    HalvedAway(c);
    hide HalfN, Half;
    assert Reg(0, 1) == [0];
  }

  lemma HalvedAway(c: bv32)
    ensures HalfN(Half(c), 31) == 0
  {
    hide Half, HalfN, DropByte;
    HalfOf8(c);
    HalfOf8(DropByte(c));
    HalfOf8(DropByte(DropByte(c)));
    HalfOf8(DropByte(DropByte(DropByte(c))));
    HalfSum(c, 8, 24);
    HalfSum(DropByte(c), 8, 16);
    HalfSum(DropByte(DropByte(c)), 8, 8);
    HalfFirst(c, 31);
    FourBytes(c);
  }

  lemma FourBytes(c: bv32)
    ensures DropByte(DropByte(DropByte(DropByte(c)))) == 0
  {
  }

  lemma HalfFirst(c: bv32, n: nat)
    ensures HalfN(c, n + 1) == HalfN(Half(c), n)
  {
  }

  lemma {:induction false} HalfSum(c: bv32, m: nat, n: nat)
    ensures HalfN(c, m + n) == HalfN(HalfN(c, m), n)
    decreases m
  {
    hide Half;
    if m > 0 {
      HalfSum(Half(c), m - 1, n);
      assert (m + n) - 1 == (m - 1) + n;
    }
  }

  /** The dividend after one step, written with the bits still to come and the register shifted. */
  lemma StepOnBits(b: bit, t: seq<bit>, low: bit, r: seq<bit>)
    requires |t| >= 32 && |r| == 31
    ensures var d := Plus(([b] + t)[..32], [low] + r) + ([b] + t)[32..];
            && (d[0] == 0 <==> low == b)
            && d[1..] == Plus(t[..32], r + [0]) + t[32..]
            && Plus(d[..33], GENERATOR)[1..] + d[33..] == Plus(t[..32], Plus(GENERATOR[1..], r + [0])) + t[32..]
  {
    var d := Plus(([b] + t)[..32], [low] + r) + ([b] + t)[32..];
    AfterFirst(b, t, low, r);
    assert |d| == |t| + 1 && |GENERATOR| == 33;
    assert d[33..] == d[1..][32..] == t[32..];
    assert d[..33][1..] == d[1..][..32] == Plus(t[..32], r + [0]);
    PlusSwap(t[..32], GENERATOR[1..], r + [0]);
    PlusTail(d[..33], GENERATOR);
    hide Plus;
  }

  lemma AfterFirst(b: bit, t: seq<bit>, low: bit, r: seq<bit>)
    requires |t| >= 32 && |r| == 31
    ensures var d := Plus(([b] + t)[..32], [low] + r) + ([b] + t)[32..];
            && (d[0] == 0 <==> low == b)
            && d[1..] == Plus(t[..32], r + [0]) + t[32..]
  {
    var d := Plus(([b] + t)[..32], [low] + r) + ([b] + t)[32..];
    var e := Plus(t[..32], r + [0]) + t[32..];
    forall i | 0 <= i < |e|
      ensures d[1..][i] == e[i]
    {
      assert d[1..][i] == d[i + 1];
      if i < 31 {
        assert ([b] + t)[..32][i + 1] == t[i] && ([low] + r)[i + 1] == r[i] == (r + [0])[i];
      } else {
        assert d[i + 1] == ([b] + t)[32..][i - 31] == t[i];
      }
    }
  }

  lemma PlusTail(a: seq<bit>, b: seq<bit>)
    requires |a| == |b| > 0
    ensures Plus(a, b)[1..] == Plus(a[1..], b[1..])
  {
  }

  lemma PlusSwap(a: seq<bit>, b: seq<bit>, c: seq<bit>)
    requires |a| == |b| == |c|
    ensures Plus(Plus(a, c), b) == Plus(a, Plus(b, c))
  {
  }

  /** One step of the register is one step of the division. */
  lemma LoadedStep(bits: seq<bit>, c: bv32)
    requires bits != []
    ensures Remainder(Loaded(bits, c)) == Remainder(Loaded(bits[1..], Step(Xor(c, if bits[0] == 1 then 1 else 0))))
  {
    hide Step, Xor, Reg, Low, Half, Plus, Constant, Remainder;
    var t := bits[1..] + Constant(0, 32);
    NextBits(bits[0], c);
    HalfTop(c);
    RegXor(0xEDB88320, Half(c), 32);
    GeneratorIs();
    RegHead(c);
    assert bits + Constant(0, 32) == [bits[0]] + t;
    StepOnBits(bits[0], t, Low(c), Reg(Half(c), 31));
    RemainderStep(Loaded(bits, c));
  }

  lemma RemainderStep(d: seq<bit>)
    requires |d| > 32
    ensures Remainder(d) == Remainder(if d[0] == 0 then d[1..] else Plus(d[..33], GENERATOR)[1..] + d[33..])
  {
  }

  lemma RegHead(c: bv32)
    ensures Reg(c, 32) == [Low(c)] + Reg(Half(c), 31)
  {
    hide Low, Half;
  }

  lemma StepIs(c: bv32)
    ensures Step(c) == if Low(c) == 1 then Xor(0xEDB88320, Half(c)) else Half(c)
  {
    hide Xor;
  }

  lemma NextBits(b: bit, c: bv32)
    ensures Step(Xor(c, if b == 1 then 1 else 0)) == if Low(c) == b then Half(c) else Xor(0xEDB88320, Half(c))
  {
    XorZero(c);
    FlipLow(c);
    hide Xor, Step, Low, Half;
    StepIs(c);
    StepIs(Xor(c, 1));
  }

  lemma FlipLow(c: bv32)
    ensures Half(Xor(c, 1)) == Half(c) && Low(Xor(c, 1)) != Low(c)
  {
  }

  lemma {:induction false} RegisterIsRemainder(bits: seq<bit>, c: bv32)
    ensures Remainder(Loaded(bits, c)) == Reg(Feed(c, bits), 32)
    decreases |bits|
  {
    hide Step, Xor, Reg;
    if bits == [] {
      assert Loaded(bits, c) == Reg(c, 32);
    } else {
      LoadedStep(bits, c);
      RegisterIsRemainder(bits[1..], Step(Xor(c, if bits[0] == 1 then 1 else 0)));
    }
  }

  lemma AllOnes()
    ensures Reg(0xFFFF_FFFF, 32) == Constant(1, 32)
  {
    RegBytes(0xFFFF_FFFF);
    hide Reg;
    RegOfByte(0xFFFF_FFFF);
    RegOfByte(0xFF_FFFF);
    RegOfByte(0xFFFF);
    RegOfByte(0xFF);
  }

  /** For every byte string the CRC is the complemented remainder of the long division, in reflected order. */
  lemma CrcIsRemainder(s: seq<byte>)
    ensures Reg(Crc(s), 32) == Check(s)
  {
    var c := FeedBytes(0xFFFF_FFFF, s);
    AllOnes();
    RegXor(0xFFFF_FFFF, c, 32);
    FeedBytesIs(0xFFFF_FFFF, s);
    RegisterIsRemainder(BytesLsb(s), 0xFFFF_FFFF);
    hide Reg, Remainder, Xor, FeedBytes, Feed;
    assert Loaded(BytesLsb(s), 0xFFFF_FFFF) == Dividend(s);
  }

  /** The four bytes of a word, most significant first. */
  function WordBytes(c: bv32): (b: seq<byte>)
    ensures |b| == 4
  {
    [LowByteOf(DropByte(DropByte(DropByte(c)))) as nat, LowByteOf(DropByte(DropByte(c))) as nat,
     LowByteOf(DropByte(c)) as nat, LowByteOf(c) as nat]
  }

  /** Whether four bytes are the check bits of `s`: read from the last byte's low bit on, they are the
      complemented remainder from its highest power down. */
  predicate Checks(s: seq<byte>, tail: seq<byte>)
    requires |tail| == 4
  {
    BytesLsb([tail[3], tail[2], tail[1], tail[0]]) == Check(s)
  }

  lemma FourBytesLsb(a: byte, b: byte, c: byte, d: byte)
    ensures BytesLsb([a, b, c, d]) == Lsb(a, 8) + (Lsb(b, 8) + (Lsb(c, 8) + Lsb(d, 8)))
  {
    hide Lsb, BytesLsb;
    assert [a, b, c, d] == [a] + [b, c, d] && [b, c, d] == [b] + [c, d] && [c, d] == [c] + [d];
    BytesLsbConcat([a], [b, c, d]);
    BytesLsbConcat([b], [c, d]);
    BytesLsbConcat([c], [d]);
    BytesLsbOne(a);
    BytesLsbOne(b);
    BytesLsbOne(c);
    BytesLsbOne(d);
  }

  /** The bytes of the CRC are the check bits, for every byte string. */
  lemma CrcChecks(s: seq<byte>)
    ensures Checks(s, WordBytes(Crc(s)))
  {
    hide Reg, Lsb, LowByteOf, DropByte, Crc, Check, BytesLsb;
    var c := Crc(s);
    CrcIsRemainder(s);
    RegBytes(c);
    LowByteBits(c);
    LowByteBits(DropByte(c));
    LowByteBits(DropByte(DropByte(c)));
    LowByteBits(DropByte(DropByte(DropByte(c))));
    var w := WordBytes(c);
    FourBytesLsb(w[3], w[2], w[1], w[0]);
  }

  lemma DigitSteps()
    ensures FeedBits(0xFFFF_FFFF, 0x31, 8) == 0x7C23_1048
    ensures FeedBits(0x7C23_1048, 0x32, 8) == 0xB0AC_BB32
    ensures FeedBits(0xB0AC_BB32, 0x33, 8) == 0x77B7_9C2D
    ensures FeedBits(0x77B7_9C2D, 0x34, 8) == 0x641C_1F5C
    ensures FeedBits(0x641C_1F5C, 0x35, 8) == 0x340A_C5E3
    ensures FeedBits(0x340A_C5E3, 0x36, 8) == 0xF68D_2C9E
    ensures FeedBits(0xF68D_2C9E, 0x37, 8) == 0xAFFC_9660
    ensures FeedBits(0xAFFC_9660, 0x38, 8) == 0x651F_2550
    ensures FeedBits(0x651F_2550, 0x39, 8) == 0x340B_C6D9
  {
    hide FeedBits;
    FeedByteIsSteps(0xFFFF_FFFF, 0x31);
    FeedByteIsSteps(0x7C23_1048, 0x32);
    FeedByteIsSteps(0xB0AC_BB32, 0x33);
    FeedByteIsSteps(0x77B7_9C2D, 0x34);
    FeedByteIsSteps(0x641C_1F5C, 0x35);
    FeedByteIsSteps(0x340A_C5E3, 0x36);
    FeedByteIsSteps(0xF68D_2C9E, 0x37);
    FeedByteIsSteps(0xAFFC_9660, 0x38);
    FeedByteIsSteps(0x651F_2550, 0x39);
  }

  /** One byte, taken as the word `w`, moves the register from `c` to `next`. */
  lemma FeedOne(c: bv32, s: seq<byte>, w: bv32, next: bv32)
    requires s != [] && s[0] as bv8 as bv32 == w && FeedBits(c, w, 8) == next
    ensures FeedBytes(c, s) == FeedBytes(next, s[1..])
  {
    hide FeedBits;
  }

  lemma DigitWords()
    ensures (0x31 as byte) as bv8 as bv32 == 0x31
    ensures (0x32 as byte) as bv8 as bv32 == 0x32
    ensures (0x33 as byte) as bv8 as bv32 == 0x33
    ensures (0x34 as byte) as bv8 as bv32 == 0x34
    ensures (0x35 as byte) as bv8 as bv32 == 0x35
    ensures (0x36 as byte) as bv8 as bv32 == 0x36
    ensures (0x37 as byte) as bv8 as bv32 == 0x37
    ensures (0x38 as byte) as bv8 as bv32 == 0x38
    ensures (0x39 as byte) as bv8 as bv32 == 0x39
  {
  }

  const DIGITS: seq<byte> := [0x31, 0x32, 0x33, 0x34, 0x35, 0x36, 0x37, 0x38, 0x39]

  lemma FeedDigits()
    ensures FeedBytes(0xFFFF_FFFF, DIGITS) == 0x340B_C6D9
  {
    hide FeedBits, FeedBytes;
    DigitSteps();
    DigitWords();
    FeedOne(0xFFFF_FFFF, DIGITS[0..], 0x31, 0x7C23_1048);
    FeedOne(0x7C23_1048, DIGITS[1..], 0x32, 0xB0AC_BB32);
    FeedOne(0xB0AC_BB32, DIGITS[2..], 0x33, 0x77B7_9C2D);
    FeedOne(0x77B7_9C2D, DIGITS[3..], 0x34, 0x641C_1F5C);
    FeedOne(0x641C_1F5C, DIGITS[4..], 0x35, 0x340A_C5E3);
    FeedOne(0x340A_C5E3, DIGITS[5..], 0x36, 0xF68D_2C9E);
    FeedOne(0xF68D_2C9E, DIGITS[6..], 0x37, 0xAFFC_9660);
    FeedOne(0xAFFC_9660, DIGITS[7..], 0x38, 0x651F_2550);
    FeedOne(0x651F_2550, DIGITS[8..], 0x39, 0x340B_C6D9);
    FeedEmpty(0x340B_C6D9);
    assert DIGITS[0..] == DIGITS && DIGITS[9..] == [];
    assert DIGITS[0..][1..] == DIGITS[1..] && DIGITS[1..][1..] == DIGITS[2..] && DIGITS[2..][1..] == DIGITS[3..] && DIGITS[3..][1..] == DIGITS[4..] && DIGITS[4..][1..] == DIGITS[5..] && DIGITS[5..][1..] == DIGITS[6..] && DIGITS[6..][1..] == DIGITS[7..] && DIGITS[7..][1..] == DIGITS[8..] && DIGITS[8..][1..] == DIGITS[9..];
  }

  /** The bytes of "123456789" have the published check value. */
  lemma CheckValue()
    ensures Crc(DIGITS) == 0xCBF4_3926
  {
    FeedDigits();
    hide FeedBytes;
  }

  lemma FeedEmpty(c: bv32)
    ensures FeedBytes(c, []) == c
  {
  }

  const END_TAG: seq<byte> := [0x49, 0x45, 0x4E, 0x44]

  lemma EndSteps()
    ensures FeedBits(0xFFFFFFFF, 0x49, 8) == 0x22FDE946
    ensures FeedBits(0x22FDE946, 0x45, 8) == 0x992BAC53
    ensures FeedBits(0x992BAC53, 0x4E, 8) == 0x639F4775
    ensures FeedBits(0x639F4775, 0x44, 8) == 0x51BD9F7D
  {
    hide FeedBits;
    FeedByteIsSteps(0xFFFFFFFF, 0x49);
    FeedByteIsSteps(0x22FDE946, 0x45);
    FeedByteIsSteps(0x992BAC53, 0x4E);
    FeedByteIsSteps(0x639F4775, 0x44);
  }

  lemma EndWords()
    ensures (0x49 as byte) as bv8 as bv32 == 0x49
    ensures (0x45 as byte) as bv8 as bv32 == 0x45
    ensures (0x4E as byte) as bv8 as bv32 == 0x4E
    ensures (0x44 as byte) as bv8 as bv32 == 0x44
  {
  }

  /** The checksum of an empty end chunk. */
  lemma EndValue()
    ensures Crc([0x49, 0x45, 0x4E, 0x44]) == 0xAE426082
  {
    FeedEnd();
    hide FeedBytes;
  }

  lemma FeedEnd()
    ensures FeedBytes(0xFFFF_FFFF, END_TAG) == 0x51BD9F7D
  {
    hide FeedBits, FeedBytes;
    EndSteps();
    EndWords();
    FeedOne(0xFFFFFFFF, END_TAG[0..], 0x49, 0x22FDE946);
    FeedOne(0x22FDE946, END_TAG[1..], 0x45, 0x992BAC53);
    FeedOne(0x992BAC53, END_TAG[2..], 0x4E, 0x639F4775);
    FeedOne(0x639F4775, END_TAG[3..], 0x44, 0x51BD9F7D);
    FeedEmpty(0x51BD9F7D);
    assert END_TAG[0..] == END_TAG && END_TAG[4..] == [];
    assert END_TAG[0..][1..] == END_TAG[1..] && END_TAG[1..][1..] == END_TAG[2..] && END_TAG[2..][1..] == END_TAG[3..] && END_TAG[3..][1..] == END_TAG[4..];
  }

  lemma EndBytes()
    ensures WordBytes(0xAE42_6082) == [0xAE, 0x42, 0x60, 0x82]
  {
  }
}
