/** The bit writer of the DEFLATE encoder. */
module ZlibWriter {
  import opened Bits

  /** The code bits of a fixed-Huffman symbol in sending order (RFC 1951, section 3.2.6). */
  function SymbolBits(n: nat): seq<bit>
    requires n <= 287
  {
    if n <= 143 then Msb(0x30 + n, 8)
    else if n <= 255 then Msb(0x190 + n - 144, 9)
    else if n <= 279 then Msb(n - 256, 7)
    else Msb(0xC0 + n - 280, 8)
  }

  /** `stbiw__zlib_bitrev`: sending the result low bit first sends the code high bit first. */
  method BitRev(code: nat, codebits: nat) returns (res: nat)
    requires code < Pow2(codebits)
    ensures res < Pow2(codebits)
    ensures Lsb(res, codebits) == Msb(code, codebits)
  {
    res := 0;
    var c, n := code, 0;
    while n < codebits
      invariant n <= codebits
      invariant c == Shr(code, n)
      invariant res < Pow2(n)
      invariant Lsb(res, n) == Msb(code, n)
    {
      MsbCons(code, n);
      ShrSnoc(code, n);
      res := 2 * res + c % 2;
      c := c / 2;
      n := n + 1;
    }
  }

  class Writer {
    var out: seq<byte>
    var bitbuf: uint32
    var bitcount: nat

    /** Between operations fewer than eight bits are pending and the rest of the buffer is clear. */
    ghost predicate Valid()
      reads this
    {
      bitcount < 8 && bitbuf < Pow2(bitcount)
    }

    /** Everything written so far: the bits of the finished bytes, then the pending ones. */
    ghost function Stream(): seq<bit>
      reads this
    {
      BytesLsb(out) + Lsb(bitbuf, bitcount)
    }

    constructor ()
      ensures Valid() && out == [] && bitcount == 0 && bitbuf == 0
    {
      out, bitbuf, bitcount := [], 0, 0;
    }

    /** Pushes a whole byte; only legal on a byte boundary. */
    method Push(b: byte)
      requires Valid() && bitcount == 0
      modifies this
      ensures Valid() && bitcount == 0 && out == old(out) + [b]
    {
      out := out + [b];
    }

    /** `stbiw__zlib_flushf`. */
    method Flush()
      requires bitbuf < Pow2(bitcount)
      modifies this
      ensures Valid()
      ensures Stream() == old(Stream())
      ensures bitcount == old(bitcount) % 8
    {
      hide BytesLsb, Lsb, Pow2;
      while bitcount >= 8
        invariant bitbuf < Pow2(bitcount)
        invariant Stream() == old(Stream())
        invariant bitcount % 8 == old(bitcount) % 8
        decreases bitcount
      {
        FlushStep(out, bitbuf, bitcount);
        out := out + [bitbuf % 256];
        bitbuf := bitbuf / 256;
        bitcount := bitcount - 8;
      }
    }

    /** `stbiw__zlib_add`: appends the low `codebits` bits of `code`, low bit first. */
    method Add(code: nat, codebits: nat)
      requires Valid()
      requires codebits <= 24 && code < Pow2(codebits)
      modifies this
      ensures Valid()
      ensures Stream() == old(Stream()) + Lsb(code, codebits)
      ensures bitcount == (old(bitcount) + codebits) % 8
    {
      hide BytesLsb, Lsb, Shl, Or, Pow2;
      AddStep(out, bitbuf, bitcount, code, codebits);
      bitbuf := Or(bitbuf, Shl(code, bitcount) % 0x1_0000_0000);
      bitcount := bitcount + codebits;
      Flush();
    }

    /** `stbiw__zlib_huffa`: appends a Huffman code, high bit first. */
    method HuffA(b: nat, c: nat)
      requires Valid() && c <= 24 && b < Pow2(c)
      modifies this
      ensures Valid() && Stream() == old(Stream()) + Msb(b, c)
    {
      var r := BitRev(b, c);
      Add(r, c);
    }

    /** `stbiw__zlib_huff`. */
    method Huff(n: nat)
      requires Valid() && n <= 287
      modifies this
      ensures Valid() && Stream() == old(Stream()) + SymbolBits(n)
    {
      Pow2Of8();
      hide Msb, Pow2, BytesLsb, Lsb;
      if n <= 143 {
        HuffA(0x30 + n, 8);
      } else if n <= 255 {
        HuffA(0x190 + n - 144, 9);
      } else if n <= 279 {
        HuffA(0 + n - 256, 7);
      } else {
        HuffA(0xC0 + n - 280, 8);
      }
    }

    /** `stbiw__zlib_huffb`. */
    method HuffB(n: byte)
      requires Valid()
      modifies this
      ensures Valid() && Stream() == old(Stream()) + SymbolBits(n)
    {
      Pow2Of8();
      hide Msb, Pow2, BytesLsb, Lsb;
      if n <= 143 {
        HuffA(0x30 + n as int, 8);
      } else {
        HuffA(0x190 + n as int - 144, 9);
      }
    }

    /** Zero bits up to the next byte boundary. */
    method Pad()
      requires Valid()
      modifies this
      ensures Valid() && bitcount == 0
      ensures exists k: nat :: k < 8 && Stream() == old(Stream()) + Lsb(0, k)
    {
      hide BytesLsb, Shr;
      ghost var k: nat := 0;
      ghost var start := bitcount;
      assert Stream() == Stream() + Lsb(0, 0);
      while bitcount != 0
        invariant Valid()
        invariant Stream() == old(Stream()) + Lsb(0, k)
        invariant bitcount == start + k || (bitcount == 0 && start + k == 8)
        invariant start > 0 || k == 0
        decreases 8 - start - k
      {
        Add(0, 1);
        PadStep(old(Stream()), k);
        k := k + 1;
      }
    }
  }

  lemma {:induction false} ShrZero(n: nat)
    ensures Shr(0, n) == 0
  {
    if n > 0 {
      ShrZero(n - 1);
    }
  }

  /** Moving the low eight pending bits into a finished byte changes no bit of the stream. */
  lemma FlushStep(o: seq<byte>, v: nat, c: nat)
    requires c >= 8 && v < Pow2(c)
    ensures v / 256 < Pow2(c - 8)
    ensures BytesLsb(o + [v % 256]) + Lsb(v / 256, c - 8) == BytesLsb(o) + Lsb(v, c)
  {
    hide BytesLsb, Lsb, Shr, Pow2;
    var n: nat := c - 8;
    assert c == 8 + n;
    LsbSplit(v, 8, n);
    LowByte(v);
    ShrBelow(v, 8, n);
    BytesLsbSnoc(o, v % 256);
    SeqAssoc(BytesLsb(o), Lsb(v, 8), Lsb(v / 256, n));
  }

  /** Or-ing in a shifted code appends its bits. */
  lemma AddStep(o: seq<byte>, v: nat, c: nat, code: nat, n: nat)
    requires c < 8 && v < Pow2(c) && n <= 24 && code < Pow2(n)
    ensures var w := Or(v, Shl(code, c) % 0x1_0000_0000);
            && w < Pow2(c + n) && w < 0x1_0000_0000
            && BytesLsb(o) + Lsb(w, c + n) == BytesLsb(o) + Lsb(v, c) + Lsb(code, n)
  {
    hide BytesLsb, Lsb, Shl, Or, Pow2;
    AddFits(v, c, code, n);
    OrDisjoint(v, code, c);
    LsbConcat(v, c, code, n);
    SeqAssoc(BytesLsb(o), Lsb(v, c), Lsb(code, n));
  }

  lemma PadStep(s: seq<bit>, k: nat)
    ensures s + Lsb(0, k) + Lsb(0, 1) == s + Lsb(0, k + 1)
  {
    LsbSplit(0, k, 1);
    ShrZero(k);
    hide Lsb, Shr;
    SeqAssoc(s, Lsb(0, k), Lsb(0, 1));
  }

  lemma AddFits(v: nat, c: nat, code: nat, n: nat)
    requires c < 8 && v < Pow2(c) && n <= 24 && code < Pow2(n)
    ensures v + Shl(code, c) < Pow2(c + n) <= 0x8000_0000
  {
    ShlAddBelow(v, c, code, n);
    Pow2Mono(c + n, 31);
    Pow2Of31();
  }

  lemma Pow2Of31()
    ensures Pow2(31) == 0x8000_0000
  {
    Pow2Of8();
    assert Pow2(13) == 0x2000 && Pow2(17) == 0x2_0000 by { assert Pow2(13) == 16 * Pow2(9); assert Pow2(17) == 16 * Pow2(13); }
    assert Pow2(21) == 16 * Pow2(17);
    assert Pow2(25) == 16 * Pow2(21);
    assert Pow2(29) == 16 * Pow2(25);
  }
}
