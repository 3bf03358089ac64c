/** Exclusive or of 32-bit words, with the laws the CRC proof needs. */
module Word32 {

  function Xor(x: bv32, y: bv32): bv32 {
    x ^ y
  }

  lemma XorDef(x: bv32, y: bv32)
    ensures Xor(x, y) == x ^ y
  {
  }

  lemma ShiftDistributes(x: bv32, y: bv32)
    ensures (x ^ y) >> 1 == (x >> 1) ^ (y >> 1)
  {
  }

  lemma ShiftXor(x: bv32, y: bv32)
    ensures Xor(x, y) >> 1 == Xor(x >> 1, y >> 1)
  {
    hide Xor;
    XorDef(x, y);
    XorDef(x >> 1, y >> 1);
    ShiftDistributes(x, y);
  }

  lemma OddXor(x: bv32, y: bv32)
    ensures Xor(x, y) & 1 == 1 <==> (x & 1 == 1) != (y & 1 == 1)
  {
  }

  lemma XorAssoc(k: bv32, p: bv32, q: bv32)
    ensures Xor(Xor(k, p), q) == Xor(k, Xor(p, q))
  {
  }

  lemma XorExchange(k: bv32, p: bv32, q: bv32)
    ensures Xor(p, Xor(k, q)) == Xor(k, Xor(p, q))
  {
  }

  lemma XorTwice(k: bv32, z: bv32)
    ensures Xor(k, Xor(k, z)) == z
  {
  }

  lemma XorCancel(k: bv32, p: bv32, q: bv32)
    ensures Xor(Xor(k, p), Xor(k, q)) == Xor(p, q)
  {
    hide Xor;
    XorAssoc(k, p, Xor(k, q));
    XorExchange(k, p, q);
    XorTwice(k, Xor(p, q));
  }

  lemma XorZero(c: bv32)
    ensures Xor(c, 0) == c
  {
  }

  lemma SplitLowBit(c: bv32, b: bv32)
    ensures Xor(c, b) == Xor(Xor(c, b & 1), b & 0xFFFF_FFFE)
    ensures (b & 0xFFFF_FFFE) & 1 == 0 && (b & 0xFFFF_FFFE) >> 1 == b >> 1
  {
  }
}
