/** The checksum of the zlib wrapper (RFC 1950, section 8.2). */
module Adler32 {
  import opened Bits

  const BASE: nat := 65521
  const BLOCK: nat := 5552

  /** The two sums, each reduced after every byte. */
  function Adler(s: seq<byte>): (r: (nat, nat))
    ensures r.0 < BASE && r.1 < BASE
    decreases |s|
  {
    if s == [] then (1, 0)
    else
      var r := Adler(s[..|s| - 1]);
      var a := (r.0 + s[|s| - 1]) % BASE;
      (a, (r.1 + a) % BASE)
  }

  /** The four checksum bytes, most significant first. */
  function AdlerBytes(s: seq<byte>): (b: seq<byte>)
    ensures |b| == 4
  {
    var r := Adler(s);
    [r.1 / 256 % 256, r.1 % 256, r.0 / 256 % 256, r.0 % 256]
  }

  // ----- The checksum in closed form

  /** The sum of the first `k` bytes. */
  function SumTo(s: seq<byte>, k: nat): nat
    requires k <= |s|
  {
    if k == 0 then 0 else SumTo(s, k - 1) + s[k - 1]
  }

  /** The sum of the first `k` bytes, each as often as there are bytes from it to the end. */
  function WeightedTo(s: seq<byte>, k: nat): nat
    requires k <= |s|
  {
    if k == 0 then 0 else WeightedTo(s, k - 1) + (|s| - (k - 1)) * s[k - 1]
  }

  /** The checksum a reader expects, as one number. */
  function Expected(s: seq<byte>): (v: nat) {
    (|s| + WeightedTo(s, |s|)) % 65521 * 65536 + (1 + SumTo(s, |s|)) % 65521
  }

  lemma {:induction false} SumsOfPrefix(p: seq<byte>, x: byte, k: nat)
    requires k <= |p|
    ensures SumTo(p + [x], k) == SumTo(p, k)
    ensures WeightedTo(p + [x], k) == WeightedTo(p, k) + SumTo(p, k)
  {
    if k > 0 {
      SumsOfPrefix(p, x, k - 1);
      var n := |p| - (k - 1);
      assert (n + 1) * p[k - 1] == n * p[k - 1] + p[k - 1];
    }
  }

  lemma TotalsLast(p: seq<byte>, x: byte)
    ensures SumTo(p + [x], |p| + 1) == SumTo(p, |p|) + x
    ensures WeightedTo(p + [x], |p| + 1) == WeightedTo(p, |p|) + SumTo(p, |p|) + x
  {
    SumsOfPrefix(p, x, |p|);
  }

  lemma AdlerLast(p: seq<byte>, x: byte)
    ensures Adler(p + [x]) == ((Adler(p).0 + x) % BASE, (Adler(p).1 + (Adler(p).0 + x) % BASE) % BASE)
  {
    assert (p + [x])[..|p|] == p;
  }

  lemma SumsLast(n: nat, sum: nat, weighted: nat, x: nat)
    ensures var a := ((1 + sum) % BASE + x) % BASE;
            a == (1 + sum + x) % BASE && ((n + weighted) % BASE + a) % BASE == (n + 1 + (weighted + sum + x)) % BASE
  {
    ModAdd(1 + sum, x);
    ModAdd(n + weighted, 1 + sum + x);
  }

  /** What the two sums are: one more than the sum of all bytes, and the length plus the sum of all bytes
      counted from each to the end. */
  lemma {:induction false} AdlerIs(s: seq<byte>)
    ensures Adler(s).0 == (1 + SumTo(s, |s|)) % 65521
    ensures Adler(s).1 == (|s| + WeightedTo(s, |s|)) % 65521
    decreases |s|
  {
    if s != [] {
      hide Adler, SumTo, WeightedTo;
      var p, x := s[..|s| - 1], s[|s| - 1];
      assert s == p + [x];
      AdlerIs(p);
      AdlerLast(p, x);
      TotalsLast(p, x);
      SumsLast(|p|, SumTo(p, |p|), WeightedTo(p, |p|), x);
      hide *;
    }
  }

  /** The four bytes written are the expected number, most significant first. */
  lemma BytesExpected(s: seq<byte>)
    ensures FromBe32(AdlerBytes(s)) == Expected(s)
  {
    AdlerIs(s);
    var r := Adler(s);
    hide Adler, SumTo, WeightedTo;
    TwoBytes(r.0);
    TwoBytes(r.1);
  }

  lemma TwoBytes(v: nat)
    requires v < 65536
    ensures v / 256 % 256 * 256 + v % 256 == v
  {
  }

  lemma ModAdd(x: nat, y: nat)
    ensures (x + y) % BASE == (x % BASE + y) % BASE
    ensures (x + y) % BASE == (x % BASE + y % BASE) % BASE
  {
  }

  /** The largest block whose sums still fit 32 bits. */
  lemma SumsFit(i: nat, s1: nat, s2: nat)
    requires i <= BLOCK
    requires s1 <= 65520 + 255 * i
    requires 2 * s2 <= 131040 + 131040 * i + 255 * (i * (i + 1))
    ensures s1 < 0x1_0000_0000 && s2 < 0x1_0000_0000
  {
    Square(i, BLOCK);
  }

  lemma Square(i: nat, n: nat)
    requires i <= n
    ensures i * (i + 1) <= n * (n + 1)
  {
    assert n * (n + 1) - i * (i + 1) == (n - i) * (n + i + 1);
  }

  lemma AdlerSnoc(data: seq<byte>, k: nat)
    requires k < |data|
    ensures Adler(data[..k + 1]) ==
            ((Adler(data[..k]).0 + data[k]) % BASE,
             (Adler(data[..k]).1 + (Adler(data[..k]).0 + data[k]) % BASE) % BASE)
  {
    assert data[..k + 1][..k] == data[..k];
  }

  /** Raw sums congruent to the reduced ones stay so after one more byte. */
  lemma SumStep(data: seq<byte>, k: nat, s1: nat, s2: nat)
    requires k < |data|
    requires s1 % BASE == Adler(data[..k]).0 && s2 % BASE == Adler(data[..k]).1
    ensures (s1 + data[k]) % BASE == Adler(data[..k + 1]).0
    ensures (s2 + (s1 + data[k])) % BASE == Adler(data[..k + 1]).1
  {
    AdlerSnoc(data, k);
    hide Adler;
    ModAdd(s1, data[k]);
    ModAdd(s2, s1 + data[k]);
  }

  /** The inner loop: adds up one block without reducing, never leaving 32 bits. */
  method SumBlock(data: seq<byte>, j: nat, blocklen: nat, t1: uint32, t2: uint32) returns (s1: uint32, s2: uint32)
    requires blocklen <= BLOCK && j + blocklen <= |data|
    requires (t1, t2) == Adler(data[..j])
    ensures s1 % BASE == Adler(data[..j + blocklen]).0 && s2 % BASE == Adler(data[..j + blocklen]).1
  {
    hide Adler;
    s1, s2 := t1, t2;
    var i := 0;
    while i < blocklen
      invariant 0 <= i <= blocklen
      invariant s1 % BASE == Adler(data[..j + i]).0 && s2 % BASE == Adler(data[..j + i]).1
      invariant s1 <= 65520 + 255 * i
      invariant 2 * s2 <= 131040 + 131040 * i + 255 * (i * (i + 1))
    {
      SumStep(data, j + i, s1, s2);
      BlockStep(i, s1, s2, data[j + i]);
      s1 := s1 + data[j + i];
      s2 := s2 + s1;
      i := i + 1;
    }
  }

  /** The deferred-modulo loop of the encoder: reduces once per block of 5552 bytes. */
  method Checksum(data: seq<byte>) returns (s1: uint32, s2: uint32)
    ensures (s1, s2) == Adler(data)
  {
    s1, s2 := 1, 0;
    var blocklen := |data| % BLOCK;
    var j := 0;
    assert data[..0] == [];
    while j < |data|
      invariant 0 <= j <= |data|
      invariant (blocklen == BLOCK && (|data| - j) % BLOCK == 0) || (j == 0 && blocklen == |data| % BLOCK)
      invariant (s1, s2) == Adler(data[..j])
      decreases |data| - j, if blocklen == 0 then 1 else 0
    {
      s1, s2 := SumBlock(data, j, blocklen, s1, s2);
      s1 := s1 % BASE;
      s2 := s2 % BASE;
      j := j + blocklen;
      blocklen := BLOCK;
    }
    assert data[..j] == data;
  }

  lemma BlockStep(i: nat, s1: nat, s2: nat, x: byte)
    requires i < BLOCK
    requires s1 <= 65520 + 255 * i
    requires 2 * s2 <= 131040 + 131040 * i + 255 * (i * (i + 1))
    ensures s1 + x <= 65520 + 255 * (i + 1) && s1 + x < 0x1_0000_0000
    ensures 2 * (s2 + (s1 + x)) <= 131040 + 131040 * (i + 1) + 255 * ((i + 1) * (i + 1 + 1))
    ensures s2 + (s1 + x) < 0x1_0000_0000
  {
    assert (i + 1) * (i + 1 + 1) == i * (i + 1) + 2 * (i + 1);
    SumsFit(i + 1, s1 + x, s2 + (s1 + x));
  }
}
