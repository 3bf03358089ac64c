/** `stbi_zlib_compress`, and a zlib reader (RFC 1950, section 2.2) that undoes it. */
module Zlib {
  import opened Bits
  import opened ZlibWriter
  import opened Deflate
  import opened Lz77
  import opened Adler32

  function Quality(quality: int): (q: nat)
    ensures q >= 5 && (quality >= 5 ==> q == quality) && (quality < 5 ==> q == 5)
  {
    if quality < 5 then 5 else quality
  }

  // ----- What the encoder produces

  ghost function AllTokens(data: seq<byte>, quality: int): (ts: seq<Token>)
    ensures AllValid(ts)
  {
    TokensValid(data, Quality(quality), 0, []);
    Tokens(data, Quality(quality), 0, [])
  }

  /** One final block of fixed codes: three header bits, the tokens, the end-of-block symbol. */
  ghost function DeflateBits(data: seq<byte>, quality: int): seq<bit> {
    Lsb(1, 1) + Lsb(1, 2) + TokensBits(AllTokens(data, quality)) + SymbolBits(256)
  }

  ghost function Encode(data: seq<byte>, quality: int): seq<byte> {
    [0x78, 0x5e] + Pack(DeflateBits(data, quality)) + AdlerBytes(data)
  }

  // ----- A reader

  /** Reads a zlib stream that is one final fixed-Huffman block. */
  function Decode(z: seq<byte>): Option<seq<byte>> {
    if |z| < 6 then None
    else if z[0] % 16 != 8 || z[0] / 16 > 7 then None                     // compression method and window
    else if (z[0] as int * 256 + z[1] as int) % 31 != 0 || z[1] / 32 % 2 == 1 then None // check bits, no dictionary
    else
      var s := BytesLsb(z[2..]);
      if s[..1] != [1] || s[1..3] != [1, 0] then None                      // final block, fixed codes
      else
        match Inflate(s[3..], [])
        case None => None
        case Some((out, rest)) =>
          var n := |rest| / 8;                                             // whole bytes after the block
          if n > |z| then None
          else
            var tail := z[|z| - n..];
            if n == 4 && FromBe32(tail) == Expected(out) then Some(out) else None
  }

  lemma HeaderBits()
    ensures Lsb(1, 1) == [1] && Lsb(1, 2) == [1, 0]
  {
    assert Lsb(1, 2) == [1] + Lsb(0, 1);
    assert Lsb(1, 1) == [1] + Lsb(0, 0);
  }

  lemma DeflateRoundTrip(data: seq<byte>, quality: int, t: seq<bit>)
    ensures var s := DeflateBits(data, quality) + t;
            |s| >= 3 && s[..1] == [1] && s[1..3] == [1, 0] && Inflate(s[3..], []) == Some((data, t))
  {
    hide TokensBits, SymbolBits, Inflate, Tokens, Lsb, Expand;
    var ts := AllTokens(data, quality);
    HeaderBits();
    TokensExpand(data, Quality(quality), 0, []);
    assert data[..0] == [];
    InflateExpands(ts, [], t);
    var s := DeflateBits(data, quality) + t;
    var body := TokensBits(ts) + SymbolBits(256) + t;
    assert s == [1, 1, 0] + body;
    assert s[3..] == body;
  }

  /** Inflating what the encoder wrote gives back the input, for every input and quality. */
  lemma RoundTrip(data: seq<byte>, quality: int)
    ensures Decode(Encode(data, quality)) == Some(data)
  {
    hide BytesLsb, Pack, Inflate, AdlerBytes, DeflateBits, Lsb, FromBe32, Expected;
    BytesExpected(data);
    var z := Encode(data, quality);
    var bits := DeflateBits(data, quality);
    var pad := Lsb(0, PadLen(|bits|));
    var sum := AdlerBytes(data);
    assert z[2..] == Pack(bits) + sum;
    PackBits(bits);
    BytesLsbConcat(Pack(bits), sum);
    SeqAssoc(bits, pad, BytesLsb(sum));
    DeflateRoundTrip(data, quality, pad + BytesLsb(sum));
    assert |pad + BytesLsb(sum)| / 8 == 4;
    assert z[|z| - 4..] == sum;
  }

  // ----- The encoder

  /** The table: bucket `h` holds what the visited positions put there. */
  ghost predicate TableHolds(table: seq<seq<nat>>, data: seq<byte>, visited: seq<nat>, q: nat) {
    && |table| == ZHASH && Hashable(data, visited)
    && forall h | 0 <= h < ZHASH :: table[h] == Bucket(data, visited, h, q)
  }

  /** So at every moment every bucket of the table is short, increasing, not beyond the cursor, and holds only
      positions with its hash. */
  lemma BucketsSound(table: seq<seq<nat>>, data: seq<byte>, i: nat, visited: seq<nat>, q: nat)
    requires TableHolds(table, data, visited, q) && State(data, i, visited) && q > 0
    ensures forall h | 0 <= h < ZHASH ::
              |table[h]| <= 2 * q && Lz77.Increasing(table[h]) && Below(table[h], i) && HoldsHash(data, table[h], h)
  {
    hide Bucket, HoldsHash, Lz77.Increasing, Below;
    forall h | 0 <= h < ZHASH
      ensures |table[h]| <= 2 * q && Lz77.Increasing(table[h]) && Below(table[h], i) && HoldsHash(data, table[h], h)
    {
      BucketInvariant(data, visited, i, h, q);
    }
  }

  /** The first search: the last of the longest matches in the window. */
  method FindBest(data: seq<byte>, i: nat, hlist: seq<nat>) returns (best: nat, bestloc: Option<nat>)
    requires i <= |data| && UpTo(hlist, i)
    ensures (best, bestloc) == Best(data, i, hlist)
  {
    best, bestloc := 3, None;
    var j, n := 0, |hlist|;
    assert hlist[..0] == [];
    while j < n
      invariant 0 <= j <= n
      invariant (best, bestloc) == Best(data, i, hlist[..j])
    {
      assert hlist[..j + 1][..j] == hlist[..j];
      if hlist[j] > i - 32768 {
        var d := CountM(data, hlist[j], i, |data| - i);
        if d >= best {
          best, bestloc := d, Some(hlist[j]);
        }
      }
      j := j + 1;
    }
    assert hlist[..n] == hlist;
  }

  /** The lazy search: stops at the first candidate that does better at the next byte. */
  method BetterNext(data: seq<byte>, i: nat, hlist: seq<nat>, best: nat) returns (bail: bool)
    requires i + 1 <= |data| && UpTo(hlist, i + 1)
    ensures bail == Better(data, i + 1, hlist, best)
  {
    bail := false;
    var j, n := 0, |hlist|;
    while j < n
      invariant 0 <= j <= n && !bail
      invariant forall k | 0 <= k < j :: Score(data, hlist[k], i + 1) <= best
    {
      if hlist[j] > i - 32767 {
        var e := CountM(data, hlist[j], i + 1, |data| - i - 1);
        if e > best {
          bail := true;
          assert Score(data, hlist[j], i + 1) > best;
          break;
        }
      }
      j := j + 1;
    }
  }

  /** Enters a position, first dropping the older half of a full bucket. */
  method Enter(table: array<seq<nat>>, h: nat, p: nat, q: nat)
    requires h < table.Length
    modifies table
    ensures table[h] == (if |old(table[h])| == 2 * q then old(table[h])[q..] else old(table[h])) + [p]
    ensures forall k | 0 <= k < table.Length && k != h :: table[k] == old(table[k])
  {
    if |table[h]| == 2 * q {
      table[h] := table[h][q..];
    }
    table[h] := table[h] + [p];
  }

  lemma EnterKeeps(before: seq<seq<nat>>, after: seq<seq<nat>>, data: seq<byte>, visited: seq<nat>, p: nat, q: nat)
    requires TableHolds(before, data, visited, q) && p + 2 < |data| && |after| == ZHASH
    requires var h := Hash(data, p);
             && after[h] == (if |before[h]| == 2 * q then before[h][q..] else before[h]) + [p]
             && forall k | 0 <= k < ZHASH && k != h :: after[k] == before[k]
    ensures TableHolds(after, data, visited + [p], q)
  {
    hide Hash;
    var v := visited + [p];
    assert v[..|visited|] == visited;
    forall h | 0 <= h < ZHASH
      ensures after[h] == Bucket(data, v, h, q)
    {
      assert before[h] == Bucket(data, visited, h, q);
    }
  }

  /** Writes the length code, found by linear search, and its extra bits. */
  method EmitLength(w: Writer, best: nat)
    requires w.Valid() && 3 <= best <= 258
    modifies w
    ensures w.Valid()
    ensures var j := LengthIndex(best);
            w.Stream() == old(w.Stream()) + SymbolBits(j + 257) + Lsb(best - LengthC(j), LengthEb(j))
  {
    TableEnds();
    hide LengthC, LengthEb, DistC, SymbolBits, Lsb, Pow2, BytesLsb;
    var j := 0;
    while best > LengthC(j + 1) - 1
      invariant j < 29 && LengthC(j) <= best
      decreases 29 - j
    {
      j := j + 1;
    }
    LengthRow(j);
    LengthExtraSmall(j);
    LengthUnique(best, j);
    w.Huff(j + 257);
    if LengthEb(j) != 0 {
      w.Add(best - LengthC(j), LengthEb(j));
    } else {
      NoExtra(w.Stream(), best - LengthC(j));
    }
  }

  /** Writes the five-bit distance code and its extra bits. */
  method EmitDist(w: Writer, d: nat)
    requires w.Valid() && 1 <= d <= 32767
    modifies w
    ensures w.Valid()
    ensures var k := DistIndex(d);
            w.Stream() == old(w.Stream()) + Msb(k, 5) + Lsb(d - DistC(k), DistEb(k))
  {
    TableEnds();
    Pow2To16();
    hide DistC, DistEb, LengthC, Msb, Lsb, Pow2, BytesLsb;
    var k := 0;
    while d > DistC(k + 1) - 1
      invariant k < 30 && DistC(k) <= d
      decreases 30 - k
    {
      k := k + 1;
    }
    DistRow(k);
    DistUnique(d, k);
    var r := BitRev(k, 5);
    w.Add(r, 5);
    if DistEb(k) != 0 {
      w.Add(d - DistC(k), DistEb(k));
    } else {
      NoExtra(w.Stream(), d - DistC(k));
    }
  }

  method EmitMatch(w: Writer, best: nat, d: nat)
    requires w.Valid() && Deflate.Valid(Match(best, d))
    modifies w
    ensures w.Valid() && w.Stream() == old(w.Stream()) + TokenBits(Match(best, d))
  {
    hide TokenBits, SymbolBits, Lsb, Msb, LengthC, LengthEb, DistC, DistEb, LengthIndex, DistIndex, BytesLsb;
    ghost var s := w.Stream();
    EmitLength(w, best);
    EmitDist(w, d);
    MatchTailIs(s, best, d);
  }

  lemma NoExtra(s: seq<bit>, v: nat)
    ensures s + Lsb(v, 0) == s
  {
  }

  lemma MatchTailIs(s: seq<bit>, best: nat, d: nat)
    requires Deflate.Valid(Match(best, d))
    ensures var j, k := LengthIndex(best), DistIndex(d);
            s + SymbolBits(j + 257) + Lsb(best - LengthC(j), LengthEb(j)) + Msb(k, 5) + Lsb(d - DistC(k), DistEb(k))
            == s + TokenBits(Match(best, d))
  {
    hide LengthC, LengthEb, DistC, DistEb, SymbolBits, Lsb, Msb, LengthIndex, DistIndex;
    var j, k := LengthIndex(best), DistIndex(d);
    Assoc5(s, SymbolBits(j + 257), Lsb(best - LengthC(j), LengthEb(j)), Msb(k, 5), Lsb(d - DistC(k), DistEb(k)));
  }

  lemma Assoc5<T>(a: seq<T>, b: seq<T>, c: seq<T>, d: seq<T>, e: seq<T>)
    ensures a + b + c + d + e == a + (b + (c + d + e))
  {
  }

  /** The bits of the tokens still to come. */
  ghost function Rest(data: seq<byte>, q: nat, i: nat, visited: seq<nat>): seq<bit>
    requires State(data, i, visited) && q > 0
  {
    TokensValid(data, q, i, visited);
    TokensBits(Tokens(data, q, i, visited))
  }

  lemma BitsCons(t: Token, ts: seq<Token>)
    requires Deflate.Valid(t) && AllValid(ts)
    ensures AllValid([t] + ts)
    ensures TokensBits([t] + ts) == TokenBits(t) + TokensBits(ts)
  {
    hide Valid, TokenBits;
    assert ([t] + ts)[1..] == ts;
  }

  lemma RestStep(data: seq<byte>, q: nat, i: nat, visited: seq<nat>, next: nat)
    requires State(data, i, visited) && i + 3 < |data| && q > 0
    requires next == i + Span(Choose(data, q, i, visited))
    ensures State(data, next, visited + [i]) && i < next <= |data|
    ensures Deflate.Valid(Choose(data, q, i, visited))
    ensures Rest(data, q, i, visited) == TokenBits(Choose(data, q, i, visited)) + Rest(data, q, next, visited + [i])
  {
    hide Choose, Span, Valid, State, TokenBits, TokensBits, Tokens;
    TokensStep(data, q, i, visited, next);
    TokensValid(data, q, next, visited + [i]);
    BitsCons(Choose(data, q, i, visited), Tokens(data, q, next, visited + [i]));
  }

  lemma RestLiteral(data: seq<byte>, q: nat, i: nat, visited: seq<nat>)
    requires State(data, i, visited) && i < |data| <= i + 3 && q > 0
    ensures State(data, i + 1, visited)
    ensures Rest(data, q, i, visited) == SymbolBits(data[i]) + Rest(data, q, i + 1, visited)
  {
    hide State, TokensBits, Tokens;
    TokensLast(data, q, i, visited);
    TokensValid(data, q, i + 1, visited);
    BitsCons(Literal(data[i]), Tokens(data, q, i + 1, visited));
  }

  /** Search, enter the position into its bucket, and look one byte ahead for something longer. */
  method FindMatch(table: array<seq<nat>>, data: seq<byte>, q: nat, i: nat, ghost visited: seq<nat>)
    returns (best: nat, bestloc: Option<nat>)
    requires State(data, i, visited) && i + 3 < |data| && q >= 5
    requires table.Length == ZHASH && TableHolds(table[..], data, visited, q)
    modifies table
    ensures TableHolds(table[..], data, visited + [i], q)
    ensures bestloc.Some? ==> bestloc.value <= i
    ensures Choose(data, q, i, visited) == if bestloc.Some? then Match(best, i - bestloc.value) else Literal(data[i])
  {
    hide HashBytes, Best, Better, Bucket, Count, Same, IsBest;
    var h := Hash(data, i);
    var hlist := table[h];
    assert hlist == Candidates(data, q, i, visited);
    best, bestloc := FindBest(data, i, hlist);
    ghost var before := table[..];
    Enter(table, h, i, q);
    EnterKeeps(before, table[..], data, visited, i, q);
    if bestloc.Some? {
      h := Hash(data, i + 1);
      hlist := table[h];
      assert hlist == NextCandidates(data, q, i, visited);
      var bail := BetterNext(data, i, hlist, best);
      if bail {
        bestloc := None;
      }
    }
  }

  /** Writes the match found or the byte at the cursor, and moves on. */
  method EmitToken(w: Writer, data: seq<byte>, i: nat, best: nat, bestloc: Option<nat>, ghost t: Token)
    returns (next: nat)
    requires w.Valid() && i < |data| && (bestloc.Some? ==> bestloc.value <= i)
    requires t == if bestloc.Some? then Match(best, i - bestloc.value) else Literal(data[i])
    requires Deflate.Valid(t)
    modifies w
    ensures w.Valid() && next == i + Span(t)
    ensures w.Stream() == old(w.Stream()) + TokenBits(t)
  {
    hide BytesLsb, Lsb, SymbolBits;
    if bestloc.Some? {
      EmitMatch(w, best, i - bestloc.value);
      next := i + best;
    } else {
      w.HuffB(data[i]);
      next := i + 1;
    }
  }

  /** One round of the main loop. */
  method CompressStep(w: Writer, table: array<seq<nat>>, data: seq<byte>, q: nat, i: nat, ghost visited: seq<nat>)
    returns (next: nat)
    requires w.Valid() && State(data, i, visited) && i + 3 < |data| && q >= 5
    requires table.Length == ZHASH && TableHolds(table[..], data, visited, q)
    modifies w, table
    ensures w.Valid()
    ensures TableHolds(table[..], data, visited + [i], q)
    ensures var t := Choose(data, q, i, visited);
            && Deflate.Valid(t) && next == i + Span(t)
            && w.Stream() == old(w.Stream()) + TokenBits(t)
  {
    hide Choose, TableHolds, Span, TokenBits, BytesLsb, Valid, State;
    ChooseSound(data, q, i, visited);
    var best, bestloc := FindMatch(table, data, q, i, visited);
    next := EmitToken(w, data, i, best, bestloc, Choose(data, q, i, visited));
  }

  lemma Regroup<T>(s: seq<T>, a: seq<T>, rest: seq<T>, before: seq<T>)
    requires before == a + rest
    ensures s + a + rest == s + before
  {
  }

  lemma FreshTable(table: seq<seq<nat>>, data: seq<byte>, q: nat)
    requires |table| == ZHASH && forall h | 0 <= h < ZHASH :: table[h] == []
    ensures TableHolds(table, data, [], q)
  {
  }

  /** All tokens of the input, by the main loop and then the loop over the last bytes. */
  method CompressBody(w: Writer, data: seq<byte>, q: nat)
    requires w.Valid() && q >= 5
    modifies w
    ensures w.Valid() && State(data, 0, [])
    ensures w.Stream() == old(w.Stream()) + Rest(data, q, 0, [])
  {
    hide State, Choose, Rest, TokenBits, TableHolds, Span, SymbolBits, BytesLsb, Lsb;
    var table := new seq<nat>[ZHASH](_ => []);
    FreshTable(table[..], data, q);
    ghost var visited: seq<nat> := [];
    var i := 0;
    StateStart(data);
    ghost var total := w.Stream() + Rest(data, q, 0, []);
    while i + 3 < |data|
      invariant fresh(table) && table.Length == ZHASH
      invariant i <= |data| && w.Valid() && State(data, i, visited)
      invariant TableHolds(table[..], data, visited, q)
      invariant w.Stream() + Rest(data, q, i, visited) == total
    {
      ghost var s := w.Stream();
      var next := CompressStep(w, table, data, q, i, visited);
      RestStep(data, q, i, visited, next);
      Regroup(s, TokenBits(Choose(data, q, i, visited)), Rest(data, q, next, visited + [i]), Rest(data, q, i, visited));
      visited := visited + [i];
      i := next;
    }
    while i < |data|
      invariant |data| <= i + 3 && i <= |data| && w.Valid() && State(data, i, visited)
      invariant w.Stream() + Rest(data, q, i, visited) == total
    {
      ghost var s := w.Stream();
      w.HuffB(data[i]);
      RestLiteral(data, q, i, visited);
      Regroup(s, SymbolBits(data[i]), Rest(data, q, i + 1, visited), Rest(data, q, i, visited));
      i := i + 1;
    }
    RestEmpty(data, q, visited);
  }

  lemma StateStart(data: seq<byte>)
    ensures State(data, 0, [])
  {
  }

  lemma RestEmpty(data: seq<byte>, q: nat, visited: seq<nat>)
    requires State(data, |data|, visited) && q > 0
    ensures Rest(data, q, |data|, visited) == []
  {
  }

  lemma Boundary(w: Writer)
    requires w.bitcount == 0
    ensures w.Stream() == BytesLsb(w.out)
  {
    hide BytesLsb;
    assert BytesLsb(w.out) + [] == BytesLsb(w.out);
  }

  lemma StreamIs(h: seq<bit>, data: seq<byte>, quality: int)
    ensures State(data, 0, [])
    ensures h + Lsb(1, 1) + Lsb(1, 2) + Rest(data, Quality(quality), 0, []) + SymbolBits(256)
         == h + DeflateBits(data, quality)
  {
    hide Lsb, SymbolBits, TokensBits, Tokens;
    var r := TokensBits(AllTokens(data, quality));
    assert h + Lsb(1, 1) + Lsb(1, 2) + r + SymbolBits(256) == h + (Lsb(1, 1) + Lsb(1, 2) + r + SymbolBits(256));
  }

  lemma SplitSame<T>(a: seq<T>, b: seq<T>, c: seq<T>, d: seq<T>)
    requires a + b == c + d && |a| == |c|
    ensures a == c && b == d
  {
    assert a == (a + b)[..|a|] && b == (a + b)[|a|..];
    assert c == (c + d)[..|c|] && d == (c + d)[|c|..];
  }

  lemma OnBoundary(out: seq<byte>, h: seq<byte>, bits: seq<bit>, k: nat)
    requires k < 8 && BytesLsb(out) == BytesLsb(h) + bits + Lsb(0, k)
    ensures out == h + Pack(bits)
  {
    hide BytesLsb, Lsb, Pack;
    var body := out[|h|..];
    assert out == out[..|h|] + body;
    BytesLsbConcat(out[..|h|], body);
    SeqAssoc(BytesLsb(h), bits, Lsb(0, k));
    SplitSame(BytesLsb(out[..|h|]), BytesLsb(body), BytesLsb(h), bits + Lsb(0, k));
    BytesLsbInjective(out[..|h|], h);
    PackUnique(body, bits, k);
  }

  /** `stbi_zlib_compress`. */
  method Compress(data: seq<byte>, quality: int) returns (out: seq<byte>)
    ensures out == Encode(data, quality)
    ensures Decode(out) == Some(data)
  {
    hide BytesLsb, Lsb, SymbolBits, Pack, Rest, State, Decode, TokensBits, Tokens, DeflateBits, Adler;
    var q: nat := if quality < 5 then 5 else quality;
    var w := new Writer();
    w.Push(0x78);
    w.Push(0x5e);
    Pow2To16();
    ghost var h := w.Stream();
    Boundary(w);
    assert w.out == [0x78, 0x5e];
    w.Add(1, 1);
    w.Add(1, 2);
    CompressBody(w, data, q);
    w.Huff(256);
    ghost var s := w.Stream();
    StreamIs(h, data, quality);
    w.Pad();
    ghost var k: nat :| k < 8 && w.Stream() == s + Lsb(0, k);
    Boundary(w);
    OnBoundary(w.out, [0x78, 0x5e], DeflateBits(data, quality), k);
    EmitChecksum(w, data);
    out := w.out;
    RoundTrip(data, quality);
  }

  method EmitChecksum(w: Writer, data: seq<byte>)
    requires w.Valid() && w.bitcount == 0
    modifies w
    ensures w.out == old(w.out) + AdlerBytes(data)
  {
    hide Adler;
    var s1, s2 := Checksum(data);
    w.Push(s2 / 256 % 256);
    w.Push(s2 % 256);
    w.Push(s1 / 256 % 256);
    w.Push(s1 % 256);
  }

  /** The stream is never longer than 31/24 of the input and a few bytes. */
  lemma EncodeLength(data: seq<byte>, quality: int)
    ensures 24 * |Encode(data, quality)| <= 31 * |data| + 200
  {
    StateStart(data);
    TokensBitsLength(data, Quality(quality), 0, []);
    hide State, Tokens, TokensBits, Pack, Adler;
    SymbolLength();
  }

  lemma SymbolLength()
    ensures |SymbolBits(256)| == 7
  {
  }
}
