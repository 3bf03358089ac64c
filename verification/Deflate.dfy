/** Tokens, their fixed-Huffman bits, and an inflater written from RFC 1951. */
module Deflate {
  import opened Bits
  import opened ZlibWriter

  datatype Token = Literal(b: byte) | Match(len: nat, dist: nat)

  /** `lengthc`. */
  function LengthC(j: nat): nat {
    match j
    case 0 => 3 case 1 => 4 case 2 => 5 case 3 => 6 case 4 => 7 case 5 => 8 case 6 => 9 case 7 => 10
    case 8 => 11 case 9 => 13 case 10 => 15 case 11 => 17 case 12 => 19 case 13 => 23 case 14 => 27 case 15 => 31
    case 16 => 35 case 17 => 43 case 18 => 51 case 19 => 59 case 20 => 67 case 21 => 83 case 22 => 99 case 23 => 115
    case 24 => 131 case 25 => 163 case 26 => 195 case 27 => 227 case 28 => 258 case _ => 259
  }

  /** `lengtheb`. */
  function LengthEb(j: nat): nat {
    match j
    case 0 => 0 case 1 => 0 case 2 => 0 case 3 => 0 case 4 => 0 case 5 => 0 case 6 => 0 case 7 => 0
    case 8 => 1 case 9 => 1 case 10 => 1 case 11 => 1 case 12 => 2 case 13 => 2 case 14 => 2 case 15 => 2
    case 16 => 3 case 17 => 3 case 18 => 3 case 19 => 3 case 20 => 4 case 21 => 4 case 22 => 4 case 23 => 4
    case 24 => 5 case 25 => 5 case 26 => 5 case 27 => 5 case _ => 0
  }

  /** `distc`. */
  function DistC(j: nat): nat {
    match j
    case 0 => 1 case 1 => 2 case 2 => 3 case 3 => 4 case 4 => 5 case 5 => 7 case 6 => 9 case 7 => 13
    case 8 => 17 case 9 => 25 case 10 => 33 case 11 => 49 case 12 => 65 case 13 => 97 case 14 => 129 case 15 => 193
    case 16 => 257 case 17 => 385 case 18 => 513 case 19 => 769 case 20 => 1025 case 21 => 1537 case 22 => 2049 case 23 => 3073
    case 24 => 4097 case 25 => 6145 case 26 => 8193 case 27 => 12289 case 28 => 16385 case 29 => 24577 case _ => 32768
  }

  /** `disteb`. */
  function DistEb(j: nat): nat {
    match j
    case 0 => 0 case 1 => 0 case 2 => 0 case 3 => 0 case 4 => 1 case 5 => 1 case 6 => 2 case 7 => 2
    case 8 => 3 case 9 => 3 case 10 => 4 case 11 => 4 case 12 => 5 case 13 => 5 case 14 => 6 case 15 => 6
    case 16 => 7 case 17 => 7 case 18 => 8 case 19 => 8 case 20 => 9 case 21 => 9 case 22 => 10 case 23 => 10
    case 24 => 11 case 25 => 11 case 26 => 12 case 27 => 12 case 28 => 13 case _ => 13
  }

  predicate Valid(t: Token) {
    t.Match? ==> 3 <= t.len <= 258 && 1 <= t.dist <= 32767
  }

  predicate AllValid(ts: seq<Token>) {
    forall j | 0 <= j < |ts| :: Valid(ts[j])
  }

  // ----- The decoder's view of the tables (RFC 1951, section 3.2.5): intervals laid end to end

  /** Extra bits of length code 257 + c. */
  function LengthExtra(c: nat): nat {
    if c < 4 || c >= 28 then 0 else c / 4 - 1
  }

  /** Shortest length of length code 257 + c; the last code takes 258 away from its neighbour. */
  function LengthBase(c: nat): nat {
    if c == 0 then 3
    else if c == 28 then 258
    else LengthBase(c - 1) + Pow2(LengthExtra(c - 1))
  }

  function DistExtra(c: nat): nat {
    if c < 2 then 0 else c / 2 - 1
  }

  function DistBase(c: nat): (b: nat)
    ensures b >= 1
  {
    if c == 0 then 1 else DistBase(c - 1) + Pow2(DistExtra(c - 1))
  }

  lemma LengthRow(j: nat)
    requires j < 29
    ensures LengthEb(j) == LengthExtra(j)
    ensures LengthC(j + 1) == LengthC(j) + Pow2(LengthEb(j)) - (if j == 27 then 1 else 0)
  {
    Pow2To16();
    match j {
      case 0 => case 1 => case 2 => case 3 => case 4 => case 5 => case 6 => case 7 => case 8 => case 9 =>
      case 10 => case 11 => case 12 => case 13 => case 14 => case 15 => case 16 => case 17 => case 18 => case 19 =>
      case 20 => case 21 => case 22 => case 23 => case 24 => case 25 => case 26 => case 27 => case _ =>
    }
  }

  lemma DistRow(j: nat)
    requires j < 30
    ensures DistEb(j) == DistExtra(j) && DistEb(j) <= 13
    ensures DistC(j + 1) == DistC(j) + Pow2(DistEb(j)) - (if j == 29 then 1 else 0)
  {
    Pow2To16();
    match j {
      case 0 => case 1 => case 2 => case 3 => case 4 => case 5 => case 6 => case 7 => case 8 => case 9 =>
      case 10 => case 11 => case 12 => case 13 => case 14 => case 15 => case 16 => case 17 => case 18 => case 19 =>
      case 20 => case 21 => case 22 => case 23 => case 24 => case 25 => case 26 => case 27 => case 28 => case _ =>
    }
  }

  // ----- The encoder's search for the interval of a length or distance

  lemma TableEnds()
    ensures LengthC(0) == 3 && LengthC(28) == 258 && LengthC(29) == 259 && DistC(0) == 1 && DistC(30) == 32768
  {
  }

  function LengthIndexFrom(len: nat, j: nat): nat
    decreases 29 - j
  {
    if j < 29 && len > LengthC(j + 1) - 1 then LengthIndexFrom(len, j + 1) else j
  }

  lemma {:induction false} LengthIndexFromIs(len: nat, j: nat)
    requires j < 29 && LengthC(j) <= len <= 258
    ensures var k := LengthIndexFrom(len, j); k < 29 && LengthC(k) <= len < LengthC(k + 1)
    decreases 29 - j
  {
    TableEnds();
    hide LengthC;
    if len > LengthC(j + 1) - 1 {
      LengthIndexFromIs(len, j + 1);
    }
  }

  /** The table interval a match length falls in, searched from the front. */
  function LengthIndex(len: nat): (k: nat)
    requires 3 <= len <= 258
    ensures k < 29 && LengthC(k) <= len < LengthC(k + 1)
  {
    TableEnds();
    LengthIndexFromIs(len, 0);
    LengthIndexFrom(len, 0)
  }

  function DistIndexFrom(dist: nat, j: nat): nat
    decreases 30 - j
  {
    if j < 30 && dist > DistC(j + 1) - 1 then DistIndexFrom(dist, j + 1) else j
  }

  lemma {:induction false} DistIndexFromIs(dist: nat, j: nat)
    requires j < 30 && DistC(j) <= dist <= 32767
    ensures var k := DistIndexFrom(dist, j); k < 30 && DistC(k) <= dist < DistC(k + 1)
    decreases 30 - j
  {
    TableEnds();
    hide DistC;
    if dist > DistC(j + 1) - 1 {
      DistIndexFromIs(dist, j + 1);
    }
  }

  /** The table interval a distance falls in, searched from the front. */
  function DistIndex(dist: nat): (k: nat)
    requires 1 <= dist <= 32767
    ensures k < 30 && DistC(k) <= dist < DistC(k + 1)
  {
    TableEnds();
    DistIndexFromIs(dist, 0);
    DistIndexFrom(dist, 0)
  }

  lemma {:induction false} LengthMono(j: nat, k: nat)
    requires j < k <= 29
    ensures LengthC(j) < LengthC(k)
  {
    hide LengthC, LengthEb, DistC, DistEb;
    LengthRow(k - 1);
    if j < k - 1 {
      LengthMono(j, k - 1);
    }
  }

  lemma {:induction false} DistMono(j: nat, k: nat)
    requires j < k <= 30
    ensures DistC(j) < DistC(k)
  {
    hide LengthC, LengthEb, DistC, DistEb;
    DistRow(k - 1);
    if j < k - 1 {
      DistMono(j, k - 1);
    }
  }

  /** Every match length falls in exactly one interval of the length table. */
  lemma LengthUnique(len: nat, j: nat)
    requires 3 <= len <= 258 && j < 29 && LengthC(j) <= len < LengthC(j + 1)
    ensures j == LengthIndex(len)
  {
    hide LengthC, LengthEb;
    var k := LengthIndex(len);
    if j + 1 < k {
      LengthMono(j + 1, k);
    } else if k + 1 < j {
      LengthMono(k + 1, j);
    }
  }

  /** Every distance falls in exactly one interval of the distance table. */
  lemma DistUnique(dist: nat, j: nat)
    requires 1 <= dist <= 32767 && j < 30 && DistC(j) <= dist < DistC(j + 1)
    ensures j == DistIndex(dist)
  {
    hide DistC, DistEb;
    var k := DistIndex(dist);
    if j + 1 < k {
      DistMono(j + 1, k);
    } else if k + 1 < j {
      DistMono(k + 1, j);
    }
  }

  lemma {:induction false} LengthBasesAgree(c: nat)
    requires c <= 28
    ensures LengthC(c) == LengthBase(c)
  {
    TableEnds();
    hide LengthC, LengthEb;
    if c > 0 {
      LengthBasesAgree(c - 1);
      LengthRow(c - 1);
    }
  }

  lemma {:induction false} DistBasesAgree(c: nat)
    requires c <= 29
    ensures DistC(c) == DistBase(c)
  {
    TableEnds();
    hide DistC, DistEb;
    if c > 0 {
      DistBasesAgree(c - 1);
      DistRow(c - 1);
    }
  }

  // ----- Tokens to bits

  /** What follows the length symbol of a match. */
  function MatchTail(len: nat, dist: nat): seq<bit>
    requires Valid(Match(len, dist))
  {
    var j, k := LengthIndex(len), DistIndex(dist);
    Lsb(len - LengthC(j), LengthEb(j)) + Msb(k, 5) + Lsb(dist - DistC(k), DistEb(k))
  }

  function TokenBits(t: Token): seq<bit>
    requires Valid(t)
  {
    match t
    case Literal(b) => SymbolBits(b)
    case Match(len, dist) => SymbolBits(257 + LengthIndex(len)) + MatchTail(len, dist)
  }

  function TokensBits(ts: seq<Token>): seq<bit>
    requires AllValid(ts)
  {
    if ts == [] then [] else TokenBits(ts[0]) + TokensBits(ts[1..])
  }

  // ----- What tokens mean

  /** Copies `len` bytes from `dist` back, one at a time, so that source and target may overlap. */
  function CopyMatch(out: seq<byte>, len: nat, dist: nat): (r: seq<byte>)
    requires 1 <= dist <= |out|
    decreases len
  {
    if len == 0 then out else CopyMatch(out + [out[|out| - dist]], len - 1, dist)
  }

  function Apply(t: Token, out: seq<byte>): Option<seq<byte>> {
    match t
    case Literal(b) => Some(out + [b])
    case Match(len, dist) => if 1 <= dist <= |out| then Some(CopyMatch(out, len, dist)) else None
  }

  function Expand(ts: seq<Token>, out: seq<byte>): Option<seq<byte>>
    decreases |ts|
  {
    if ts == [] then Some(out)
    else
      match Apply(ts[0], out)
      case None => None
      case Some(next) => Expand(ts[1..], next)
  }

  // ----- The inflater

  /** Reads one literal/length symbol of the fixed code (RFC 1951, section 3.2.6). */
  function ReadSymbol(s: seq<bit>): (r: Option<(nat, seq<bit>)>)
    ensures r.Some? ==> r.value.0 <= 287 && |r.value.1| < |s|
  {
    if |s| < 7 then None
    else
      var v7 := MsbValue(s[..7]);
      if v7 < 24 then Some((256 + v7, s[7..]))
      else if |s| < 8 then None
      else
        var v8 := MsbValue(s[..8]);
        assert s[..8][..7] == s[..7];
        if v8 < 0xC0 then Some((v8 - 0x30, s[8..]))
        else if v8 < 0xC8 then Some((280 + v8 - 0xC0, s[8..]))
        else if |s| < 9 then None
        else
          var v9 := MsbValue(s[..9]);
          assert s[..9][..8] == s[..8];
          MsbOfValue(s[..9]);
          Pow2Of8();
          Some((144 + v9 - 0x190, s[9..]))
  }

  /** Reads an `n`-bit number, low bit first. */
  function ReadExtra(s: seq<bit>, n: nat): Option<(nat, seq<bit>)> {
    if |s| < n then None else Some((LsbValue(s[..n]), s[n..]))
  }

  /** Reads the rest of a match after length symbol 257 + c: its length, its distance, what follows. */
  function ReadMatch(c: nat, s: seq<bit>): (r: Option<(nat, nat, seq<bit>)>)
    requires c <= 28
    ensures r.Some? ==> r.value.1 >= 1 && |r.value.2| <= |s|
  {
    match ReadExtra(s, LengthExtra(c))
    case None => None
    case Some((extra, s1)) =>
      if |s1| < 5 then None
      else
        var k := MsbValue(s1[..5]);
        if k > 29 then None
        else
          match ReadExtra(s1[5..], DistExtra(k))
          case None => None
          case Some((far, s2)) =>
            Some((LengthBase(c) + extra, DistBase(k) + far, s2))
  }

  /** Decodes symbols up to the end of the block. */
  function Inflate(s: seq<bit>, out: seq<byte>): Option<(seq<byte>, seq<bit>)>
    decreases |s|
  {
    match ReadSymbol(s)
    case None => None
    case Some((sym, rest)) =>
      if sym < 256 then Inflate(rest, out + [sym])
      else if sym == 256 then Some((out, rest))
      else if sym > 285 then None
      else
        match ReadMatch(sym - 257, rest)
        case None => None
        case Some((len, dist, rest')) =>
          if dist > |out| then None else Inflate(rest', CopyMatch(out, len, dist))
  }

  // ----- Decoding undoes encoding

  /** The fixed code is prefix-free and complete for the encoder: a symbol decodes to itself. */
  lemma SymbolRoundTrip(n: nat, t: seq<bit>)
    requires n <= 287
    ensures ReadSymbol(SymbolBits(n) + t) == Some((n, t))
  {
    Pow2Of8();
    var v: nat := if n <= 143 then 0x30 + n else if n <= 255 then 0x190 + n - 144
                  else if n <= 279 then n - 256 else 0xC0 + n - 280;
    var w: nat := if n <= 143 then 8 else if n <= 255 then 9 else if n <= 279 then 7 else 8;
    var s := Msb(v, w) + t;
    MsbPrefixValue(v, w, 7, t);
    if w >= 8 {
      MsbPrefixValue(v, w, 8, t);
    }
    if w >= 9 {
      MsbPrefixValue(v, w, 9, t);
    }
    ShrSmall(v);
    hide Msb, Shr, Pow2, MsbValue;
    assert s[w..] == t;
  }

  lemma ShrSmall(v: nat)
    ensures Shr(v, 0) == v && Shr(v, 1) == v / 2 && Shr(v, 2) == v / 4
  {
    assert Shr(v, 2) == Shr(v / 2, 1);
  }

  lemma ExtraRoundTrip(v: nat, n: nat, t: seq<bit>)
    requires v < Pow2(n)
    ensures ReadExtra(Lsb(v, n) + t, n) == Some((v, t))
  {
    assert (Lsb(v, n) + t)[..n] == Lsb(v, n);
    assert (Lsb(v, n) + t)[n..] == t;
    LsbInverse(v, n);
  }

  lemma ReadMatchParts(c: nat, extra: nat, k: nat, far: nat, t: seq<bit>)
    requires c <= 28 && k <= 29 && extra < Pow2(LengthExtra(c)) && far < Pow2(DistExtra(k))
    ensures ReadMatch(c, Lsb(extra, LengthExtra(c)) + (Msb(k, 5) + (Lsb(far, DistExtra(k)) + t)))
         == Some((LengthBase(c) + extra, DistBase(k) + far, t))
  {
    Pow2To16();
    hide Pow2, LengthExtra, DistExtra, LengthBase, DistBase, Lsb, Msb, MsbValue, ReadExtra;
    var f := Lsb(far, DistExtra(k)) + t;
    ExtraRoundTrip(extra, LengthExtra(c), Msb(k, 5) + f);
    assert (Msb(k, 5) + f)[..5] == Msb(k, 5) && (Msb(k, 5) + f)[5..] == f;
    MsbInverse(k, 5);
    ExtraRoundTrip(far, DistExtra(k), t);
  }

  /** Lengths 3..258 and distances 1..32767 come back as they were. */
  lemma MatchRoundTrip(len: nat, dist: nat, t: seq<bit>)
    requires Valid(Match(len, dist))
    ensures ReadMatch(LengthIndex(len), MatchTail(len, dist) + t) == Some((len, dist, t))
  {
    hide LengthC, LengthEb, DistC, DistEb, Lsb, Msb, ReadMatch, Pow2, LengthExtra, DistExtra, LengthBase, DistBase,
      LengthIndex, DistIndex;
    var j, k := LengthIndex(len), DistIndex(dist);
    LengthRow(j);
    DistRow(k);
    LengthBasesAgree(j);
    DistBasesAgree(k);
    ReadMatchParts(j, len - LengthC(j), k, dist - DistC(k), t);
    SeqAssoc4(Lsb(len - LengthC(j), LengthEb(j)), Msb(k, 5), Lsb(dist - DistC(k), DistEb(k)), t);
  }

  lemma TokenRoundTrip(tok: Token, out: seq<byte>, t: seq<bit>)
    requires Valid(tok)
    requires Apply(tok, out).Some?
    ensures Inflate(TokenBits(tok) + t, out) == Inflate(t, Apply(tok, out).value)
  {
    hide MatchTail, SymbolBits, ReadSymbol, ReadMatch, LengthIndex, CopyMatch, LengthC;
    match tok
    case Literal(b) =>
      SymbolRoundTrip(b, t);
    case Match(len, dist) =>
      SeqAssoc(SymbolBits(257 + LengthIndex(len)), MatchTail(len, dist), t);
      SymbolRoundTrip(257 + LengthIndex(len), MatchTail(len, dist) + t);
      MatchRoundTrip(len, dist, t);
  }

  /** Inflating the bits of tokens and an end-of-block symbol is expanding the tokens. */
  lemma {:induction false} InflateExpands(ts: seq<Token>, out: seq<byte>, t: seq<bit>)
    requires AllValid(ts)
    requires Expand(ts, out).Some?
    ensures Inflate(TokensBits(ts) + SymbolBits(256) + t, out) == Some((Expand(ts, out).value, t))
    decreases |ts|
  {
    hide LengthC, LengthEb, DistC, DistEb;
    if ts == [] {
      assert TokensBits(ts) + SymbolBits(256) + t == SymbolBits(256) + t;
      SymbolRoundTrip(256, t);
    } else {
      var b := TokensBits(ts[1..]);
      assert TokensBits(ts) + SymbolBits(256) + t == TokenBits(ts[0]) + (b + SymbolBits(256) + t);
      TokenRoundTrip(ts[0], out, b + SymbolBits(256) + t);
      InflateExpands(ts[1..], Apply(ts[0], out).value, t);
    }
  }

  // ----- How long the encoding can get

  lemma TokenBitsLength(t: Token)
    requires Valid(t)
    ensures |TokenBits(t)| <= if t.Literal? then 9 else 31
  {
    hide LengthC, DistC, LengthIndex, DistIndex, Lsb, Msb;
    match t
    case Literal(_) =>
    case Match(len, dist) =>
      LengthExtraSmall(LengthIndex(len));
      DistRow(DistIndex(dist));
  }

  lemma LengthExtraSmall(j: nat)
    requires j < 29
    ensures LengthEb(j) <= 5
  {
  }
}
