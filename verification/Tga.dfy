/** The TGA writer with its run-length packets, and a reader that undoes it. */
module Tga {
  import opened Bits
  import opened WriteContext
  import opened Bmp

  type Pixel = seq<byte>

  /** A packet repeats one pixel or lists several. */
  datatype Packet = Raw(pixels: seq<Pixel>) | Run(count: nat, pixel: Pixel)

  predicate IsRow(row: seq<Pixel>, comp: nat) {
    1 <= comp <= 4 && forall i | 0 <= i < |row| :: |row[i]| == comp
  }

  // ----- The scan

  /** Where the run of pixels equal to pixel `i` ends, at most 128 on. */
  function RunEnd(row: seq<Pixel>, i: nat, k: nat): (e: nat)
    requires i < k <= |row| && k - i <= 128
    ensures k <= e <= |row| && e - i <= 128
    decreases |row| - k
  {
    if k < |row| && k - i < 128 && row[k] == row[i] then RunEnd(row, i, k + 1) else k
  }

  /** Where a list packet started at `i` ends: the scan compares pixels two apart and gives back the last
      pixel when they are equal. */
  function RawEnd(row: seq<Pixel>, i: nat, k: nat): (e: nat)
    requires i + 2 <= k <= |row| && k - i <= 128
    ensures i + 1 <= e <= |row| && e - i <= 128
    decreases |row| - k
  {
    if k < |row| && k - i < 128 then
      if row[k - 2] != row[k] then RawEnd(row, i, k + 1) else k - 1
    else k
  }

  /** The packet the scan makes at pixel `i`. */
  function PacketAt(row: seq<Pixel>, i: nat): Packet
    requires i < |row|
  {
    if i == |row| - 1 then Raw([row[i]])
    else if row[i] == row[i + 1] then Run(RunEnd(row, i, i + 2) - i, row[i])
    else Raw(row[i..RawEnd(row, i, i + 2)])
  }

  function Length(p: Packet): nat {
    match p
    case Raw(pixels) => |pixels|
    case Run(count, _) => count
  }

  function Pixels(p: Packet): seq<Pixel> {
    match p
    case Raw(pixels) => pixels
    case Run(count, pixel) => seq(count, _ => pixel)
  }

  lemma {:induction false} RunEndSame(row: seq<Pixel>, i: nat, k: nat)
    requires i < k <= |row| && k - i <= 128
    requires forall m | i <= m < k :: row[m] == row[i]
    ensures forall m | i <= m < RunEnd(row, i, k) :: row[m] == row[i]
    decreases |row| - k
  {
    if k < |row| && k - i < 128 && row[k] == row[i] {
      RunEndSame(row, i, k + 1);
    }
  }

  /** Every packet carries 1 to 128 pixels, stays inside the row, and stands for exactly those pixels: the
      scan always advances, although it compares pixels two apart. */
  lemma PacketSound(row: seq<Pixel>, i: nat)
    requires i < |row|
    ensures var p := PacketAt(row, i);
            && 1 <= Length(p) <= 128 && i + Length(p) <= |row|
            && Pixels(p) == row[i..i + Length(p)]
  {
    if i < |row| - 1 && row[i] == row[i + 1] {
      RunEndSame(row, i, i + 2);
    } else if i == |row| - 1 {
      assert [row[i]] == row[i..i + 1];
    }
  }

  /** Pixel `m` of a list packet started at `i` stands between two equal pixels, within the scan's reach. */
  predicate RepeatAround(row: seq<Pixel>, i: nat, m: nat) {
    i < m <= i + 126 && m + 1 < |row| && row[m - 1] == row[m + 1]
  }

  lemma {:induction false} RawEndFrom(row: seq<Pixel>, i: nat, k: nat)
    requires i + 2 <= k <= |row| && k - i <= 128
    requires forall m | i < m < k - 1 :: !RepeatAround(row, i, m)
    ensures var e := RawEnd(row, i, k);
            && (forall m | i < m < e :: !RepeatAround(row, i, m))
            && (RepeatAround(row, i, e) || e == |row| || e == i + 128)
    decreases |row| - k
  {
    if k < |row| && k - i < 128 && row[k - 2] != row[k] {
      RawEndFrom(row, i, k + 1);
    }
  }

  /** Where a list packet ends, for every row: before the first pixel that stands between two equal ones, or
      else with the row or at 128 pixels. It ends short of both exactly when there is such a pixel. */
  lemma RawEndsAtRepeat(row: seq<Pixel>, i: nat)
    requires i + 1 < |row|
    ensures var e := RawEnd(row, i, i + 2);
            && (forall m | i < m < e :: !RepeatAround(row, i, m))
            && (e < |row| && e - i < 128 <==> RepeatAround(row, i, e))
            && (e < |row| && e - i < 128 <==> exists m :: RepeatAround(row, i, m))
  {
    RawEndFrom(row, i, i + 2);
    var e := RawEnd(row, i, i + 2);
    if m :| RepeatAround(row, i, m) {
      assert m >= e;
    }
  }

  /** A list packet that is not full is followed by another list packet exactly when the pixel it ended before
      is no repeat: the equal pixels on either side of it were taken for one. */
  lemma NeedlessBreak(row: seq<Pixel>, i: nat)
    requires i + 1 < |row| && row[i] != row[i + 1]
    ensures PacketAt(row, i).Raw?
    ensures var e := i + Length(PacketAt(row, i));
            (e < |row| && e - i < 128 && PacketAt(row, e).Raw?) <==> (RepeatAround(row, i, e) && row[e] != row[e + 1])
  {
    RawEndsAtRepeat(row, i);
    assert |row[i..RawEnd(row, i, i + 2)]| == RawEnd(row, i, i + 2) - i;
    hide RawEnd, RunEnd;
  }

  /** Two pixels that alternate are listed one by one: the scan gives up after each. */
  lemma AlternatingRow(a: Pixel, b: Pixel)
    requires a != b
    ensures PacketAt([a, b, a, b], 0) == Raw([a]) && PacketAt([a, b, a, b], 1) == Raw([b])
  {
    var row := [a, b, a, b];
    assert RawEnd(row, 0, 2) == 1 && RawEnd(row, 1, 3) == 2;
  }

  /** All packets of the row from pixel `i` on. */
  function Packets(row: seq<Pixel>, i: nat): seq<Packet>
    requires i <= |row|
    decreases |row| - i
  {
    if i == |row| then []
    else
      PacketSound(row, i);
      [PacketAt(row, i)] + Packets(row, i + Length(PacketAt(row, i)))
  }

  /** No two neighbours are equal, but every two pixels two apart are. */
  predicate Alternates(row: seq<Pixel>, i: nat) {
    && (forall k | i <= k < |row| - 1 :: row[k] != row[k + 1])
    && (forall k | i <= k < |row| - 2 :: row[k] == row[k + 2])
  }

  /** An alternating row of `n` pixels takes `n - 1` packets. */
  lemma {:induction false} AlternatingPackets(row: seq<Pixel>, i: nat)
    requires Alternates(row, i) && i + 2 <= |row|
    ensures |Packets(row, i)| == |row| - i - 1
    decreases |row| - i
  {
    if i + 2 < |row| {
      assert PacketAt(row, i) == Raw(row[i..i + 1]);
      AlternatingPackets(row, i + 1);
    } else {
      assert PacketAt(row, i) == Raw(row[i..i + 2]);
    }
  }

  /** The pixels a list of packets stands for. */
  function AllPixels(ps: seq<Packet>): seq<Pixel> {
    if ps == [] then [] else Pixels(ps[0]) + AllPixels(ps[1..])
  }

  /** The row from pixel `i` on as full list packets and one for the rest. */
  function Listed(row: seq<Pixel>, i: nat): seq<Packet>
    requires i <= |row|
    decreases |row| - i
  {
    if i == |row| then []
    else if |row| - i <= 128 then [Raw(row[i..])]
    else [Raw(row[i..i + 128])] + Listed(row, i + 128)
  }

  /** Any row could be listed in one packet for every 128 pixels begun. */
  lemma {:induction false} ListedSuffices(row: seq<Pixel>, comp: nat, i: nat)
    requires IsRow(row, comp) && i <= |row|
    ensures (forall k | 0 <= k < |Listed(row, i)| :: WellFormed(Listed(row, i)[k])) && AllPixels(Listed(row, i)) == row[i..]
    ensures |Listed(row, i)| == (|row| - i + 127) / 128
    decreases |row| - i
  {
    if i < |row| {
      if |row| - i <= 128 {
        assert AllPixels([Raw(row[i..])]) == row[i..] + AllPixels([Raw(row[i..])][1..]);
      } else {
        ListedSuffices(row, comp, i + 128);
        var head, tail := Raw(row[i..i + 128]), Listed(row, i + 128);
        assert ([head] + tail)[1..] == tail;
        assert row[i..] == row[i..i + 128] + row[i + 128..];
      }
    }
  }

  // ----- The bytes

  /** A pixel as stored: grey, or blue, green, red; then alpha if there is one. */
  function Stored(p: Pixel): seq<byte>
    requires 1 <= |p| <= 4
  {
    if |p| <= 2 then p else [p[2], p[1], p[0]] + p[3..]
  }

  function StoredAll(ps: seq<Pixel>): seq<byte>
    requires forall i | 0 <= i < |ps| :: 1 <= |ps[i]| <= 4
    decreases |ps|
  {
    if ps == [] then [] else Stored(ps[0]) + StoredAll(ps[1..])
  }

  predicate WellFormed(p: Packet) {
    match p
    case Raw(pixels) => 1 <= |pixels| <= 128 && forall i | 0 <= i < |pixels| :: 1 <= |pixels[i]| <= 4
    case Run(count, pixel) => 1 <= count <= 128 && 1 <= |pixel| <= 4
  }

  function PacketBytes(p: Packet): seq<byte>
    requires WellFormed(p)
  {
    match p
    case Raw(pixels) => [(|pixels| - 1) % 256] + StoredAll(pixels)
    case Run(count, pixel) => [(count - 129) % 256] + Stored(pixel)
  }

  lemma PacketWellFormed(row: seq<Pixel>, comp: nat, i: nat)
    requires IsRow(row, comp) && i < |row|
    ensures WellFormed(PacketAt(row, i))
  {
    PacketSound(row, i);
  }

  /** The bytes of the packets from pixel `i` to the end of the row. */
  function RowBytesFrom(row: seq<Pixel>, comp: nat, i: nat): seq<byte>
    requires IsRow(row, comp) && i <= |row|
    decreases |row| - i
  {
    if i == |row| then []
    else
      PacketSound(row, i);
      PacketWellFormed(row, comp, i);
      PacketBytes(PacketAt(row, i)) + RowBytesFrom(row, comp, i + Length(PacketAt(row, i)))
  }

  function PacketsBytes(ps: seq<Packet>): seq<byte>
    requires forall k | 0 <= k < |ps| :: WellFormed(ps[k])
  {
    if ps == [] then [] else PacketBytes(ps[0]) + PacketsBytes(ps[1..])
  }

  /** The packets of a row stand for its pixels, and their bytes are those written. */
  lemma {:induction false} PacketsOfRow(row: seq<Pixel>, comp: nat, i: nat)
    requires IsRow(row, comp) && i <= |row|
    ensures forall k | 0 <= k < |Packets(row, i)| :: WellFormed(Packets(row, i)[k])
    ensures AllPixels(Packets(row, i)) == row[i..] && PacketsBytes(Packets(row, i)) == RowBytesFrom(row, comp, i)
    decreases |row| - i
  {
    if i < |row| {
      PacketSound(row, i);
      PacketWellFormed(row, comp, i);
      hide PacketAt, PacketBytes, WellFormed, Pixels, Length;
      var p := PacketAt(row, i);
      var e := i + Length(p);
      PacketsOfRow(row, comp, e);
      assert ([p] + Packets(row, e))[1..] == Packets(row, e);
      assert row[i..] == row[i..e] + row[e..];
    }
  }

  // ----- A reader

  /** A stored pixel back in channel order. */
  function Channels(s: seq<byte>): Pixel
    requires 1 <= |s| <= 4
  {
    if |s| <= 2 then s else [s[2], s[1], s[0]] + s[3..]
  }

  function ReadPixels(s: seq<byte>, comp: nat, n: nat): (r: Option<(seq<Pixel>, seq<byte>)>)
    requires 1 <= comp <= 4
    ensures r.Some? ==> |r.value.0| == n && |r.value.1| <= |s|
    decreases n
  {
    if n == 0 then Some(([], s))
    else if |s| < comp then None
    else
      match ReadPixels(s[comp..], comp, n - 1)
      case None => None
      case Some((ps, rest)) => Some(([Channels(s[..comp])] + ps, rest))
  }

  /** Reads one packet: a count byte, its top bit telling run from list. */
  function ReadPacket(s: seq<byte>, comp: nat): (r: Option<(seq<Pixel>, seq<byte>)>)
    requires 1 <= comp <= 4
    ensures r.Some? ==> |r.value.0| >= 1
  {
    if s == [] then None
    else if s[0] < 128 then ReadPixels(s[1..], comp, s[0] + 1)
    else
      match ReadPixels(s[1..], comp, 1)
      case None => None
      case Some((ps, rest)) => Some((seq(s[0] - 127, _ => ps[0]), rest))
  }

  /** Reads packets until a row of `n` pixels is full; no packet may run past its end. */
  function ReadRow(s: seq<byte>, comp: nat, n: nat): Option<(seq<Pixel>, seq<byte>)>
    requires 1 <= comp <= 4
    decreases n
  {
    if n == 0 then Some(([], s))
    else
      match ReadPacket(s, comp)
      case None => None
      case Some((ps, rest)) =>
        if |ps| > n then None
        else
          match ReadRow(rest, comp, n - |ps|)
          case None => None
          case Some((more, rest')) => Some((ps + more, rest'))
  }

  // ----- Reading undoes writing

  lemma StoredRoundTrip(p: Pixel)
    requires 1 <= |p| <= 4
    ensures |Stored(p)| == |p| && Channels(Stored(p)) == p
  {
    if |p| > 2 {
      assert Stored(p)[3..] == p[3..];
      assert Channels(Stored(p)) == [p[0], p[1], p[2]] + p[3..];
      assert p == [p[0], p[1], p[2]] + p[3..];
    }
  }

  lemma {:induction false} PixelsRoundTrip(ps: seq<Pixel>, comp: nat, t: seq<byte>)
    requires IsRow(ps, comp)
    ensures ReadPixels(StoredAll(ps) + t, comp, |ps|) == Some((ps, t))
    decreases |ps|
  {
    hide Stored, Channels;
    if ps == [] {
      assert StoredAll(ps) + t == t;
    } else {
      StoredRoundTrip(ps[0]);
      PixelsRoundTrip(ps[1..], comp, t);
      SeqAssoc(Stored(ps[0]), StoredAll(ps[1..]), t);
      var s := Stored(ps[0]) + (StoredAll(ps[1..]) + t);
      assert s[..comp] == Stored(ps[0]) && s[comp..] == StoredAll(ps[1..]) + t;
      assert ps == [ps[0]] + ps[1..];
    }
  }

  lemma RawRoundTrip(ps: seq<Pixel>, comp: nat, t: seq<byte>)
    requires IsRow(ps, comp) && 1 <= |ps| <= 128
    ensures ReadPacket(PacketBytes(Raw(ps)) + t, comp) == Some((ps, t))
  {
    hide StoredAll, ReadPixels;
    PixelsRoundTrip(ps, comp, t);
    var s := PacketBytes(Raw(ps)) + t;
    assert s[0] == |ps| - 1 && s[1..] == StoredAll(ps) + t;
  }

  lemma RunRoundTrip(count: nat, p: Pixel, t: seq<byte>)
    requires 1 <= |p| <= 4 && 1 <= count <= 128
    ensures ReadPacket(PacketBytes(Run(count, p)) + t, |p|) == Some((seq(count, _ => p), t))
  {
    hide ReadPixels, Stored;
    PixelsRoundTrip([p], |p|, t);
    OneStored(p);
    var s := PacketBytes(Run(count, p)) + t;
    assert s[0] == 127 + count && s[1..] == StoredAll([p]) + t;
  }

  lemma OneStored(p: Pixel)
    requires 1 <= |p| <= 4
    ensures StoredAll([p]) == Stored(p)
  {
    hide Stored;
    assert StoredAll([p]) == Stored(p) + [];
  }

  lemma PacketRoundTrip(row: seq<Pixel>, comp: nat, i: nat, t: seq<byte>)
    requires IsRow(row, comp) && i < |row|
    ensures var p := PacketAt(row, i);
            WellFormed(p) && ReadPacket(PacketBytes(p) + t, comp) == Some((Pixels(p), t))
  {
    PacketSound(row, i);
    PacketWellFormed(row, comp, i);
    var p := PacketAt(row, i);
    match p
    case Raw(ps) =>
      assert forall m | 0 <= m < |ps| :: ps[m] == row[i..i + |ps|][m];
      RawRoundTrip(ps, comp, t);
    case Run(count, pixel) =>
      RunRoundTrip(count, pixel, t);
  }

  /** The packets of a row decode to the row, whatever follows it. */
  lemma {:induction false} RowRoundTrip(row: seq<Pixel>, comp: nat, i: nat, t: seq<byte>)
    requires IsRow(row, comp) && i <= |row|
    ensures ReadRow(RowBytesFrom(row, comp, i) + t, comp, |row| - i) == Some((row[i..], t))
    decreases |row| - i
  {
    hide PacketAt, PacketBytes, ReadPacket, Length, Pixels;
    if i == |row| {
      assert RowBytesFrom(row, comp, i) + t == t;
    } else {
      PacketSound(row, i);
      PacketWellFormed(row, comp, i);
      var p, next := PacketAt(row, i), i + Length(PacketAt(row, i));
      var more := RowBytesFrom(row, comp, next);
      PacketRoundTrip(row, comp, i, more + t);
      RowRoundTrip(row, comp, next, t);
      SeqAssoc(PacketBytes(p), more, t);
      assert row[i..] == row[i..next] + row[next..];
    }
  }

  // ----- The file

  function HasAlpha(comp: nat): nat {
    if comp == 2 || comp == 4 then 1 else 0
  }

  function ColorBytesOf(comp: nat): int {
    if HasAlpha(comp) == 1 then comp - 1 else comp
  }

  function FormatOf(comp: nat): nat {
    if ColorBytesOf(comp) < 2 then 3 else 2
  }

  function Header(x: nat, y: nat, comp: nat, rle: bool): seq<Field> {
    [Field(1, 0), Field(1, 0), Field(1, FormatOf(comp) + if rle then 8 else 0), Field(2, 0), Field(2, 0), Field(1, 0),
     Field(2, 0), Field(2, 0), Field(2, x), Field(2, y),
     Field(1, (ColorBytesOf(comp) + HasAlpha(comp)) * 8), Field(1, HasAlpha(comp) * 8)]
  }

  function TgaFormat(comp: nat, flip: bool): (f: Format)
    ensures f.Valid()
  {
    Format(-1, -1, HasAlpha(comp), 0, false, flip)
  }

  /** The first `k` packed rows, in file order. */
  function PackedRows(img: Raster, flip: bool, k: nat): seq<byte>
    requires img.Valid() && k <= img.y
  {
    if k == 0 then []
    else
      PackedRows(img, flip, k - 1)
      + RowBytesFrom(img.Row(TgaFormat(img.comp, flip).RowIndex(k - 1, img.y)), img.comp, 0)
  }

  /** The packed rows from row `k` of the file to the last. */
  function PackedRowsFrom(img: Raster, flip: bool, k: nat): seq<byte>
    requires img.Valid() && k <= img.y
    decreases img.y - k
  {
    if k == img.y then []
    else
      RowBytesFrom(img.Row(TgaFormat(img.comp, flip).RowIndex(k, img.y)), img.comp, 0) + PackedRowsFrom(img, flip, k + 1)
  }

  function File(img: Raster, rle: bool, flip: bool): seq<byte>
    requires img.Valid()
  {
    FieldsBytes(Header(img.x, img.y, img.comp, rle))
    + if rle then PackedRows(img, flip, img.y) else TgaFormat(img.comp, flip).RowsBytes(img, img.y)
  }

  /** The file-order rows from `k` on. */
  function FileRows(img: Raster, flip: bool, k: nat): (r: seq<seq<Pixel>>)
    requires img.Valid() && k <= img.y
    ensures |r| == img.y - k
    decreases img.y - k
  {
    if k == img.y then [] else [img.Row(TgaFormat(img.comp, flip).RowIndex(k, img.y))] + FileRows(img, flip, k + 1)
  }

  /** Reads `k` rows of `w` pixels, packed or plain. */
  function ReadRows(s: seq<byte>, comp: nat, w: nat, k: nat, rle: bool): Option<seq<seq<Pixel>>>
    requires 1 <= comp <= 4
    decreases k
  {
    if k == 0 then (if s == [] then Some([]) else None)
    else
      match (if rle then ReadRow(s, comp, w) else ReadPixels(s, comp, w))
      case None => None
      case Some((row, rest)) =>
        match ReadRows(rest, comp, w, k - 1, rle)
        case None => None
        case Some(rows) => Some([row] + rows)
  }

  /** Reads a true-colour or grey file, plain or packed; rows in file order, bottom first. */
  function Decode(s: seq<byte>): Option<(nat, nat, seq<seq<Pixel>>)> {
    match ReadFields(s, [1, 1, 1, 2, 2, 1, 2, 2, 2, 2, 1, 1])
    case None => None
    case Some((v, rest)) => DecodeImage(v, rest)
  }

  /** The image behind the header fields `v`. */
  function DecodeImage(v: seq<nat>, body: seq<byte>): Option<(nat, nat, seq<seq<Pixel>>)> {
    if |v| != 12 || v[0] != 0 || v[1] != 0 || v[3..8] != [0, 0, 0, 0, 0] then None                // no map, no origin
    else if v[10] % 8 != 0 || !(1 <= v[10] / 8 <= 4) then None
    else if !(v[2] in [2, 3, 10, 11]) || (v[2] % 8 == 3) != (v[10] in [8, 16]) then None // true colour or grey
    else if v[11] != (if v[10] in [16, 32] then 8 else 0) then None                        // alpha bits
    else
      match ReadRows(body, v[10] / 8, v[8], v[9], v[2] / 8 == 1)
      case None => None
      case Some(rows) => Some((v[8], v[9], rows))
  }

  lemma {:induction false} PackedSplit(img: Raster, flip: bool, k: nat)
    requires img.Valid() && k <= img.y
    ensures PackedRows(img, flip, img.y) == PackedRows(img, flip, k) + PackedRowsFrom(img, flip, k)
    decreases img.y - k
  {
    hide RowBytesFrom, Raster.Row, Format.RowIndex;
    if k == img.y {
      assert PackedRows(img, flip, k) + [] == PackedRows(img, flip, k);
    } else {
      PackedSplit(img, flip, k + 1);
      var row := img.Row(TgaFormat(img.comp, flip).RowIndex(k, img.y));
      SeqAssoc(PackedRows(img, flip, k), RowBytesFrom(row, img.comp, 0), PackedRowsFrom(img, flip, k + 1));
    }
  }

  lemma ReadRowsStep(s: seq<byte>, rest: seq<byte>, row: seq<Pixel>, comp: nat, w: nat, k: nat, rle: bool)
    requires 1 <= comp <= 4 && k > 0
    requires (if rle then ReadRow(s, comp, w) else ReadPixels(s, comp, w)) == Some((row, rest))
    requires ReadRows(rest, comp, w, k - 1, rle).Some?
    ensures ReadRows(s, comp, w, k, rle) == Some([row] + ReadRows(rest, comp, w, k - 1, rle).value)
  {
    hide ReadRow, ReadPixels;
  }

  lemma NoRows(img: Raster, flip: bool)
    requires img.Valid()
    ensures PackedRowsFrom(img, flip, img.y) == [] && PlainRowsFrom(img, flip, img.y) == []
    ensures FileRows(img, flip, img.y) == []
    ensures ReadRows([], img.comp, img.x, 0, true) == ReadRows([], img.comp, img.x, 0, false) == Some([])
  {
  }

  lemma PackedRowsStep(img: Raster, flip: bool, k: nat)
    requires img.Valid() && k < img.y
    requires ReadRows(PackedRowsFrom(img, flip, k + 1), img.comp, img.x, img.y - k - 1, true)
          == Some(FileRows(img, flip, k + 1))
    ensures ReadRows(PackedRowsFrom(img, flip, k), img.comp, img.x, img.y - k, true) == Some(FileRows(img, flip, k))
  {
    hide RowBytesFrom, ReadRow, ReadRows, Raster.Row, Format.RowIndex;
    var row := img.Row(TgaFormat(img.comp, flip).RowIndex(k, img.y));
    RowRoundTrip(row, img.comp, 0, PackedRowsFrom(img, flip, k + 1));
    assert row[0..] == row;
    ReadRowsStep(PackedRowsFrom(img, flip, k), PackedRowsFrom(img, flip, k + 1), row, img.comp, img.x, img.y - k, true);
  }

  lemma {:induction false} PackedRoundTrip(img: Raster, flip: bool, k: nat)
    requires img.Valid() && k <= img.y
    ensures ReadRows(PackedRowsFrom(img, flip, k), img.comp, img.x, img.y - k, true) == Some(FileRows(img, flip, k))
    decreases img.y - k
  {
    hide PackedRowsFrom, ReadRows, FileRows, Raster.Valid;
    if k < img.y {
      PackedRoundTrip(img, flip, k + 1);
      PackedRowsStep(img, flip, k);
    } else {
      NoRows(img, flip);
    }
  }

  /** Plain rows, from row `k` of the file to the last. */
  function PlainRowsFrom(img: Raster, flip: bool, k: nat): seq<byte>
    requires img.Valid() && k <= img.y
    decreases img.y - k
  {
    if k == img.y then []
    else StoredAll(img.Row(TgaFormat(img.comp, flip).RowIndex(k, img.y))) + PlainRowsFrom(img, flip, k + 1)
  }

  lemma {:induction false} StoredAllSnoc(ps: seq<Pixel>, p: Pixel)
    requires (forall i | 0 <= i < |ps| :: 1 <= |ps[i]| <= 4) && 1 <= |p| <= 4
    ensures StoredAll(ps + [p]) == StoredAll(ps) + Stored(p)
    decreases |ps|
  {
    hide Stored;
    if ps == [] {
      assert [] + [p] == [p];
      OneStored(p);
    } else {
      assert (ps + [p])[1..] == ps[1..] + [p];
      StoredAllSnoc(ps[1..], p);
      SeqAssoc(Stored(ps[0]), StoredAll(ps[1..]), Stored(p));
    }
  }

  /** The shared row writer, told to write alpha and not to expand grey, stores the same pixel bytes. */
  lemma {:induction false} PlainRowIsStored(row: seq<Pixel>, comp: nat, flip: bool)
    requires IsRow(row, comp)
    ensures TgaFormat(comp, flip).RowBytes(row) == StoredAll(row)
    decreases |row|
  {
    if row != [] {
      var n := |row| - 1;
      PlainRowIsStored(row[..n], comp, flip);
      StoredAllSnoc(row[..n], row[n]);
      StoredIs(row[n]);
      hide Stored, PixelBytes, StoredAll, HasAlpha;
      assert row[..n] + [row[n]] == row;
    }
  }

  lemma PaddedRowIsStored(img: Raster, flip: bool, j: nat)
    requires img.Valid() && j < img.y
    ensures TgaFormat(img.comp, flip).PaddedRow(img, j) == StoredAll(img.Row(j))
  {
    PlainRowIsStored(img.Row(j), img.comp, flip);
    hide StoredAll, Raster.Row, Format.RowBytes;
    assert StoredAll(img.Row(j)) + Zeros(0) == StoredAll(img.Row(j));
  }

  lemma {:induction false} PlainSplit(img: Raster, flip: bool, k: nat)
    requires img.Valid() && k <= img.y
    ensures var f := TgaFormat(img.comp, flip);
            f.RowsBytes(img, img.y) == f.RowsBytes(img, k) + PlainRowsFrom(img, flip, k)
    decreases img.y - k
  {
    hide Format.PaddedRow, Format.RowIndex, StoredAll, Raster.Row;
    var f := TgaFormat(img.comp, flip);
    if k == img.y {
      assert f.RowsBytes(img, k) + [] == f.RowsBytes(img, k);
    } else {
      var j := f.RowIndex(k, img.y);
      PaddedRowIsStored(img, flip, j);
      PlainSplit(img, flip, k + 1);
      SeqAssoc(f.RowsBytes(img, k), StoredAll(img.Row(j)), PlainRowsFrom(img, flip, k + 1));
    }
  }

  lemma PlainRowsStep(img: Raster, flip: bool, k: nat)
    requires img.Valid() && k < img.y
    requires ReadRows(PlainRowsFrom(img, flip, k + 1), img.comp, img.x, img.y - k - 1, false)
          == Some(FileRows(img, flip, k + 1))
    ensures ReadRows(PlainRowsFrom(img, flip, k), img.comp, img.x, img.y - k, false) == Some(FileRows(img, flip, k))
  {
    hide StoredAll, ReadPixels, ReadRows, Raster.Row, Format.RowIndex;
    var row := img.Row(TgaFormat(img.comp, flip).RowIndex(k, img.y));
    PixelsRoundTrip(row, img.comp, PlainRowsFrom(img, flip, k + 1));
    ReadRowsStep(PlainRowsFrom(img, flip, k), PlainRowsFrom(img, flip, k + 1), row, img.comp, img.x, img.y - k, false);
  }

  lemma {:induction false} PlainRoundTrip(img: Raster, flip: bool, k: nat)
    requires img.Valid() && k <= img.y
    ensures ReadRows(PlainRowsFrom(img, flip, k), img.comp, img.x, img.y - k, false) == Some(FileRows(img, flip, k))
    decreases img.y - k
  {
    hide PlainRowsFrom, ReadRows, FileRows, Raster.Valid;
    if k < img.y {
      PlainRoundTrip(img, flip, k + 1);
      PlainRowsStep(img, flip, k);
    } else {
      NoRows(img, flip);
    }
  }

  lemma HeaderValues(x: nat, y: nat, comp: nat, rle: bool, v: seq<nat>)
    requires ReadAs(Header(x, y, comp, rle), v) && 1 <= comp <= 4
    ensures |v| == 12 && v[3..8] == [0, 0, 0, 0, 0] && v[0] == 0 && v[1] == 0 && v[2] == FormatOf(comp) + (if rle then 8 else 0)
    ensures v[2] % 8 == FormatOf(comp) && v[2] / 8 == if rle then 1 else 0
    ensures v[10] % 8 == 0 && v[10] / 8 == comp && v[11] == HasAlpha(comp) * 8
    ensures (v[8] == x <==> x < 0x1_0000) && (v[9] == y <==> y < 0x1_0000)
  {
    Pow256Values();
    hide Pow256;
    var h := Header(x, y, comp, rle);
    assert ReadsAs(h[0], v[0]) && ReadsAs(h[1], v[1]) && ReadsAs(h[2], v[2]) && ReadsAs(h[3], v[3]);
    assert ReadsAs(h[4], v[4]) && ReadsAs(h[5], v[5]) && ReadsAs(h[6], v[6]) && ReadsAs(h[7], v[7]);
    assert ReadsAs(h[8], v[8]) && ReadsAs(h[9], v[9]) && ReadsAs(h[10], v[10]) && ReadsAs(h[11], v[11]);
  }

  lemma HeaderWidths(x: nat, y: nat, comp: nat, rle: bool)
    ensures Widths(Header(x, y, comp, rle)) == [1, 1, 1, 2, 2, 1, 2, 2, 2, 2, 1, 1]
  {
  }

  lemma BodyRoundTrip(img: Raster, rle: bool, flip: bool)
    requires img.Valid()
    ensures var body := if rle then PackedRows(img, flip, img.y) else TgaFormat(img.comp, flip).RowsBytes(img, img.y);
            ReadRows(body, img.comp, img.x, img.y, rle) == Some(FileRows(img, flip, 0))
  {
    hide ReadRows, FileRows, PackedRowsFrom, PlainRowsFrom, StoredAll, RowBytesFrom, Raster.Row, Format.RowIndex;
    if rle {
      PackedSplit(img, flip, 0);
      assert [] + PackedRowsFrom(img, flip, 0) == PackedRowsFrom(img, flip, 0);
      PackedRoundTrip(img, flip, 0);
    } else {
      PlainSplit(img, flip, 0);
      assert [] + PlainRowsFrom(img, flip, 0) == PlainRowsFrom(img, flip, 0);
      PlainRoundTrip(img, flip, 0);
    }
  }

  lemma DecodeParts(v: seq<nat>, body: seq<byte>, comp: nat, rle: bool)
    requires 1 <= comp <= 4 && |v| == 12 && v[0] == 0 && v[1] == 0 && v[3..8] == [0, 0, 0, 0, 0] && v[2] % 8 == FormatOf(comp)
    requires v[2] / 8 == (if rle then 1 else 0) && v[10] % 8 == 0 && v[10] / 8 == comp && v[11] == HasAlpha(comp) * 8
    ensures DecodeImage(v, body) == match ReadRows(body, comp, v[8], v[9], rle)
                                    case None => None
                                    case Some(rows) => Some((v[8], v[9], rows))
  {
    assert v[10] == 8 * comp && v[2] == FormatOf(comp) + (if rle then 8 else 0);
    hide ReadRows;
    match comp {
      case 1 =>
      case 2 =>
      case 3 =>
      case _ =>
    }
  }

  /** Reading a file gives back every pixel with all its channels, packed or not, exactly when the image is at
      most 65535 by 65535; a larger one is written all the same, with its size cut to sixteen bits. */
  lemma RoundTrip(img: Raster, rle: bool, flip: bool)
    requires img.Valid()
    ensures img.x < 0x1_0000 && img.y < 0x1_0000 <==>
            Decode(File(img, rle, flip)) == Some((img.x, img.y, FileRows(img, flip, 0)))
  {
    var body := if rle then PackedRows(img, flip, img.y) else TgaFormat(img.comp, flip).RowsBytes(img, img.y);
    var v := FieldsRoundTrip(Header(img.x, img.y, img.comp, rle), body);
    HeaderValues(img.x, img.y, img.comp, rle, v);
    HeaderWidths(img.x, img.y, img.comp, rle);
    BodyRoundTrip(img, rle, flip);
    hide FieldsBytes, ReadFields, ReadRows, FileRows, PackedRows, Format.RowsBytes, Header, ReadAs, Widths, FormatOf,
      HasAlpha, TgaFormat, DecodeImage;
    DecodeParts(v, body, img.comp, rle);
  }

  // ----- The encoder

  /** One packed row: scan, then write the packet found. */
  method WritePackedRow(s: Context, img: Raster, j: nat)
    requires s.Valid() && img.Valid() && j < img.y
    modifies s, s.buffer
    ensures s.Valid() && s.Written() == old(s.Written()) + RowBytesFrom(img.Row(j), img.comp, 0)
  {
    hide Context.Written, RowBytesFrom, PacketAt, PacketBytes, Length, Raster.Row;
    ghost var row, total := img.Row(j), s.Written() + RowBytesFrom(img.Row(j), img.comp, 0);
    var i := 0;
    while i < img.x
      invariant 0 <= i <= img.x && s.Valid()
      invariant s.Written() + RowBytesFrom(row, img.comp, i) == total
    {
      var len, diff := Scan(img, j, i);
      ghost var w, p := s.Written(), PacketAt(row, i);
      RowStep(row, img.comp, i);
      WritePacket(s, img, j, i, len, diff);
      SeqAssoc(w, PacketBytes(p), RowBytesFrom(row, img.comp, i + len));
      i := i + len;
    }
    RowEmpty(row, img.comp);
  }

  lemma RowStep(row: seq<Pixel>, comp: nat, i: nat)
    requires IsRow(row, comp) && i < |row|
    ensures WellFormed(PacketAt(row, i)) && 1 <= Length(PacketAt(row, i)) && i + Length(PacketAt(row, i)) <= |row|
    ensures RowBytesFrom(row, comp, i)
         == PacketBytes(PacketAt(row, i)) + RowBytesFrom(row, comp, i + Length(PacketAt(row, i)))
  {
    PacketSound(row, i);
    PacketWellFormed(row, comp, i);
    hide PacketAt, PacketBytes, Length;
  }

  lemma RowEmpty(row: seq<Pixel>, comp: nat)
    requires IsRow(row, comp)
    ensures RowBytesFrom(row, comp, |row|) == []
  {
  }

  /** Extends a list packet from two pixels on. */
  method ScanRaw(img: Raster, j: nat, i: nat) returns (len: nat)
    requires img.Valid() && j < img.y && i + 1 < img.x
    ensures i + len == RawEnd(img.Row(j), i, i + 2)
  {
    hide Raster.Pixel;
    ghost var row := img.Row(j);
    len := 2;
    var prev, k := i, i + 2;
    while k < img.x && len < 128
      invariant i + 2 <= k <= img.x && len == k - i <= 128 && prev == k - 2
      invariant RawEnd(row, i, k) == RawEnd(row, i, i + 2)
    {
      if img.Pixel(j, prev) != img.Pixel(j, k) {
        prev := prev + 1;
        len := len + 1;
      } else {
        len := len - 1;
        return;
      }
      k := k + 1;
    }
  }

  /** Extends a run from two equal pixels on. */
  method ScanRun(img: Raster, j: nat, i: nat) returns (len: nat)
    requires img.Valid() && j < img.y && i + 1 < img.x
    ensures i + len == RunEnd(img.Row(j), i, i + 2)
  {
    hide Raster.Pixel;
    ghost var row := img.Row(j);
    len := 2;
    var k := i + 2;
    while k < img.x && len < 128
      invariant i + 2 <= k <= img.x && len == k - i <= 128
      invariant RunEnd(row, i, k) == RunEnd(row, i, i + 2)
    {
      if img.Pixel(j, i) == img.Pixel(j, k) {
        len := len + 1;
      } else {
        break;
      }
      k := k + 1;
    }
  }

  /** The scan at pixel `i`: how many pixels the packet takes, and whether they differ. */
  method Scan(img: Raster, j: nat, i: nat) returns (len: nat, diff: bool)
    requires img.Valid() && j < img.y && i < img.x
    ensures len == Length(PacketAt(img.Row(j), i)) && diff == PacketAt(img.Row(j), i).Raw?
    ensures 1 <= len <= 128 && i + len <= img.x
  {
    PacketSound(img.Row(j), i);
    hide RawEnd, RunEnd, Raster.Pixel;
    diff := true;
    len := 1;
    if i < img.x - 1 {
      diff := img.Pixel(j, i) != img.Pixel(j, i + 1);
      if diff {
        len := ScanRaw(img, j, i);
      } else {
        len := ScanRun(img, j, i);
      }
    }
  }

  lemma PacketParts(row: seq<Pixel>, comp: nat, i: nat)
    requires IsRow(row, comp) && i < |row|
    ensures var p := PacketAt(row, i);
            var len := Length(p);
            && WellFormed(p) && i + len <= |row|
            && PacketBytes(p) == (if p.Raw? then [(len - 1) % 256] + StoredAll(row[i..i + len])
                                  else [(len - 129) % 256] + Stored(row[i]))
  {
    PacketSound(row, i);
    PacketWellFormed(row, comp, i);
    hide StoredAll, Stored, RawEnd, RunEnd;
  }

  /** Writes the packet found at pixel `i`. */
  method WritePacket(s: Context, img: Raster, j: nat, i: nat, len: nat, diff: bool)
    requires s.Valid() && img.Valid() && j < img.y && i < img.x
    requires 1 <= len <= 128 && i + len <= img.x
    requires len == Length(PacketAt(img.Row(j), i)) && diff == PacketAt(img.Row(j), i).Raw?
    modifies s, s.buffer
    ensures s.Valid() && WellFormed(PacketAt(img.Row(j), i))
    ensures s.Written() == old(s.Written()) + PacketBytes(PacketAt(img.Row(j), i))
  {
    hide Context.Written, Stored, StoredAll, PacketBytes, PacketAt, Raster.Pixel;
    ghost var row, w := img.Row(j), s.Written();
    PacketParts(row, img.comp, i);
    var hasAlpha := if img.comp == 2 || img.comp == 4 then 1 else 0;
    if diff {
      s.Write1((len - 1) % 256);
      WriteRun(s, img, j, i, len);
      SeqAssoc(w, [(len - 1) % 256], StoredAll(row[i..i + len]));
    } else {
      s.Write1((len - 129) % 256);
      StoredIs(img.Pixel(j, i));
      s.WritePixel(-1, hasAlpha, false, img.Pixel(j, i));
      SeqAssoc(w, [(len - 129) % 256], Stored(row[i]));
    }
  }

  /** The shared pixel writer, told to write alpha last and not to expand grey, stores these bytes. */
  lemma StoredIs(p: Pixel)
    requires 1 <= |p| <= 4
    ensures Stored(p) == PixelBytes(-1, HasAlpha(|p|), false, p)
  {
    hide Over;
    if |p| == 1 {
      assert p == [p[0]];
    } else if |p| == 2 {
      assert p == [p[0]] + [p[1]];
    } else if |p| == 3 {
      assert p[3..] == [];
    } else {
      assert p[3..] == [p[3]];
    }
  }

  /** The pixels of a list packet. */
  method WriteRun(s: Context, img: Raster, j: nat, i: nat, len: nat)
    requires s.Valid() && img.Valid() && j < img.y && i + len <= img.x
    modifies s, s.buffer
    ensures s.Valid() && s.Written() == old(s.Written()) + StoredAll(img.Row(j)[i..i + len])
  {
    hide Context.Written, Stored, StoredAll, Raster.Row, PixelBytes;
    ghost var row, w := img.Row(j), s.Written();
    var hasAlpha := if img.comp == 2 || img.comp == 4 then 1 else 0;
    var k := 0;
    NoneStored();
    assert row[i..i + 0] == [] && w + [] == w;
    while k < len
      invariant 0 <= k <= len && s.Valid()
      invariant s.Written() == w + StoredAll(row[i..i + k])
    {
      var p := img.Pixel(j, i + k);
      StoredIs(p);
      s.WritePixel(-1, hasAlpha, false, p);
      StoredAllSnoc(row[i..i + k], p);
      assert row[i..i + k] + [p] == row[i..i + (k + 1)];
      SeqAssoc(w, StoredAll(row[i..i + k]), Stored(p));
      k := k + 1;
    }
  }

  lemma NoneStored()
    ensures StoredAll([]) == []
  {
  }

  /** `stbi_write_tga_core`. */
  method WriteTga(s: Context, x: int, y: int, comp: nat, data: seq<byte>, rle: bool, flip: bool) returns (ok: bool)
    requires s.Valid() && s.bufUsed == 0 && s.delivered == []
    requires x >= 0 && y >= 0 ==> Raster(data, x, y, comp).Valid()
    modifies s, s.buffer
    ensures ok == (x >= 0 && y >= 0)
    ensures s.delivered == if ok then File(Raster(data, x, y, comp), rle, flip) else []
  {
    if y < 0 || x < 0 {
      return false;
    }
    hide FieldsBytes, Header, Format.RowsBytes, PackedRows, Context.Written;
    var img := Raster(data, x, y, comp);
    ghost var head := FieldsBytes(Header(x, y, comp, rle));
    assert [] + head == head;
    EmptyBuffer(s);
    Writef(s, Header(x, y, comp, rle));
    if !rle {
      WritePixels(s, img, Format(-1, -1, HasAlpha(comp), 0, false, flip));
    } else {
      WritePackedRows(s, img, flip);
      s.Flush();
    }
    ok := true;
  }

  method WritePackedRows(s: Context, img: Raster, flip: bool)
    requires s.Valid() && img.Valid()
    modifies s, s.buffer
    ensures s.Valid() && s.Written() == old(s.Written()) + PackedRows(img, flip, img.y)
  {
    hide RowBytesFrom, Context.Written, Raster.Row;
    var y: int := img.y;
    var j: int, jEnd: int, jDir: int := if flip then 0 else y - 1, if flip then y else -1, if flip then 1 else -1;
    ghost var k, w := 0, s.Written();
    assert w + [] == w;
    while j != jEnd
      invariant s.Valid() && 0 <= k <= y
      invariant j == if flip then k else y - 1 - k
      invariant s.Written() == w + PackedRows(img, flip, k)
      decreases y - k
    {
      WritePackedRow(s, img, j);
      SeqAssoc(w, PackedRows(img, flip, k), RowBytesFrom(img.Row(j), img.comp, 0));
      k := k + 1;
      j := j + jDir;
    }
  }

  lemma {:induction false} FileRowsAt(img: Raster, flip: bool, from: nat, k: nat)
    requires img.Valid() && from <= k < img.y
    ensures FileRows(img, flip, from)[k - from] == img.Row(TgaFormat(img.comp, flip).RowIndex(k, img.y))
    decreases k - from
  {
    hide TgaFormat, Raster.Row;
    if from < k {
      FileRowsAt(img, flip, from + 1, k);
    }
  }

  /** Where each pixel of the picture is found in the file: bottom row first, or top row first when flipped. */
  lemma PixelOfFile(img: Raster, flip: bool, k: nat, i: nat)
    requires img.Valid() && k < img.y && i < img.x
    ensures var row := FileRows(img, flip, 0)[k];
            |row| == img.x && row[i] == img.Pixel(if flip then k else img.y - 1 - k, i)
  {
    FileRowsAt(img, flip, 0, k);
    hide FileRows, Raster.Pixel;
  }
}
