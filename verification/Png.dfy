/** The PNG writer, and a reader (RFC 2083) that undoes it. */
module Png {
  import opened Arith
  import opened Bits
  import opened PngFilter
  import Crc32
  import CrcDivision
  import Zlib

  const SIGNATURE: seq<byte> := [137, 80, 78, 71, 13, 10, 26, 10]
  const IHDR: seq<byte> := [0x49, 0x48, 0x44, 0x52]
  const IDAT: seq<byte> := [0x49, 0x44, 0x41, 0x54]
  const IEND: seq<byte> := [0x49, 0x45, 0x4E, 0x44]

  // ----- What the encoder produces

  function CrcBytes(s: seq<byte>): (b: seq<byte>)
    ensures |b| == 4
  {
    CrcDivision.WordBytes(Crc32.Crc(s))
  }

  function Chunk(tag: seq<byte>, body: seq<byte>): seq<byte> {
    Be32(|body|) + tag + body + CrcBytes(tag + body)
  }

  /** The colour type of `n` channels: grey, grey and alpha, RGB, RGBA. */
  function ColorType(n: nat): (c: byte)
    requires 1 <= n <= 4
  {
    match n
    case 1 => 0
    case 2 => 4
    case 3 => 2
    case _ => 6
  }

  function Header(img: Image): seq<byte>
    requires img.Valid()
  {
    Be32(img.width) + Be32(img.height) + [8, ColorType(img.n), 0, 0, 0]
  }

  ghost function Compressed(img: Image, force: int, level: int): seq<byte>
    requires img.Valid()
  {
    Zlib.Encode(Filtered(img, force, img.height), level)
  }

  ghost function Encode(img: Image, force: int, level: int): seq<byte>
    requires img.Valid()
  {
    SIGNATURE + Chunk(IHDR, Header(img)) + Chunk(IDAT, Compressed(img, force, level)) + Chunk(IEND, [])
  }

  // ----- A reader

  datatype Picture = Picture(width: nat, height: nat, channels: nat, rows: seq<seq<byte>>)

  /** Reads one chunk: its type, its data, and what follows; type and data are divided to check the CRC. */
  function ReadChunk(s: seq<byte>): Option<(seq<byte>, seq<byte>, seq<byte>)> {
    if |s| < 12 then None
    else
      var n := FromBe32(s[..4]);
      if |s| < 12 + n then None
      else
        var tag, body := s[4..8], s[8..8 + n];
        if !CrcDivision.Checks(tag + body, s[8 + n..12 + n]) then None
        else Some((tag, body, s[12 + n..]))
  }

  function Channels(colorType: byte): Option<nat> {
    if colorType == 0 then Some(1)
    else if colorType == 4 then Some(2)
    else if colorType == 2 then Some(3)
    else if colorType == 6 then Some(4)
    else None
  }

  /** Rebuilds `k` rows of `len` bytes, each with its own filter byte and the row above it. */
  function ReadRows(f: seq<byte>, len: nat, n: nat, k: nat, prev: seq<byte>): Option<seq<seq<byte>>>
    decreases k
  {
    if k == 0 then (if f == [] then Some([]) else None)
    else if |f| < len + 1 || f[0] > 4 then None
    else
      var row := Unfilter(f[0], f[1..len + 1], prev, n, len);
      match ReadRows(f[len + 1..], len, n, k - 1, row)
      case None => None
      case Some(rows) => Some([row] + rows)
  }

  /** Reads a file of exactly one header, one data and one end chunk, eight bits a channel. */
  function Decode(s: seq<byte>): Option<Picture> {
    if |s| < 8 || s[..8] != [137, 80, 78, 71, 13, 10, 26, 10] then None
    else
      match ReadChunk(s[8..])
      case None => None
      case Some((tag1, head, s1)) =>
        match ReadChunk(s1)
        case None => None
        case Some((tag2, z, s2)) =>
          match ReadChunk(s2)
          case None => None
          case Some((tag3, last, s3)) =>
            if tag1 != [0x49, 0x48, 0x44, 0x52] || tag2 != [0x49, 0x44, 0x41, 0x54] then None // IHDR, IDAT
            else if tag3 != [0x49, 0x45, 0x4E, 0x44] || last != [] || s3 != [] then None        // IEND
            else ReadImage(head, z)
  }

  function ReadImage(head: seq<byte>, z: seq<byte>): Option<Picture> {
    if |head| != 13 || head[8] != 8 || head[10..] != [0, 0, 0] then None
    else
      match Channels(head[9])
      case None => None
      case Some(n) =>
        var w, h := FromBe32(head[..4]), FromBe32(head[4..8]);
        match Zlib.Decode(z)
        case None => None
        case Some(f) =>
          match ReadRows(f, w * n, n, h, [])
          case None => None
          case Some(rows) => Some(Picture(w, h, n, rows))
  }

  // ----- Reading undoes writing

  lemma Fits32(v: nat)
    requires v < 0x1_0000_0000
    ensures FromBe32(Be32(v)) == v
  {
    Be32Inverse(v);
  }

  lemma CrcFits(s: seq<byte>)
    ensures CrcDivision.Checks(s, CrcBytes(s))
  {
    CrcDivision.CrcChecks(s);
  }

  lemma ChunkRoundTrip(tag: seq<byte>, body: seq<byte>, rest: seq<byte>)
    requires |tag| == 4 && |body| < 0x1_0000_0000
    ensures ReadChunk(Chunk(tag, body) + rest) == Some((tag, body, rest))
  {
    hide CrcBytes, FromBe32, Be32, CrcDivision.Checks;
    CrcFits(tag + body);
    Fits32(|body|);
    var s := Chunk(tag, body) + rest;
    var n := |body|;
    assert s[..4] == Be32(n);
    assert s[4..8] == tag;
    assert s[8..8 + n] == body;
    assert s[8 + n..12 + n] == CrcBytes(tag + body);
    assert s[12 + n..] == rest;
  }

  /** The rows `y` to the last of the image, in the order written. */
  function RowsFrom(img: Image, y: nat): (rows: seq<seq<byte>>)
    requires img.Valid() && y <= img.height
    ensures |rows| == img.height - y
    decreases img.height - y
  {
    if y == img.height then [] else [img.Row(y)] + RowsFrom(img, y + 1)
  }

  /** The filtered rows `y` to the last. */
  function FilteredFrom(img: Image, force: int, y: nat): seq<byte>
    requires img.Valid() && y <= img.height
    decreases img.height - y
  {
    if y == img.height then [] else FilteredLine(img, y, force) + FilteredFrom(img, force, y + 1)
  }

  lemma {:induction false} FilteredSplit(img: Image, force: int, y: nat)
    requires img.Valid() && y <= img.height
    ensures Filtered(img, force, img.height) == Filtered(img, force, y) + FilteredFrom(img, force, y)
    decreases img.height - y
  {
    hide FilteredLine;
    if y == img.height {
      assert Filtered(img, force, y) + [] == Filtered(img, force, y);
    } else {
      FilteredSplit(img, force, y + 1);
      SeqAssoc(Filtered(img, force, y), FilteredLine(img, y, force), FilteredFrom(img, force, y + 1));
    }
  }

  lemma LineRoundTrip(img: Image, y: nat, force: int)
    requires img.Valid() && y < img.height
    ensures var f := FilteredLine(img, y, force);
            f[0] <= 4 && Unfilter(f[0], f[1..], img.Above(y), img.n, img.LineLength()) == img.Row(y)
  {
    hide FilterRow, Unfilter, LineFilter, Image.Row, Image.Above;
    var f := FilteredLine(img, y, force);
    assert f[1..] == FilterRow(LineFilter(img, y, force), img.Row(y), img.Above(y), img.n);
    UnfilterInverse(LineFilter(img, y, force), img.Row(y), img.Above(y), img.n, img.LineLength());
    assert img.Row(y)[..img.LineLength()] == img.Row(y);
  }

  lemma {:induction false} RowsRoundTrip(img: Image, force: int, y: nat, prev: seq<byte>)
    requires img.Valid() && y <= img.height
    requires y < img.height ==> prev == img.Above(y)
    ensures ReadRows(FilteredFrom(img, force, y), img.LineLength(), img.n, img.height - y, prev)
         == Some(RowsFrom(img, y))
    decreases img.height - y
  {
    hide FilteredLine, Unfilter, Image.Row;
    if y < img.height {
      var line, rest, len := FilteredLine(img, y, force), FilteredFrom(img, force, y + 1), img.LineLength();
      LineRoundTrip(img, y, force);
      assert (line + rest)[1..len + 1] == line[1..];
      assert (line + rest)[len + 1..] == rest;
      RowsRoundTrip(img, force, y + 1, img.Row(y));
    }
  }

  lemma ImageRoundTrip(img: Image, force: int, level: int)
    requires img.Valid() && img.width < 0x8000_0000 && img.height < 0x8000_0000
    ensures ReadImage(Header(img), Compressed(img, force, level))
         == Some(Picture(img.width, img.height, img.n, RowsFrom(img, 0)))
  {
    hide Zlib.Decode, Zlib.Encode, Filtered, FilteredFrom, RowsFrom, ReadRows, FromBe32, Be32;
    var head := Header(img);
    Fits32(img.width);
    Fits32(img.height);
    assert head[..4] == Be32(img.width) && head[4..8] == Be32(img.height) && head[10..] == [0, 0, 0];
    Zlib.RoundTrip(Filtered(img, force, img.height), level);
    FilteredSplit(img, force, 0);
    NothingFiltered(img, force);
    RowsRoundTrip(img, force, 0, []);
  }

  lemma NothingFiltered(img: Image, force: int)
    requires img.Valid()
    ensures Filtered(img, force, 0) + FilteredFrom(img, force, 0) == FilteredFrom(img, force, 0)
    ensures img.height > 0 ==> img.Above(0) == []
  {
    hide FilteredFrom;
  }

  /** Reading the written file gives back size, channels and every pixel row in written order, for any
      filter setting and compression level. */
  lemma RoundTrip(img: Image, force: int, level: int)
    requires img.Valid() && img.width < 0x8000_0000 && img.height < 0x8000_0000
    requires |Compressed(img, force, level)| < 0x8000_0000
    ensures Decode(Encode(img, force, level)) == Some(Picture(img.width, img.height, img.n, RowsFrom(img, 0)))
  {
    hide Chunk, ReadChunk, ReadImage, Header, Compressed, RowsFrom, FromBe32, Be32;
    var head, z := Header(img), Compressed(img, force, level);
    HeaderLength(img);
    var s := Encode(img, force, level);
    var rest2 := Chunk(IEND, []);
    var rest1 := Chunk(IDAT, z) + rest2;
    assert s[..8] == SIGNATURE;
    assert s[8..] == Chunk(IHDR, head) + rest1;
    ChunkRoundTrip(IHDR, head, rest1);
    ChunkRoundTrip(IDAT, z, rest2);
    assert rest2 == rest2 + [];
    ChunkRoundTrip(IEND, [], []);
    ImageRoundTrip(img, force, level);
  }

  lemma HeaderLength(img: Image)
    requires img.Valid()
    ensures |Header(img)| == 13
  {
  }

  /** Images of up to 1.6 thousand million filtered bytes keep every size inside a C int. */
  lemma SizesFit(img: Image, force: int, level: int)
    requires img.Valid() && img.height * (img.LineLength() + 1) <= 1_600_000_000
    ensures |Compressed(img, force, level)| < 0x7FFF_FF00
    ensures |Encode(img, force, level)| == 8 + 12 + 13 + 12 + |Compressed(img, force, level)| + 12 < 0x8000_0000
  {
    Zlib.EncodeLength(Filtered(img, force, img.height), level);
    HeaderLength(img);
    hide Zlib.Encode, Filtered, Header, CrcBytes;
  }

  // ----- The encoder

  /** The output block and the write pointer moving through it. */
  class Output {
    const out: array<byte>
    var o: nat

    constructor (size: nat)
      ensures fresh(out) && out.Length == size && o == 0
    {
      out := new byte[size](_ => 0);
      o := 0;
    }

    ghost predicate Valid()
      reads this
    {
      o <= out.Length
    }

    /** What lies before the write pointer. */
    ghost function Written(): seq<byte>
      reads this, out
      requires Valid()
    {
      out[..o]
    }

    method Put(b: byte)
      requires Valid() && o < out.Length
      modifies this, out
      ensures Valid() && o == old(o) + 1 && Written() == old(Written()) + [b]
    {
      out[o] := b;
      o := o + 1;
    }

    /** `memmove` of a block, then the pointer past it. */
    method Move(s: seq<byte>)
      requires Valid() && o + |s| <= out.Length
      modifies this, out
      ensures Valid() && o == old(o) + |s| && Written() == old(Written()) + s
    {
      var k := 0;
      while k < |s|
        invariant 0 <= k <= |s|
        invariant out[..o] == old(out[..o])
        invariant out[o..o + k] == s[..k]
        modifies out
      {
        out[o + k] := s[k];
        assert out[o..o + (k + 1)] == out[o..o + k] + [s[k]];
        k := k + 1;
      }
      assert out[..o + k] == out[..o] + out[o..o + k];
      o := o + k;
    }

    /** `stbiw__wpng4`. */
    method Put4(a: byte, b: byte, c: byte, d: byte)
      requires Valid() && o + 4 <= out.Length
      modifies this, out
      ensures Valid() && o == old(o) + 4 && Written() == old(Written()) + [a, b, c, d]
    {
      Put(a);
      Put(b);
      Put(c);
      Put(d);
    }

    /** `stbiw__wp32`. */
    method Put32(v: nat)
      requires Valid() && o + 4 <= out.Length
      modifies this, out
      ensures Valid() && o == old(o) + 4 && Written() == old(Written()) + Be32(v)
    {
      Put4(v / 0x100_0000 % 256, v / 0x1_0000 % 256, v / 0x100 % 256, v % 256);
    }

    /** `stbiw__wptag`. */
    method PutTag(s: seq<byte>)
      requires Valid() && o + 4 <= out.Length && |s| == 4
      modifies this, out
      ensures Valid() && o == old(o) + 4 && Written() == old(Written()) + s
    {
      Put4(s[0], s[1], s[2], s[3]);
    }

    /** `stbiw__wpcrc`: the CRC of the last `len` bytes and the four before them. */
    method PutCrc(len: nat)
      requires Valid() && len + 4 <= o && o + 4 <= out.Length
      modifies this, out
      ensures Valid() && o == old(o) + 4
      ensures Written() == old(Written()) + CrcBytes(old(Written())[old(o) - len - 4..])
    {
      var crc := Crc32.Crc32(out[o - len - 4..o]);
      assert out[o - len - 4..o] == Written()[o - len - 4..];
      var b := CrcDivision.WordBytes(crc);
      Put4(b[0], b[1], b[2], b[3]);
    }

    /** A whole chunk: length, tag, body, CRC. */
    method PutChunk(tag: seq<byte>, body: seq<byte>)
      requires Valid() && o + 12 + |body| <= out.Length && |tag| == 4
      modifies this, out
      ensures Valid() && o == old(o) + 12 + |body|
      ensures Written() == old(Written()) + Chunk(tag, body)
    {
      hide CrcBytes, Be32;
      ghost var w := Written();
      Put32(|body|);
      PutTag(tag);
      Move(body);
      assert Written()[o - |body| - 4..] == tag + body;
      PutCrc(|body|);
      Assoc5(w, Be32(|body|), tag, body, CrcBytes(tag + body));
    }
  }

  lemma Assoc5<T>(a: seq<T>, b: seq<T>, c: seq<T>, d: seq<T>, e: seq<T>)
    ensures a + b + c + d + e == a + (b + c + d + e)
  {
  }

  /** The filter pass: every row behind its filter byte, at its place in one block. */
  method FilterImage(img: Image, forceFilter: int) returns (filt: array<byte>)
    requires img.Valid()
    ensures fresh(filt) && filt[..] == Filtered(img, forceFilter, img.height)
  {
    hide FilteredLine, Filtered;
    var force := if forceFilter >= 5 then -1 else forceFilter;
    var rowLen := img.LineLength() + 1;
    filt := new byte[rowLen * img.height](_ => 0);
    var lineBuffer := new byte[img.LineLength()](_ => 0);
    var j := 0;
    FilteredStart(img, forceFilter);
    while j < img.height
      invariant 0 <= j <= img.height
      invariant 0 <= j * rowLen <= filt.Length
      invariant filt[..j * rowLen] == Filtered(img, forceFilter, j)
    {
      var filterType := FilterLine(img, j, force, lineBuffer);
      var at := j * rowLen;
      RowFits(j, img.height, rowLen);
      PlaceRow(filt, at, filterType, lineBuffer);
      SameFilter(img, j, forceFilter);
      FilteredNext(img, forceFilter, j);
      assert (j + 1) * rowLen == at + 1 + lineBuffer.Length;
      j := j + 1;
    }
    assert rowLen * img.height == j * rowLen;
    assert filt[..j * rowLen] == filt[..];
  }

  lemma FilteredStart(img: Image, force: int)
    requires img.Valid()
    ensures Filtered(img, force, 0) == []
  {
  }

  lemma FilteredNext(img: Image, force: int, j: nat)
    requires img.Valid() && j < img.height
    ensures Filtered(img, force, j + 1) == Filtered(img, force, j) + FilteredLine(img, j, force)
  {
    hide FilteredLine;
  }

  lemma RowFits(j: nat, h: nat, l: nat)
    requires j < h
    ensures j * l + l == (j + 1) * l <= l * h
  {
    MulMono(j + 1, h, l);
  }

  /** Settings past the last filter mean automatic, like negative ones. */
  lemma SameFilter(img: Image, y: nat, force: int)
    requires img.Valid() && y < img.height
    ensures FilteredLine(img, y, force) == FilteredLine(img, y, if force >= 5 then -1 else force)
  {
    hide BestUpTo, FilterRow;
  }

  method PlaceRow(filt: array<byte>, at: nat, filterType: byte, line: array<byte>)
    requires at + 1 + line.Length <= filt.Length && filt != line
    modifies filt
    ensures filt[..at + 1 + line.Length] == old(filt[..at]) + ([filterType] + old(line[..]))
  {
    filt[at] := filterType;
    forall k | 0 <= k < line.Length {
      filt[at + 1 + k] := line[k];
    }
  }

  /** `stbi_write_png_to_mem`. */
  method WriteToMem(pixels: seq<byte>, origin: nat, strideBytes: int, x: nat, y: nat, n: nat, flip: bool,
                    forceFilter: int, level: int) returns (out: array<byte>, outLen: nat)
    requires Image(pixels, origin, if strideBytes == 0 then x * n else strideBytes, x, y, n, flip).Valid()
    ensures var img := Image(pixels, origin, if strideBytes == 0 then x * n else strideBytes, x, y, n, flip);
            out[..] == Encode(img, forceFilter, level) && outLen == out.Length
  {
    hide Encode, Chunk, Filtered, Zlib.Encode, Zlib.Decode;
    var stride := if strideBytes == 0 then x * n else strideBytes;
    var img := Image(pixels, origin, stride, x, y, n, flip);
    var filt := FilterImage(img, forceFilter);
    var zlib := Zlib.Compress(filt[..], level);
    outLen := 8 + 12 + 13 + 12 + |zlib| + 12;
    var w := new Output(outLen);
    w.Move(SIGNATURE);
    HeaderLength(img);
    w.PutChunk(IHDR, Be32(x) + Be32(y) + [8, ColorType(n), 0, 0, 0]);
    w.PutChunk(IDAT, zlib);
    w.PutChunk(IEND, []);
    out := w.out;
    assert w.Written() == out[..];
    EncodeIs(img, forceFilter, level);
  }

  lemma EncodeIs(img: Image, force: int, level: int)
    requires img.Valid()
    ensures Encode(img, force, level)
         == [] + SIGNATURE + Chunk(IHDR, Header(img)) + Chunk(IDAT, Compressed(img, force, level)) + Chunk(IEND, [])
  {
    hide Chunk, Header, Compressed;
    assert [] + SIGNATURE == SIGNATURE;
  }

  lemma {:induction false} RowsFromAt(img: Image, y: nat, k: nat)
    requires img.Valid() && y <= k < img.height
    ensures RowsFrom(img, y)[k - y] == img.Row(k)
    decreases k - y
  {
    hide Image.Row;
    if y < k {
      RowsFromAt(img, y + 1, k);
    }
  }

  /** Where each byte of the picture is found in the caller's buffer: top row first, or bottom row first when flipped. */
  lemma ByteOfPicture(img: Image, k: nat, i: nat)
    requires img.Valid() && k < img.height && i < img.width * img.n
    ensures var at := img.origin + img.stride * (if img.flip then img.height - 1 - k else k) + i;
            var row := RowsFrom(img, 0)[k];
            0 <= at < |img.pixels| && |row| == img.width * img.n && row[i] == img.pixels[at]
  {
    RowsFromAt(img, 0, k);
    img.RowInside(k);
    hide RowsFrom;
  }

  lemma EndChunk()
    ensures Chunk(IEND, []) == [0, 0, 0, 0, 0x49, 0x45, 0x4E, 0x44, 0xAE, 0x42, 0x60, 0x82]
  {
    EndCrc();
    hide CrcBytes;
    assert IEND + [] == [0x49, 0x45, 0x4E, 0x44] && Be32(0) == [0, 0, 0, 0];
  }

  lemma EndCrc()
    ensures CrcBytes([0x49, 0x45, 0x4E, 0x44]) == [0xAE, 0x42, 0x60, 0x82]
  {
    CrcDivision.EndValue();
    CrcDivision.EndBytes();
    hide Crc32.Crc, CrcDivision.WordBytes;
  }

  /** The fixed bytes of every file: signature, length and tag of the header chunk, and the whole end chunk. */
  lemma FixedBytes(img: Image, force: int, level: int)
    requires img.Valid()
    ensures var s := Encode(img, force, level);
            && |s| >= 57 && s[..8] == [137, 80, 78, 71, 13, 10, 26, 10]
            && s[8..16] == [0, 0, 0, 13, 0x49, 0x48, 0x44, 0x52]
            && s[37..41] == [0x49, 0x44, 0x41, 0x54]
            && s[|s| - 12..] == [0, 0, 0, 0, 0x49, 0x45, 0x4E, 0x44, 0xAE, 0x42, 0x60, 0x82]
  {
    hide Chunk, Compressed, Header, CrcBytes, Be32;
    HeaderLength(img);
    EndChunk();
    var z := Compressed(img, force, level);
    ChunkStarts(IHDR, Header(img));
    ChunkStarts(IDAT, z);
    Slices(SIGNATURE, Chunk(IHDR, Header(img)), Chunk(IDAT, z), Chunk(IEND, []));
  }

  lemma Slices(a: seq<byte>, b: seq<byte>, c: seq<byte>, d: seq<byte>)
    requires |a| == 8 && |b| == 25 && |c| >= 12 && |d| == 12
    ensures var s := a + b + c + d;
            s[..8] == a && s[8..16] == b[..8] && s[37..41] == c[..8][4..] && s[|s| - 12..] == d
  {
    var s := a + b + c + d;
    assert s[8..16] == b[..8] && s[37..41] == c[..8][4..];
  }

  lemma ChunkStarts(tag: seq<byte>, body: seq<byte>)
    requires |tag| == 4
    ensures |Chunk(tag, body)| == 12 + |body| && Chunk(tag, body)[..8] == Be32(|body|) + tag
    ensures (Be32(|body|) + tag)[4..] == tag && Be32(13) == [0, 0, 0, 13]
  {
    hide CrcBytes;
  }
}
