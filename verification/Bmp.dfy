/** The caller's raster, the shared row writer, and the BMP file with its reader. */
module Bmp {
  import opened Arith
  import opened Bits
  import opened WriteContext

  /** Rows of pixels of `comp` bytes, packed one after another. */
  datatype Raster = Raster(data: seq<byte>, x: nat, y: nat, comp: nat) {

    ghost predicate Valid() {
      1 <= comp <= 4 && (y * x) * comp <= |data|
    }

    lemma PixelInside(j: nat, i: nat)
      requires Valid() && j < y && i < x
      ensures 0 <= (j * x + i) * comp <= (j * x + i) * comp + comp <= |data|
    {
      assert j * x + x == (j + 1) * x <= y * x by {
        MulMono(j + 1, y, x);
      }
      MulMono(j * x + i + 1, y * x, comp);
      assert (j * x + i + 1) * comp == (j * x + i) * comp + comp;
    }

    /** Pixel `i` of row `j`. */
    function Pixel(j: nat, i: nat): (p: seq<byte>)
      requires Valid() && j < y && i < x
      ensures |p| == comp
    {
      PixelInside(j, i);
      data[(j * x + i) * comp..(j * x + i) * comp + comp]
    }

    function Row(j: nat): (r: seq<seq<byte>>)
      requires Valid() && j < y
      ensures |r| == x && forall i | 0 <= i < x :: r[i] == Pixel(j, i) && |r[i]| == comp
    {
      seq(x, i requires 0 <= i < x && Valid() && j < y => Pixel(j, i))
    }
  }

  /** How `stbiw__write_pixels` is told to write. */
  datatype Format = Format(rgbDir: int, vdir: int, writeAlpha: int, pad: nat, expandMono: bool, flip: bool) {

    predicate Valid() {
      (rgbDir == 1 || rgbDir == -1) && (vdir == 1 || vdir == -1) && pad <= 4
    }

    /** The raster row that goes out as row `k`: upside down when the direction says so. */
    function RowIndex(k: nat, y: nat): (j: nat)
      requires k < y
      ensures j < y
    {
      if (if flip then 0 - vdir else vdir) < 0 then y - 1 - k else k
    }

    function RowBytes(row: seq<seq<byte>>): seq<byte>
      requires Valid() && forall i | 0 <= i < |row| :: 1 <= |row[i]| <= 4
      decreases |row|
    {
      if row == [] then []
      else RowBytes(row[..|row| - 1]) + PixelBytes(rgbDir, writeAlpha, expandMono, row[|row| - 1])
    }

    /** The first `k` rows written, each padded with zeros. */
    function RowsBytes(img: Raster, k: nat): seq<byte>
      requires Valid() && img.Valid() && k <= img.y
    {
      if k == 0 then [] else RowsBytes(img, k - 1) + PaddedRow(img, RowIndex(k - 1, img.y))
    }

    function PaddedRow(img: Raster, j: nat): seq<byte>
      requires Valid() && img.Valid() && j < img.y
    {
      RowBytes(img.Row(j)) + Zeros(pad)
    }
  }

  lemma NoRowBytes(fmt: Format, row: seq<seq<byte>>, w: seq<byte>)
    requires fmt.Valid()
    ensures fmt.RowBytes(row[..0]) == [] && w + [] == w
  {
  }

  lemma RowBytesSnoc(fmt: Format, row: seq<seq<byte>>, i: nat)
    requires fmt.Valid() && i < |row| && forall k | 0 <= k < |row| :: 1 <= |row[k]| <= 4
    ensures fmt.RowBytes(row[..i + 1])
         == fmt.RowBytes(row[..i]) + PixelBytes(fmt.rgbDir, fmt.writeAlpha, fmt.expandMono, row[i])
  {
    hide PixelBytes;
    assert row[..i + 1][..i] == row[..i];
  }

  /** The inner loop of `stbiw__write_pixels`: one row through the buffer. */
  method WriteRow(s: Context, img: Raster, fmt: Format, j: nat)
    requires s.Valid() && img.Valid() && fmt.Valid() && j < img.y
    modifies s, s.buffer
    ensures s.Valid() && s.Written() == old(s.Written()) + fmt.RowBytes(img.Row(j))
  {
    hide Context.Written, PixelBytes, Raster.Row, Format.RowBytes;
    var i := 0;
    ghost var row, w := img.Row(j), s.Written();
    NoRowBytes(fmt, row, w);
    while i < img.x
      invariant 0 <= i <= img.x && s.Valid()
      invariant s.Written() == w + fmt.RowBytes(row[..i])
    {
      img.PixelInside(j, i);
      var d := img.data[(j * img.x + i) * img.comp..(j * img.x + i) * img.comp + img.comp];
      assert d == row[i];
      s.WritePixel(fmt.rgbDir, fmt.writeAlpha, fmt.expandMono, d);
      RowBytesSnoc(fmt, row, i);
      SeqAssoc(w, fmt.RowBytes(row[..i]), PixelBytes(fmt.rgbDir, fmt.writeAlpha, fmt.expandMono, d));
      i := i + 1;
    }
    assert row[..i] == row;
  }

  /** A row through the buffer, flushed before its padding goes out directly. */
  method WritePaddedRow(s: Context, img: Raster, fmt: Format, j: nat)
    requires s.Valid() && img.Valid() && fmt.Valid() && j < img.y
    modifies s, s.buffer
    ensures s.Valid() && s.bufUsed == 0
    ensures s.delivered == s.Written() == old(s.Written()) + fmt.PaddedRow(img, j)
  {
    hide Context.Written, Format.RowBytes, Raster.Row;
    ghost var w := s.Written();
    WriteRow(s, img, fmt, j);
    s.Flush();
    s.Func(Zeros(fmt.pad));
    SeqAssoc(w, fmt.RowBytes(img.Row(j)), Zeros(fmt.pad));
  }

  /** `stbiw__write_pixels`. */
  method WritePixels(s: Context, img: Raster, fmt: Format)
    requires s.Valid() && s.bufUsed == 0 && s.Written() == s.delivered && img.Valid() && fmt.Valid()
    modifies s, s.buffer
    ensures s.Valid() && s.bufUsed == 0
    ensures s.delivered == s.Written() == old(s.Written()) + fmt.RowsBytes(img, img.y)
  {
    hide Context.Written, Format.PaddedRow;
    ghost var w := s.Written();
    assert w + [] == w;
    if img.y <= 0 {
      return;
    }
    var vdir := if fmt.flip then 0 - fmt.vdir else fmt.vdir;
    var jEnd, j := if vdir < 0 then -1 else img.y, if vdir < 0 then img.y - 1 else 0;
    ghost var k := 0;
    while j != jEnd
      invariant s.Valid() && s.bufUsed == 0 && 0 <= k <= img.y
      invariant j == if vdir < 0 then img.y - 1 - k else k
      invariant s.delivered == s.Written() == w + fmt.RowsBytes(img, k)
      decreases img.y - k
    {
      WritePaddedRow(s, img, fmt, j);
      SeqAssoc(w, fmt.RowsBytes(img, k), fmt.PaddedRow(img, j));
      k := k + 1;
      j := j + vdir;
    }
  }

  // ----- The BMP file

  function Pad(x: nat): (p: nat)
    ensures p < 4 && (x * 3 + p) % 4 == 0
  {
    (0 - x * 3) % 4
  }

  /** The size the file header declares. */
  function DeclaredSize(x: nat, y: nat): (d: nat)
    ensures d >= 54
  {
    14 + 40 + (x * 3 + Pad(x)) * y
  }

  function Header(x: nat, y: nat): seq<Field> {
    [Field(1, 0x42), Field(1, 0x4D), Field(4, DeclaredSize(x, y)), Field(2, 0), Field(2, 0), Field(4, 14 + 40),
     Field(4, 40), Field(4, x), Field(4, y), Field(2, 1), Field(2, 24), Field(4, 0), Field(4, 0), Field(4, 0),
     Field(4, 0), Field(4, 0), Field(4, 0)]
  }

  /** BGR without alpha, bottom row first, grey expanded. */
  function BmpFormat(x: nat, flip: bool): (f: Format)
    ensures f.Valid()
  {
    Format(-1, -1, 0, Pad(x), true, flip)
  }

  function File(img: Raster, flip: bool): seq<byte>
    requires img.Valid()
  {
    FieldsBytes(Header(img.x, img.y)) + BmpFormat(img.x, flip).RowsBytes(img, img.y)
  }

  /** `stbi_write_bmp_core`: refuses negative sizes, otherwise writes the whole file. */
  method WriteBmp(s: Context, x: int, y: int, comp: nat, data: seq<byte>, flip: bool) returns (ok: bool)
    requires s.Valid() && s.bufUsed == 0 && s.delivered == []
    requires x >= 0 && y >= 0 ==> Raster(data, x, y, comp).Valid()
    modifies s, s.buffer
    ensures ok == (x >= 0 && y >= 0)
    ensures s.delivered == if ok then File(Raster(data, x, y, comp), flip) else []
  {
    if y < 0 || x < 0 {
      return false;
    }
    hide FieldsBytes, Header, Format.RowsBytes;
    var pad := (0 - x * 3) % 4;
    Writef(s, Header(x, y));
    EmptyBuffer(s);
    WritePixels(s, Raster(data, x, y, comp), Format(-1, -1, 0, pad, true, flip));
    ok := true;
    assert [] + FieldsBytes(Header(x, y)) == FieldsBytes(Header(x, y));
  }

  lemma EmptyBuffer(s: Context)
    requires s.Valid() && s.bufUsed == 0
    ensures s.Written() == s.delivered
  {
    assert s.buffer[..s.bufUsed] == [];
  }

  // ----- A reader

  /** The colour a pixel shows without its alpha: grey, the colour itself, or the colour over pink. */
  function Shown(p: seq<byte>): seq<byte>
    requires 1 <= |p| <= 4
  {
    if |p| <= 2 then [p[0], p[0], p[0]]
    else if |p| == 3 then p
    else [Over(255, p[0], p[3]), Over(0, p[1], p[3]), Over(255, p[2], p[3])]
  }

  function ShownRow(row: seq<seq<byte>>): (r: seq<seq<byte>>)
    requires forall i | 0 <= i < |row| :: 1 <= |row[i]| <= 4
    ensures |r| == |row|
    decreases |row|
  {
    if row == [] then [] else ShownRow(row[..|row| - 1]) + [Shown(row[|row| - 1])]
  }

  /** `w` pixels of three bytes each, blue first. */
  function ReadBgr(s: seq<byte>, w: nat): seq<seq<byte>>
    requires |s| == 3 * w
  {
    if w == 0 then [] else ReadBgr(s[..|s| - 3], w - 1) + [[s[|s| - 1], s[|s| - 2], s[|s| - 3]]]
  }

  /** `k` padded rows, in file order. */
  function ReadRows(s: seq<byte>, w: nat, pad: nat, k: nat): Option<seq<seq<seq<byte>>>>
    decreases k
  {
    if k == 0 then (if s == [] then Some([]) else None)
    else
      var n := 3 * w + pad;
      if |s| < n then None
      else
        match ReadRows(s[..|s| - n], w, pad, k - 1)
        case None => None
        case Some(rows) => Some(rows + [ReadBgr(s[|s| - n..|s| - pad], w)])
  }

  /** Reads a 24-bit uncompressed file whose declared size is its real size; rows in file order, bottom first. */
  function Decode(s: seq<byte>): Option<(nat, nat, seq<seq<seq<byte>>>)> {
    match ReadFields(s, [1, 1, 4, 2, 2, 4, 4, 4, 4, 2, 2, 4, 4, 4, 4, 4, 4])
    case None => None
    case Some((v, rest)) =>
      if |v| != 17 || v[0] != 0x42 || v[1] != 0x4D || v[2] != |s| || v[5] != 54 || v[6] != 40 then None
      else if v[9] != 1 || v[10] != 24 || v[3..5] != [0, 0] || v[11..] != [0, 0, 0, 0, 0, 0] then None
      else
        match ReadRows(rest, v[7], Pad(v[7]), v[8])
        case None => None
        case Some(rows) => Some((v[7], v[8], rows))
  }

  /** The shown rows in the order they go out. */
  function ShownRows(img: Raster, fmt: Format, k: nat): (r: seq<seq<seq<byte>>>)
    requires img.Valid() && k <= img.y
    ensures |r| == k
  {
    if k == 0 then [] else ShownRows(img, fmt, k - 1) + [ShownRow(img.Row(fmt.RowIndex(k - 1, img.y)))]
  }

  /** Blue, green, red: the stored bytes of a pixel are what it shows, backwards. */
  lemma PixelShown(p: seq<byte>)
    requires 1 <= |p| <= 4
    ensures |PixelBytes(-1, 0, true, p)| == 3
    ensures var b := PixelBytes(-1, 0, true, p); Shown(p) == [b[2], b[1], b[0]]
  {
    hide Over;
  }

  lemma ReadBgrSnoc(before: seq<byte>, b: seq<byte>, w: nat)
    requires |before| == 3 * w && |b| == 3
    ensures ReadBgr(before + b, w + 1) == ReadBgr(before, w) + [[b[2], b[1], b[0]]]
  {
    assert (before + b)[..3 * w] == before;
  }

  lemma {:induction false} RowRoundTrip(fmt: Format, row: seq<seq<byte>>)
    requires fmt.Valid() && fmt.rgbDir == -1 && fmt.writeAlpha == 0 && fmt.expandMono
    requires forall i | 0 <= i < |row| :: 1 <= |row[i]| <= 4
    ensures |fmt.RowBytes(row)| == 3 * |row|
    ensures ReadBgr(fmt.RowBytes(row), |row|) == ShownRow(row)
    decreases |row|
  {
    hide PixelBytes, Shown, ReadBgr;
    if row == [] {
      NothingRead();
    } else {
      var n := |row| - 1;
      RowRoundTrip(fmt, row[..n]);
      PixelShown(row[n]);
      ReadBgrSnoc(fmt.RowBytes(row[..n]), PixelBytes(-1, 0, true, row[n]), n);
    }
  }

  lemma NothingRead()
    ensures ReadBgr([], 0) == []
  {
  }

  lemma PaddedRowLength(img: Raster, fmt: Format, j: nat)
    requires img.Valid() && fmt.Valid() && fmt.rgbDir == -1 && fmt.writeAlpha == 0 && fmt.expandMono && j < img.y
    ensures |fmt.PaddedRow(img, j)| == img.x * 3 + fmt.pad
  {
    RowRoundTrip(fmt, img.Row(j));
  }

  lemma {:induction false} RowsLength(img: Raster, fmt: Format, k: nat)
    requires img.Valid() && fmt.Valid() && fmt.rgbDir == -1 && fmt.writeAlpha == 0 && fmt.expandMono && k <= img.y
    ensures |fmt.RowsBytes(img, k)| == (img.x * 3 + fmt.pad) * k
  {
    if k > 0 {
      hide Format.PaddedRow, Format.RowIndex;
      RowsLength(img, fmt, k - 1);
      PaddedRowLength(img, fmt, fmt.RowIndex(k - 1, img.y));
      MulNext(img.x * 3 + fmt.pad, k);
    }
  }

  lemma ReadRowsSnoc(before: seq<byte>, row: seq<byte>, w: nat, pad: nat, k: nat)
    requires k > 0 && |row| == 3 * w
    ensures ReadRows(before + (row + Zeros(pad)), w, pad, k) ==
            match ReadRows(before, w, pad, k - 1)
            case None => None
            case Some(rows) => Some(rows + [ReadBgr(row, w)])
  {
    hide ReadBgr;
    var s, n := before + (row + Zeros(pad)), 3 * w + pad;
    assert s[..|s| - n] == before && s[|s| - n..|s| - pad] == row;
  }

  /** Every stored row reads back as the row it shows. */
  lemma {:induction false} RowsRoundTrip(img: Raster, fmt: Format, k: nat)
    requires img.Valid() && fmt.Valid() && fmt.rgbDir == -1 && fmt.writeAlpha == 0 && fmt.expandMono && k <= img.y
    ensures ReadRows(fmt.RowsBytes(img, k), img.x, fmt.pad, k) == Some(ShownRows(img, fmt, k))
  {
    if k > 0 {
      hide Format.RowBytes, Raster.Row, ReadBgr, ShownRow, ReadRows;
      var row := img.Row(fmt.RowIndex(k - 1, img.y));
      RowsRoundTrip(img, fmt, k - 1);
      RowRoundTrip(fmt, row);
      ReadRowsSnoc(fmt.RowsBytes(img, k - 1), fmt.RowBytes(row), img.x, fmt.pad, k);
    }
  }

  lemma MulNext(l: nat, k: nat)
    requires k > 0
    ensures l * k == l * (k - 1) + l
  {
  }

  /** The total of the widths from field `i` on. */
  function Total(fs: seq<Field>, i: nat): nat
    requires i <= |fs|
    decreases |fs| - i
  {
    if i == |fs| then 0 else fs[i].width + Total(fs, i + 1)
  }

  lemma {:induction false} FieldsLength(fs: seq<Field>, i: nat)
    requires i <= |fs|
    ensures |FieldsBytes(fs[i..])| == Total(fs, i)
    decreases |fs| - i
  {
    if i < |fs| {
      FieldsLength(fs, i + 1);
      assert fs[i..][1..] == fs[i + 1..];
    }
  }

  lemma HeaderLength(x: nat, y: nat)
    ensures |FieldsBytes(Header(x, y))| == 54
  {
    hide DeclaredSize;
    var h := Header(x, y);
    FieldsLength(h, 0);
    assert h[0..] == h;
    hide FieldsBytes;
    assert Total(h, 16) == 4;
    assert Total(h, 15) == 8;
    assert Total(h, 14) == 12;
    assert Total(h, 13) == 16;
    assert Total(h, 12) == 20;
    assert Total(h, 11) == 24;
    assert Total(h, 10) == 26;
    assert Total(h, 9) == 28;
    assert Total(h, 8) == 32;
    assert Total(h, 7) == 36;
    assert Total(h, 6) == 40;
    assert Total(h, 5) == 44;
    assert Total(h, 4) == 46;
    assert Total(h, 3) == 48;
    assert Total(h, 2) == 52;
    assert Total(h, 1) == 53;
    assert Total(h, 0) == 54;
  }

  /** For every width, height and channel count the bytes delivered are exactly what the header declares,
      and the header says so unless the size leaves 32 bits. */
  lemma SizeIsDeclared(img: Raster, flip: bool)
    requires img.Valid()
    ensures |File(img, flip)| == DeclaredSize(img.x, img.y)
    ensures var f := FromLe(File(img, flip)[2..6]);
            f == |File(img, flip)| <==> |File(img, flip)| < 0x1_0000_0000
  {
    RowsLength(img, BmpFormat(img.x, flip), img.y);
    HeaderLength(img.x, img.y);
    SizeField(img.x, img.y);
    hide FieldsBytes, Header, Format.RowsBytes, Le, FromLe;
    assert File(img, flip)[2..6] == FieldsBytes(Header(img.x, img.y))[2..6];
    LeInverse(DeclaredSize(img.x, img.y), 4);
    Pow256Values();
  }

  lemma SizeField(x: nat, y: nat)
    ensures |FieldsBytes(Header(x, y))| == 54
    ensures FieldsBytes(Header(x, y))[2..6] == Le(DeclaredSize(x, y), 4)
  {
    HeaderLength(x, y);
    var h := Header(x, y);
    hide Le, DeclaredSize;
    var rest := FieldsBytes(h[3..]);
    assert h[1..][1..] == h[2..] && h[2..][1..] == h[3..];
    assert FieldsBytes(h[2..]) == Le(DeclaredSize(x, y), 4) + rest;
    assert FieldsBytes(h) == Le(0x42, 1) + (Le(0x4D, 1) + FieldsBytes(h[2..]));
  }

  lemma HeaderValues(x: nat, y: nat, v: seq<nat>)
    requires ReadAs(Header(x, y), v) && x < 0x8000_0000 && y < 0x8000_0000
    ensures |v| == 17 && v[0] == 0x42 && v[1] == 0x4D && v[5] == 54 && v[6] == 40
    ensures v[7] == x && v[8] == y && v[9] == 1 && v[10] == 24
    ensures v[3..5] == [0, 0] && v[11..] == [0, 0, 0, 0, 0, 0]
    ensures v[2] == DeclaredSize(x, y) <==> DeclaredSize(x, y) < 0x1_0000_0000
    ensures v[2] < 0x1_0000_0000
  {
    Pow256Values();
    hide Pow256, DeclaredSize;
    var h := Header(x, y);
    assert ReadsAs(h[0], v[0]) && ReadsAs(h[1], v[1]) && ReadsAs(h[2], v[2]) && ReadsAs(h[5], v[5]);
    assert ReadsAs(h[6], v[6]) && ReadsAs(h[7], v[7]) && ReadsAs(h[8], v[8]) && ReadsAs(h[9], v[9]);
    assert ReadsAs(h[10], v[10]) && ReadsAs(h[11], v[11]) && ReadsAs(h[3], v[3]) && ReadsAs(h[4], v[4]);
    assert ReadsAs(h[12], v[12]) && ReadsAs(h[13], v[13]) && ReadsAs(h[14], v[14]) && ReadsAs(h[15], v[15]);
    assert ReadsAs(h[16], v[16]);
  }

  lemma HeaderWidths(x: nat, y: nat)
    ensures Widths(Header(x, y)) == [1, 1, 4, 2, 2, 4, 4, 4, 4, 2, 2, 4, 4, 4, 4, 4, 4]
  {
    hide DeclaredSize;
  }

  /** The reader accepts the file exactly when its size fits the header field, and then sees every pixel. */
  lemma RoundTrip(img: Raster, flip: bool)
    requires img.Valid()
    requires img.x < 0x8000_0000 && img.y < 0x8000_0000
    ensures Decode(File(img, flip)) ==
            if |File(img, flip)| < 0x1_0000_0000
            then Some((img.x, img.y, ShownRows(img, BmpFormat(img.x, flip), img.y)))
            else None
  {
    var v := FieldsRoundTrip(Header(img.x, img.y), BmpFormat(img.x, flip).RowsBytes(img, img.y));
    HeaderValues(img.x, img.y, v);
    HeaderWidths(img.x, img.y);
    SizeIsDeclared(img, flip);
    RowsRoundTrip(img, BmpFormat(img.x, flip), img.y);
    hide FieldsBytes, ReadFields, Format.RowsBytes, ReadRows, ShownRows, FromLe, Header, Widths, DeclaredSize, ReadAs, Pad;
  }

  lemma {:induction false} ShownRowsAt(img: Raster, fmt: Format, n: nat, k: nat)
    requires img.Valid() && k < n <= img.y
    ensures ShownRows(img, fmt, n)[k] == ShownRow(img.Row(fmt.RowIndex(k, img.y)))
    decreases n
  {
    if k < n - 1 {
      ShownRowsAt(img, fmt, n - 1, k);
    }
  }

  lemma {:induction false} ShownRowAt(row: seq<seq<byte>>, i: nat)
    requires i < |row| && forall k | 0 <= k < |row| :: 1 <= |row[k]| <= 4
    ensures ShownRow(row)[i] == Shown(row[i])
    decreases |row|
  {
    if i < |row| - 1 {
      ShownRowAt(row[..|row| - 1], i);
    }
  }

  /** Where each pixel of the picture is found in the file: bottom row first, or top row first when flipped. */
  lemma PixelOfFile(img: Raster, flip: bool, k: nat, i: nat)
    requires img.Valid() && k < img.y && i < img.x
    ensures var row := ShownRows(img, BmpFormat(img.x, flip), img.y)[k];
            |row| == img.x && row[i] == Shown(img.Pixel(if flip then k else img.y - 1 - k, i))
  {
    hide ShownRows, ShownRow, Shown, Raster.Pixel, Raster.Row, Over;
    var fmt := BmpFormat(img.x, flip);
    ShownRowsAt(img, fmt, img.y, k);
    ShownRowAt(img.Row(fmt.RowIndex(k, img.y)), i);
  }
}
