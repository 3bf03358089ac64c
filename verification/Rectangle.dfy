/** Clipped rectangles drawn into a pixel buffer in place, for one to four bytes a pixel. */
module Rectangle {
  import opened Arith
  import opened Bits

  /** A set of pixels: a box of columns x0 to x1 and rows y0 to y1 (ends excluded), or a combination. */
  datatype Region = Box(x0: int, x1: int, y0: int, y1: int) | Union(a: Region, b: Region) | Minus(a: Region, b: Region) {
    predicate Has(x: int, y: int) {
      match this
      case Box(x0, x1, y0, y1) => x0 <= x < x1 && y0 <= y < y1
      case Union(a, b) => a.Has(x, y) || b.Has(x, y)
      case Minus(a, b) => a.Has(x, y) && !b.Has(x, y)
    }
  }

  /** The image size and the bytes of the pen, one per channel. */
  datatype Canvas = Canvas(w: nat, h: nat, pen: seq<byte>) {

    predicate Valid() {
      1 <= |pen| <= 4
    }

    /** The bytes the image takes. */
    function Size(): nat {
      (h * w) * |pen|
    }

    /** The column of byte `t`. */
    function X(t: nat): nat
      requires Valid() && t < Size()
    {
      WidthPositive(t);
      t / |pen| % w
    }

    /** The row of byte `t`. */
    function Y(t: nat): nat
      requires Valid() && t < Size()
    {
      WidthPositive(t);
      t / |pen| / w
    }

    lemma WidthPositive(t: nat)
      requires Valid() && t < Size()
      ensures w > 0
    {
    }
  }

  /** `after` is `before` with exactly the pixels of `r` that lie in the image painted. */
  ghost predicate Paints(c: Canvas, before: seq<byte>, after: seq<byte>, r: Region)
    requires c.Valid()
  {
    && |after| == |before|
    && forall t | 0 <= t < |before| ::
         after[t] == if t < c.Size() && r.Has(c.X(t), c.Y(t)) then c.pen[t % |c.pen|] else before[t]
  }

  lemma PaintsUnion(c: Canvas, a: seq<byte>, b: seq<byte>, d: seq<byte>, r: Region, s: Region)
    requires c.Valid() && Paints(c, a, b, r) && Paints(c, b, d, s)
    ensures Paints(c, a, d, Union(r, s))
  {
    hide Canvas.X, Canvas.Y, Canvas.Size;
  }

  /** Only the pixels inside the image matter. */
  lemma PaintsSame(c: Canvas, a: seq<byte>, b: seq<byte>, r: Region, s: Region)
    requires c.Valid() && Paints(c, a, b, r)
    requires forall x, y | 0 <= x < c.w && 0 <= y < c.h :: r.Has(x, y) <==> s.Has(x, y)
    ensures Paints(c, a, b, s)
  {
    forall t | 0 <= t < c.Size()
      ensures c.X(t) < c.w && c.Y(t) < c.h
    {
      InImage(c, t);
    }
    hide Canvas.X, Canvas.Y, Canvas.Size, Region.Has;
  }

  lemma InImage(c: Canvas, t: nat)
    requires c.Valid() && t < c.Size()
    ensures c.X(t) < c.w && c.Y(t) < c.h
  {
    var p := t / |c.pen|;
    if p >= c.h * c.w {
      MulMono(c.h * c.w, p, |c.pen|);
    }
    if p / c.w >= c.h {
      MulMono(c.h, p / c.w, c.w);
    }
  }

  /** The bytes of pixel (x, y) start at (y * w + x) times the channels, and only they belong to it. */
  lemma PixelBytes(c: Canvas, x: nat, y: nat)
    requires c.Valid() && x < c.w && y < c.h
    ensures 0 <= (y * c.w + x) * |c.pen| && (y * c.w + x) * |c.pen| + |c.pen| <= c.Size()
    ensures forall t | 0 <= t < c.Size() ::
              (c.X(t) == x && c.Y(t) == y) <==> (y * c.w + x) * |c.pen| <= t < (y * c.w + x) * |c.pen| + |c.pen|
  {
    var n, p := |c.pen|, y * c.w + x;
    MulMono(y + 1, c.h, c.w);
    assert (y + 1) * c.w == y * c.w + c.w;
    MulMono(p + 1, c.h * c.w, n);
    assert (p + 1) * n == p * n + n;
    forall t | 0 <= t < c.Size()
      ensures (c.X(t) == x && c.Y(t) == y) <==> p * n <= t < p * n + n
    {
      PixelOfByte(c, x, y, t);
    }
  }

  lemma PixelOfByte(c: Canvas, x: nat, y: nat, t: nat)
    requires c.Valid() && x < c.w && y < c.h && t < c.Size()
    ensures (c.X(t) == x && c.Y(t) == y) <==> (y * c.w + x) * |c.pen| <= t < (y * c.w + x) * |c.pen| + |c.pen|
  {
    var n, p := |c.pen|, y * c.w + x;
    QuotientUnique(p, c.w, y, x);
    var q := t / n;
    assert t == q * n + t % n;
    assert q == q / c.w * c.w + q % c.w;
    if p * n <= t < p * n + n {
      QuotientUnique(t, n, p, t - p * n);
    } else if q == p {
      assert false;
    }
  }

  /** Stores the pen into one pixel. */
  method SetPixel(c: Canvas, pixels: array<byte>, x: nat, y: nat)
    requires c.Valid() && c.Size() <= pixels.Length && x < c.w && y < c.h
    modifies pixels
    ensures Paints(c, old(pixels[..]), pixels[..], Box(x, x + 1, y, y + 1))
  {
    PixelBytes(c, x, y);
    var n := |c.pen|;
    var p := c.w * n * y;
    assert p + x * n == (y * c.w + x) * n;
    var base := p + x * n;
    hide Canvas.X, Canvas.Y, Canvas.Size;
    var k := 0;
    while k < n
      invariant 0 <= k <= n
      invariant forall t | 0 <= t < pixels.Length ::
                  pixels[t] == if base <= t < base + k then c.pen[t - base] else old(pixels[t])
    {
      pixels[base + k] := c.pen[k];
      k := k + 1;
    }
    forall t | base <= t < base + n
      ensures t % n == t - base
    {
      QuotientUnique(t, n, y * c.w + x, t - base);
    }
  }

  /** Painting two boxes one after the other paints any box made of exactly their pixels. */
  lemma PaintsJoined(c: Canvas, a: seq<byte>, b: seq<byte>, d: seq<byte>, r: Region, s: Region, whole: Region)
    requires c.Valid() && Paints(c, a, b, r) && Paints(c, b, d, s)
    requires forall x, y | 0 <= x < c.w && 0 <= y < c.h :: whole.Has(x, y) <==> r.Has(x, y) || s.Has(x, y)
    ensures Paints(c, a, d, whole)
  {
    PaintsUnion(c, a, b, d, r, s);
    PaintsSame(c, a, d, Union(r, s), whole);
  }

  lemma PaintsNothing(c: Canvas, a: seq<byte>, r: Region)
    requires c.Valid()
    requires forall x, y | 0 <= x < c.w && 0 <= y < c.h :: !r.Has(x, y)
    ensures Paints(c, a, a, r)
  {
    PaintsSame(c, a, a, Box(0, 0, 0, 0), r);
  }

  /** The inner loop of a strip drawn row by row: columns x0 to x1 of one row, clipped. */
  method FillRow(c: Canvas, pixels: array<byte>, x0: int, x1: int, y: nat)
    requires c.Valid() && c.Size() <= pixels.Length && y < c.h
    modifies pixels
    ensures Paints(c, old(pixels[..]), pixels[..], Box(x0, x1, y, y + 1))
  {
    hide Paints, Canvas.Size;
    var x := x0;
    ghost var was := pixels[..];
    PaintsNothing(c, was, Box(x0, x, y, y + 1));
    while x < x1
      invariant x0 <= x && (x <= x1 || x == x0)
      invariant Paints(c, was, pixels[..], Box(x0, x, y, y + 1))
      decreases x1 - x
    {
      ghost var now := pixels[..];
      if x < 0 {
        PaintsSame(c, was, now, Box(x0, x, y, y + 1), Box(x0, x + 1, y, y + 1));
        x := x + 1;
        continue;
      }
      if x >= c.w {
        break;
      }
      SetPixel(c, pixels, x, y);
      PaintsJoined(c, was, now, pixels[..], Box(x0, x, y, y + 1), Box(x, x + 1, y, y + 1), Box(x0, x + 1, y, y + 1));
      x := x + 1;
    }
    PaintsSame(c, was, pixels[..], Box(x0, x, y, y + 1), Box(x0, x1, y, y + 1));
  }

  /** A strip drawn row by row: the whole of a filled rectangle, and the top and bottom of an outline. */
  method FillRows(c: Canvas, pixels: array<byte>, x0: int, x1: int, y0: int, y1: int)
    requires c.Valid() && c.Size() <= pixels.Length
    modifies pixels
    ensures Paints(c, old(pixels[..]), pixels[..], Box(x0, x1, y0, y1))
  {
    hide Paints, Canvas.Size;
    var y := y0;
    ghost var was := pixels[..];
    PaintsNothing(c, was, Box(x0, x1, y0, y));
    while y < y1
      invariant y0 <= y && (y <= y1 || y == y0)
      invariant Paints(c, was, pixels[..], Box(x0, x1, y0, y))
      decreases y1 - y
    {
      ghost var now := pixels[..];
      if y < 0 {
        PaintsSame(c, was, now, Box(x0, x1, y0, y), Box(x0, x1, y0, y + 1));
        y := y + 1;
        continue;
      }
      if y >= c.h {
        break;
      }
      FillRow(c, pixels, x0, x1, y);
      PaintsJoined(c, was, now, pixels[..], Box(x0, x1, y0, y), Box(x0, x1, y, y + 1), Box(x0, x1, y0, y + 1));
      y := y + 1;
    }
    PaintsSame(c, was, pixels[..], Box(x0, x1, y0, y), Box(x0, x1, y0, y1));
  }

  /** The inner loop of a strip drawn column by column: rows y0 to y1 of one column, clipped. */
  method FillColumn(c: Canvas, pixels: array<byte>, x: nat, y0: int, y1: int)
    requires c.Valid() && c.Size() <= pixels.Length && x < c.w
    modifies pixels
    ensures Paints(c, old(pixels[..]), pixels[..], Box(x, x + 1, y0, y1))
  {
    hide Paints, Canvas.Size;
    var y := y0;
    ghost var was := pixels[..];
    PaintsNothing(c, was, Box(x, x + 1, y0, y));
    while y < y1
      invariant y0 <= y && (y <= y1 || y == y0)
      invariant Paints(c, was, pixels[..], Box(x, x + 1, y0, y))
      decreases y1 - y
    {
      ghost var now := pixels[..];
      if y < 0 {
        PaintsSame(c, was, now, Box(x, x + 1, y0, y), Box(x, x + 1, y0, y + 1));
        y := y + 1;
        continue;
      }
      if y >= c.h {
        break;
      }
      SetPixel(c, pixels, x, y);
      PaintsJoined(c, was, now, pixels[..], Box(x, x + 1, y0, y), Box(x, x + 1, y, y + 1), Box(x, x + 1, y0, y + 1));
      y := y + 1;
    }
    PaintsSame(c, was, pixels[..], Box(x, x + 1, y0, y), Box(x, x + 1, y0, y1));
  }

  /** A strip drawn column by column: the left and right of an outline. */
  method FillColumns(c: Canvas, pixels: array<byte>, x0: int, x1: int, y0: int, y1: int)
    requires c.Valid() && c.Size() <= pixels.Length
    modifies pixels
    ensures Paints(c, old(pixels[..]), pixels[..], Box(x0, x1, y0, y1))
  {
    hide Paints, Canvas.Size;
    var x := x0;
    ghost var was := pixels[..];
    PaintsNothing(c, was, Box(x0, x, y0, y1));
    while x < x1
      invariant x0 <= x && (x <= x1 || x == x0)
      invariant Paints(c, was, pixels[..], Box(x0, x, y0, y1))
      decreases x1 - x
    {
      ghost var now := pixels[..];
      if x < 0 {
        PaintsSame(c, was, now, Box(x0, x, y0, y1), Box(x0, x + 1, y0, y1));
        x := x + 1;
        continue;
      }
      if x >= c.w {
        break;
      }
      FillColumn(c, pixels, x, y0, y1);
      PaintsJoined(c, was, now, pixels[..], Box(x0, x, y0, y1), Box(x, x + 1, y0, y1), Box(x0, x + 1, y0, y1));
      x := x + 1;
    }
    PaintsSame(c, was, pixels[..], Box(x0, x, y0, y1), Box(x0, x1, y0, y1));
  }

  /** The rectangle asked for: position, size (either may be negative) and line thickness. */
  datatype Rect = Rect(x: int, y: int, w: int, h: int, thickness: int) {

    /** The part of the line outside the edge: half of the thickness, towards zero. */
    function T0(): int {
      if thickness >= 0 then thickness / 2 else -(-thickness / 2)
    }

    /** The part inside the edge. */
    function T1(): int {
      thickness - T0()
    }

    function Top(): Region {
      Box(x - T0(), x + w + T1(), y - T0(), y + T1())
    }

    function Bottom(): Region {
      Box(x - T0(), x + w + T1(), y + h - T0(), y + h + T1())
    }

    function Left(): Region {
      Box(x - T0(), x + T1(), y + T1(), y + h - T0())
    }

    function Right(): Region {
      Box(x + w - T0(), x + w + T1(), y + T1(), y + h - T0())
    }

    function Strips(): Region {
      Union(Union(Union(Top(), Bottom()), Left()), Right())
    }

    /** The frame a caller asks for: the box grown by the line's half, without the box shrunk by it. */
    function Frame(): Region {
      Minus(
        Box(x - T0(), x + w + T1(), y - T0(), y + h + T1()),
        Box(x + T1(), x + w - T0(), y + T1(), y + h - T0()))
    }

    /**
      * When the strips make up the frame: nothing is drawn at all, or the box is not inverted beyond
      * what the line covers.
      */
    predicate Regular() {
      || thickness <= 0
      || (h >= 0 && (w >= 0 || h <= thickness))
      || (h < 0 && w <= -thickness)
    }
  }

  /** The line is centred on the edge: at most half of it, and all but one pixel of half, lies outside. */
  lemma LineCentred(r: Rect)
    requires r.thickness >= 0
    ensures 0 <= r.T0() <= r.T1() <= r.T0() + 1 && r.T0() + r.T1() == r.thickness
  {
  }

  ghost predicate SamePixels(r: Region, s: Region) {
    forall x, y :: r.Has(x, y) <==> s.Has(x, y)
  }

  lemma StripsHas(r: Rect, x: int, y: int)
    ensures r.Strips().Has(x, y) <==>
              r.Top().Has(x, y) || r.Bottom().Has(x, y) || r.Left().Has(x, y) || r.Right().Has(x, y)
  {
    assert Union(r.Top(), r.Bottom()).Has(x, y) <==> r.Top().Has(x, y) || r.Bottom().Has(x, y);
  }

  /** The four strips are the frame exactly for the regular rectangles. */
  lemma StripsAreFrame(r: Rect)
    ensures SamePixels(r.Strips(), r.Frame()) <==> r.Regular()
  {
    var t := r.thickness;
    var t0, t1 := r.T0(), r.T1();
    if r.Regular() {
      StripsAreFrameIf(r);
    } else if r.h < 0 {
      // The top strip is drawn although the frame has no rows there.
      var x, y := r.x - t0, r.y + t1 - 1;
      StripsHas(r, x, y);
      assert r.Top().Has(x, y);
      assert !r.Frame().Has(x, y);
    } else {
      // The left strip is drawn although the frame has no such columns.
      var x, y := r.x + t1 - 1, r.y + t1;
      StripsHas(r, x, y);
      assert r.Left().Has(x, y);
      assert !r.Frame().Has(x, y);
    }
  }

  lemma StripsAreFrameIf(r: Rect)
    requires r.Regular()
    ensures SamePixels(r.Strips(), r.Frame())
  {
    forall x, y
      ensures r.Strips().Has(x, y) <==> r.Frame().Has(x, y)
    {
      StripsHas(r, x, y);
    }
  }

  /** Draws a filled rectangle (thickness -1) or the four strips of an outline, clipped to the image. */
  method DrawRectangle(c: Canvas, pixels: array<byte>, r: Rect)
    requires c.Valid() && c.Size() <= pixels.Length
    modifies pixels
    ensures r.thickness == -1 ==>
              Paints(c, old(pixels[..]), pixels[..], Box(r.x, r.x + r.w, r.y, r.y + r.h))
    ensures r.thickness != -1 ==> Paints(c, old(pixels[..]), pixels[..], r.Strips())
    ensures r.thickness != -1 && r.Regular() ==> Paints(c, old(pixels[..]), pixels[..], r.Frame())
  {
    hide Paints, Canvas.Size, Region.Has;
    ghost var was := pixels[..];
    if r.thickness == -1 {
      FillRows(c, pixels, r.x, r.x + r.w, r.y, r.y + r.h);
      return;
    }
    var t0 := r.T0();
    var t1 := r.thickness - t0;
    FillRows(c, pixels, r.x - t0, r.x + r.w + t1, r.y - t0, r.y + t1);
    ghost var top := pixels[..];
    FillRows(c, pixels, r.x - t0, r.x + r.w + t1, r.y + r.h - t0, r.y + r.h + t1);
    ghost var bottom := pixels[..];
    PaintsUnion(c, was, top, bottom, r.Top(), r.Bottom());
    FillColumns(c, pixels, r.x - t0, r.x + t1, r.y + t1, r.y + r.h - t0);
    ghost var left := pixels[..];
    PaintsUnion(c, was, bottom, left, Union(r.Top(), r.Bottom()), r.Left());
    FillColumns(c, pixels, r.x + r.w - t0, r.x + r.w + t1, r.y + t1, r.y + r.h - t0);
    PaintsUnion(c, was, left, pixels[..], Union(Union(r.Top(), r.Bottom()), r.Left()), r.Right());
    if r.Regular() {
      StripsAreFrameIf(r);
      PaintsSame(c, was, pixels[..], r.Strips(), r.Frame());
    }
  }
}
