/** What the overlap of two boxes is: pixels in both over pixels in either. */
module BoxOverlap {
  import opened Nms

  /** The pixels of a box given by its first and last columns and rows. */
  ghost function Pixels(x0: int, y0: int, x1: int, y1: int): set<(int, int)> {
    set x, y | x0 <= x <= x1 && y0 <= y <= y1 :: (x, y)
  }

  function Side(a: int, b: int): nat {
    if a <= b then b - a + 1 else 0
  }

  lemma {:induction false} ColumnCount(x: int, y0: int, y1: int)
    ensures |Pixels(x, y0, x, y1)| == Side(y0, y1)
    decreases y1 - y0
  {
    if y0 <= y1 {
      ColumnCount(x, y0, y1 - 1);
      assert Pixels(x, y0, x, y1) == Pixels(x, y0, x, y1 - 1) + {(x, y1)};
    } else {
      assert Pixels(x, y0, x, y1) == {};
    }
  }

  lemma OneColumnMore(x0: int, y0: int, x1: int, y1: int)
    requires x0 <= x1
    ensures |Pixels(x0, y0, x1, y1)| == |Pixels(x0, y0, x1 - 1, y1)| + |Pixels(x1, y0, x1, y1)|
  {
    var before, column := Pixels(x0, y0, x1 - 1, y1), Pixels(x1, y0, x1, y1);
    assert Pixels(x0, y0, x1, y1) == before + column && before !! column;
  }

  lemma {:induction false} PixelCount(x0: int, y0: int, x1: int, y1: int)
    ensures |Pixels(x0, y0, x1, y1)| == Side(x0, x1) * Side(y0, y1)
    decreases x1 - x0
  {
    if x0 <= x1 {
      PixelCount(x0, y0, x1 - 1, y1);
      ColumnCount(x1, y0, y1);
      OneColumnMore(x0, y0, x1, y1);
      hide Pixels;
      assert (Side(x0, x1 - 1) + 1) * Side(y0, y1) == Side(x0, x1 - 1) * Side(y0, y1) + Side(y0, y1);
    } else {
      assert Pixels(x0, y0, x1, y1) == {};
    }
  }

  function Larger(a: int, b: int): int {
    if a >= b then a else b
  }

  function Smaller(a: int, b: int): int {
    if a <= b then a else b
  }

  lemma CommonPixels(x0: int, y0: int, x1: int, y1: int, v0: int, w0: int, v1: int, w1: int)
    ensures Pixels(x0, y0, x1, y1) * Pixels(v0, w0, v1, w1)
         == Pixels(Larger(x0, v0), Larger(y0, w0), Smaller(x1, v1), Smaller(y1, w1))
  {
  }

  lemma UnionCount<T>(a: set<T>, b: set<T>)
    ensures |a + b| == |a| + |b| - |a * b|
  {
  }

  lemma {:induction false} ProductAsReal(a: nat, b: nat)
    ensures (a * b) as real == a as real * b as real
  {
    if a > 0 {
      ProductAsReal(a - 1, b);
      assert a * b == (a - 1) * b + b;
      assert a as real * b as real == (a - 1) as real * b as real + b as real;
    }
  }

  /** Sides as `CalculateOverlap` has them. */
  lemma SidesAsReal(a: int, b: int, c: int, d: int)
    ensures Max(0.0, Min(b as real, d as real) - Max(a as real, c as real) + 1.0) == Side(Larger(a, c), Smaller(b, d)) as real
    ensures a <= b + 1 ==> b as real - a as real + 1.0 == Side(a, b) as real
  {
  }

  /** For all boxes with whole corners: the overlap is the number of pixels in both divided by the number in
      either, 0 when there are none. */
  lemma OverlapCountsPixels(x0: int, y0: int, x1: int, y1: int, v0: int, w0: int, v1: int, w1: int)
    requires x0 <= x1 + 1 && y0 <= y1 + 1 && v0 <= v1 + 1 && w0 <= w1 + 1
    ensures var a, b := Pixels(x0, y0, x1, y1), Pixels(v0, w0, v1, w1);
            CalculateOverlap(x0 as real, y0 as real, x1 as real, y1 as real, v0 as real, w0 as real, v1 as real, w1 as real)
            == (if a + b == {} then 0.0 else |a * b| as real / |a + b| as real)
  {
    var a, b := Pixels(x0, y0, x1, y1), Pixels(v0, w0, v1, w1);
    var w, h := Side(Larger(x0, v0), Smaller(x1, v1)), Side(Larger(y0, w0), Smaller(y1, w1));
    var wa, ha, wb, hb := Side(x0, x1), Side(y0, y1), Side(v0, v1), Side(w0, w1);
    CommonPixels(x0, y0, x1, y1, v0, w0, v1, w1);
    PixelCount(x0, y0, x1, y1);
    PixelCount(v0, w0, v1, w1);
    PixelCount(Larger(x0, v0), Larger(y0, w0), Smaller(x1, v1), Smaller(y1, w1));
    UnionCount(a, b);
    SidesAsReal(x0, x1, v0, v1);
    SidesAsReal(y0, y1, w0, w1);
    SidesAsReal(v0, v1, x0, x1);
    SidesAsReal(w0, w1, y0, y1);
    ProductAsReal(w, h);
    ProductAsReal(wa, ha);
    ProductAsReal(wb, hb);
    hide Pixels, Side, Larger, Smaller, Max, Min;
    assert a + b == {} <==> |a + b| == 0;
    BySides(x0 as real, y0 as real, x1 as real, y1 as real, v0 as real, w0 as real, v1 as real, w1 as real,
            w as real, h as real, wa as real, ha as real, wb as real, hb as real);
  }

  /** The overlap from the sides of the common box and of the two boxes. */
  lemma BySides(x0: real, y0: real, x1: real, y1: real, v0: real, w0: real, v1: real, w1: real,
                w: real, h: real, wa: real, ha: real, wb: real, hb: real)
    requires w == Max(0.0, Min(x1, v1) - Max(x0, v0) + 1.0) && h == Max(0.0, Min(y1, w1) - Max(y0, w0) + 1.0)
    requires wa == x1 - x0 + 1.0 && ha == y1 - y0 + 1.0 && wb == v1 - v0 + 1.0 && hb == w1 - w0 + 1.0
    ensures var u := wa * ha + wb * hb - w * h;
            CalculateOverlap(x0, y0, x1, y1, v0, w0, v1, w1) == if u <= 0.0 then 0.0 else w * h / u
  {
    hide Max, Min;
  }

  /** The order of the two boxes does not matter. */
  lemma OverlapSymmetric(boxes: seq<real>, n: nat, m: nat)
    requires 4 * n + 4 <= |boxes| && 4 * m + 4 <= |boxes|
    ensures Overlap(boxes, n, m) == Overlap(boxes, m, n)
  {
    Swapped(boxes[n * 4 + 0], boxes[n * 4 + 1], boxes[n * 4 + 0] + boxes[n * 4 + 2], boxes[n * 4 + 1] + boxes[n * 4 + 3],
            boxes[m * 4 + 0], boxes[m * 4 + 1], boxes[m * 4 + 0] + boxes[m * 4 + 2], boxes[m * 4 + 1] + boxes[m * 4 + 3]);
    hide CalculateOverlap;
  }

  lemma Swapped(x0: real, y0: real, x1: real, y1: real, v0: real, w0: real, v1: real, w1: real)
    ensures CalculateOverlap(x0, y0, x1, y1, v0, w0, v1, w1) == CalculateOverlap(v0, w0, v1, w1, x0, y0, x1, y1)
  {
    var w, h := Max(0.0, Min(x1, v1) - Max(x0, v0) + 1.0), Max(0.0, Min(y1, w1) - Max(y0, w0) + 1.0);
    assert Min(x1, v1) == Min(v1, x1) && Max(x0, v0) == Max(v0, x0);
    assert Min(y1, w1) == Min(w1, y1) && Max(y0, w0) == Max(w0, y0);
    hide Max, Min, CalculateOverlap;
    BySides(x0, y0, x1, y1, v0, w0, v1, w1, w, h, x1 - x0 + 1.0, y1 - y0 + 1.0, v1 - v0 + 1.0, w1 - w0 + 1.0);
    BySides(v0, w0, v1, w1, x0, y0, x1, y1, w, h, v1 - v0 + 1.0, w1 - w0 + 1.0, x1 - x0 + 1.0, y1 - y0 + 1.0);
  }

  /** Nor does where they lie, only how they lie to each other. */
  lemma OverlapTranslated(x0: real, y0: real, x1: real, y1: real, v0: real, w0: real, v1: real, w1: real, dx: real, dy: real)
    ensures CalculateOverlap(x0 + dx, y0 + dy, x1 + dx, y1 + dy, v0 + dx, w0 + dy, v1 + dx, w1 + dy)
         == CalculateOverlap(x0, y0, x1, y1, v0, w0, v1, w1)
  {
    Shifted(x0, x1, v0, v1, dx);
    Shifted(y0, y1, w0, w1, dy);
    hide Max, Min, CalculateOverlap;
    var w, h := Max(0.0, Min(x1, v1) - Max(x0, v0) + 1.0), Max(0.0, Min(y1, w1) - Max(y0, w0) + 1.0);
    var wa, ha, wb, hb := x1 - x0 + 1.0, y1 - y0 + 1.0, v1 - v0 + 1.0, w1 - w0 + 1.0;
    BySides(x0, y0, x1, y1, v0, w0, v1, w1, w, h, wa, ha, wb, hb);
    BySides(x0 + dx, y0 + dy, x1 + dx, y1 + dy, v0 + dx, w0 + dy, v1 + dx, w1 + dy, w, h, wa, ha, wb, hb);
  }

  lemma Shifted(a: real, b: real, c: real, d: real, t: real)
    ensures Min(b + t, d + t) - Max(a + t, c + t) + 1.0 == Min(b, d) - Max(a, c) + 1.0
    ensures b + t - (a + t) + 1.0 == b - a + 1.0 && d + t - (c + t) + 1.0 == d - c + 1.0
  {
  }
}
