/** The five PNG row filters, the first-row substitutes, and the choice among them. */
module PngFilter {
  import opened Arith
  import opened Bits

  function Abs(x: int): nat {
    if x < 0 then -x else x
  }

  /** `stbiw__paeth`. */
  function Paeth(a: int, b: int, c: int): int {
    var p := a + b - c;
    var pa, pb, pc := Abs(p - a), Abs(p - b), Abs(p - c);
    if pa <= pb && pa <= pc then a
    else if pb <= pc then b
    else c
  }

  /** The Paeth predictor is the neighbour nearest to a + b - c, ties going to a, then b. */
  lemma PaethNearest(a: int, b: int, c: int)
    ensures var r, p := Paeth(a, b, c), a + b - c;
            && r in [a, b, c]
            && Abs(p - r) <= Abs(p - a) && Abs(p - r) <= Abs(p - b) && Abs(p - r) <= Abs(p - c)
            && (Abs(p - a) == Abs(p - r) ==> r == a)
            && (Abs(p - b) == Abs(p - r) && r != a ==> r == b)
  {
  }

  // ----- The standard's filters (RFC 2083, sections 6.2 to 6.6)

  function Predict(ft: nat, a: byte, b: byte, c: byte): (p: byte)
    requires ft <= 4
  {
    match ft
    case 0 => 0
    case 1 => a
    case 2 => b
    case 3 => (a as int + b as int) / 2
    case _ => Paeth(a, b, c)
  }

  /** The five predictions by their meaning: nothing, left, above, the mean of both rounded down, and the
      neighbour nearest to left + above - upper left. */
  lemma PredictIs(a: byte, b: byte, c: byte)
    ensures Predict(0, a, b, c) == 0 && Predict(1, a, b, c) == a && Predict(2, a, b, c) == b
    ensures 0 <= a + b - 2 * Predict(3, a, b, c) <= 1
    ensures var p, r := a + b - c, Predict(4, a, b, c);
            && (r == a || r == b || r == c)
            && Abs(p - r) <= Abs(p - a) && Abs(p - r) <= Abs(p - b) && Abs(p - r) <= Abs(p - c)
            && (r != a ==> Abs(p - r) < Abs(p - a)) && (r != a && r != b ==> Abs(p - r) < Abs(p - b))
  {
    PaethNearest(a, b, c);
  }

  function At(s: seq<byte>, i: int): byte {
    if 0 <= i < |s| then s[i] else 0
  }

  /** The predicted byte at `i`: left, above and upper left, `n` bytes per pixel, absent ones zero. */
  function PredictAt(ft: nat, cur: seq<byte>, prev: seq<byte>, n: nat, i: nat): byte
    requires ft <= 4
  {
    Predict(ft, At(cur, i - n), At(prev, i), At(prev, i - n))
  }

  /** The filtered row: byte differences modulo 256. */
  function FilterRow(ft: nat, cur: seq<byte>, prev: seq<byte>, n: nat): (r: seq<byte>)
    requires ft <= 4
    ensures |r| == |cur|
  {
    seq(|cur|, i requires 0 <= i < |cur| => (cur[i] - PredictAt(ft, cur, prev, n, i)) % 256)
  }

  /** The standard's reconstruction of the first `k` bytes, each from those already rebuilt. */
  function Unfilter(ft: nat, f: seq<byte>, prev: seq<byte>, n: nat, k: nat): (r: seq<byte>)
    requires ft <= 4 && k <= |f|
    ensures |r| == k
  {
    if k == 0 then []
    else
      var r := Unfilter(ft, f, prev, n, k - 1);
      r + [(f[k - 1] + PredictAt(ft, r, prev, n, k - 1)) % 256]
  }

  lemma AddBack(x: byte, p: byte)
    ensures ((x as int - p as int) % 256 + p as int) % 256 == x
  {
  }

  /** Every filter is undone byte for byte. */
  lemma {:induction false} UnfilterInverse(ft: nat, cur: seq<byte>, prev: seq<byte>, n: nat, k: nat)
    requires ft <= 4 && n >= 1 && k <= |cur|
    ensures Unfilter(ft, FilterRow(ft, cur, prev, n), prev, n, k) == cur[..k]
  {
    if k > 0 {
      UnfilterInverse(ft, cur, prev, n, k - 1);
      assert PredictAt(ft, cur[..k - 1], prev, n, k - 1) == PredictAt(ft, cur, prev, n, k - 1);
      AddBack(cur[k - 1], PredictAt(ft, cur, prev, n, k - 1));
      assert cur[..k] == cur[..k - 1] + [cur[k - 1]];
    }
  }

  // ----- The encoder's line filter

  /** The layout of the caller's pixels: the first row starts at `origin` of the buffer, and each row `stride`
      bytes after the last, or before it when the stride is negative; rows may share bytes. */
  datatype Image = Image(pixels: seq<byte>, origin: nat, stride: int, width: nat, height: nat, n: nat, flip: bool) {

    function LineLength(): nat {
      width * n
    }

    ghost predicate Valid() {
      && width >= 1 && 1 <= n <= 4
      && (height > 0 ==>
            && origin + LineLength() <= |pixels|
            && 0 <= origin + stride * (height - 1) <= |pixels| - LineLength())
    }

    /** Where written row `y` starts in the buffer. */
    function RowStart(y: nat): int {
      origin + stride * (if flip then height - 1 - y else y)
    }

    function SignedStride(): int {
      if flip then 0 - stride else stride
    }

    /** Row `y` in the order the file holds them. */
    function Row(y: nat): (r: seq<byte>)
      requires Valid() && y < height
      ensures |r| == LineLength()
    {
      RowInside(y);
      pixels[RowStart(y)..RowStart(y) + LineLength()]
    }

    /** The row written before row `y`; none before the first. */
    function Above(y: nat): seq<byte>
      requires Valid() && y < height
    {
      if y == 0 then [] else Row(y - 1)
    }

    lemma RowInside(y: nat)
      requires Valid() && y < height
      ensures 0 <= RowStart(y) <= RowStart(y) + LineLength() <= |pixels|
      ensures y > 0 ==> RowStart(y - 1) == RowStart(y) - SignedStride()
    {
      var r := if flip then height - 1 - y else y;
      Between(r, height - 1, stride);
    }
  }

  /** What the table of substitutes for the first row says. */
  function FirstRowType(ft: nat): nat
    requires ft <= 4
  {
    match ft
    case 0 => 0
    case 1 => 1
    case 2 => 0
    case 3 => 5
    case _ => 6
  }

  /** The byte the first loop stores, given the byte and the one above it. */
  function FirstPixelByte(t: nat, z: byte, up: byte): byte {
    match t
    case 2 => (z - up) % 256
    case 3 => (z - up / 2) % 256
    case 4 => (z - Paeth(0, up, 0) % 256) % 256
    case _ => z
  }

  /** The byte the other loops store, given the byte and its left, upper and upper-left neighbours. */
  function OtherByte(t: nat, z: byte, left: byte, up: byte, upLeft: byte): byte {
    match t
    case 1 => (z - left) % 256
    case 2 => (z - up) % 256
    case 3 => (z - (left as int + up as int) / 2) % 256
    case 4 => (z - Paeth(left, up, upLeft) % 256) % 256
    case 5 => (z - left / 2) % 256
    case _ => (z - Paeth(left, 0, 0) % 256) % 256
  }

  lemma FirstPixelIsStandard(ft: nat, first: bool, z: byte, up: byte)
    requires ft <= 4 && (first ==> up == 0)
    ensures FirstPixelByte(if first then FirstRowType(ft) else ft, z, up) == (z - Predict(ft, 0, up, 0)) % 256
  {
    PaethOfLeft(0);
    ByteOfByte(Predict(ft, 0, up, 0));
    ByteOfByte(z);
    hide Paeth;
  }

  /** The substitutes of the first row are the standard filters with zeros above. */
  lemma OtherIsStandard(ft: nat, first: bool, z: byte, left: byte, up: byte, upLeft: byte)
    requires ft <= 4 && (first ==> up == 0 && upLeft == 0)
    requires !(ft == 0 || (first && ft == 2))
    ensures OtherByte(if first then FirstRowType(ft) else ft, z, left, up, upLeft)
         == (z - Predict(ft, left, up, upLeft)) % 256
  {
    PaethOfLeft(left);
    ByteOfByte(Predict(ft, left, up, upLeft));
    hide Paeth;
    match ft {
      case 0 =>
      case 1 =>
      case 2 =>
      case 3 =>
      case _ =>
    }
  }

  lemma PaethOfLeft(left: byte)
    ensures Paeth(left, 0, 0) == left
  {
  }

  lemma ByteOfByte(b: byte)
    ensures b % 256 == b
  {
  }

  /** The byte the standard wants at position `i` of filtered row `y`. */
  function Want(img: Image, y: nat, ft: nat, i: nat): byte
    requires img.Valid() && y < img.height && ft <= 4 && i < img.LineLength()
  {
    FilterRow(ft, img.Row(y), img.Above(y), img.n)[i]
  }

  /** The byte above position `i`, read through the signed stride; zero above the first row. */
  function UpByte(img: Image, y: nat, i: nat): byte
    requires img.Valid() && y < img.height && i < img.LineLength()
  {
    if y == 0 then 0 else img.Row(y - 1)[i]
  }

  lemma UpByteAt(img: Image, y: nat, i: nat)
    requires img.Valid() && 0 < y < img.height && i < img.LineLength()
    ensures 0 <= img.RowStart(y) + i - img.SignedStride() < |img.pixels|
    ensures UpByte(img, y, i) == img.pixels[img.RowStart(y) + i - img.SignedStride()]
  {
    img.RowInside(y);
    img.RowInside(y - 1);
  }

  lemma RowByteAt(img: Image, y: nat, i: nat)
    requires img.Valid() && y < img.height && i < img.LineLength()
    ensures 0 <= img.RowStart(y) + i < |img.pixels|
    ensures img.Row(y)[i] == img.pixels[img.RowStart(y) + i]
  {
    img.RowInside(y);
  }

  lemma PlainWanted(img: Image, y: nat, ft: nat, i: nat)
    requires img.Valid() && y < img.height && ft <= 4 && i < img.LineLength()
    requires ft == 0 || (y == 0 && ft == 2)
    ensures img.Row(y)[i] == Want(img, y, ft, i)
  {
    hide Image.Row;
  }

  lemma FirstWanted(img: Image, y: nat, ft: nat, i: nat)
    requires img.Valid() && y < img.height && ft <= 4 && i < img.LineLength() && i < img.n
    ensures FirstPixelByte(if y == 0 then FirstRowType(ft) else ft, img.Row(y)[i], UpByte(img, y, i))
         == Want(img, y, ft, i)
  {
    FirstPixelIsStandard(ft, y == 0, img.Row(y)[i], UpByte(img, y, i));
    hide Predict, FirstPixelByte, FirstRowType, Image.Row;
    assert At(img.Above(y), i) == UpByte(img, y, i);
  }

  lemma OtherWanted(img: Image, y: nat, ft: nat, i: nat)
    requires img.Valid() && y < img.height && ft <= 4 && img.n <= i < img.LineLength()
    requires !(ft == 0 || (y == 0 && ft == 2))
    ensures OtherByte(if y == 0 then FirstRowType(ft) else ft, img.Row(y)[i], img.Row(y)[i - img.n],
                      UpByte(img, y, i), UpByte(img, y, i - img.n))
         == Want(img, y, ft, i)
  {
    OtherIsStandard(ft, y == 0, img.Row(y)[i], img.Row(y)[i - img.n], UpByte(img, y, i), UpByte(img, y, i - img.n));
    hide Predict, OtherByte, FirstRowType, Image.Row;
    assert At(img.Above(y), i) == UpByte(img, y, i);
    assert At(img.Above(y), i - img.n) == UpByte(img, y, i - img.n);
  }

  /** `stbiw__encode_png_line`. */
  method EncodeLine(img: Image, y: nat, filterType: nat, lineBuffer: array<byte>)
    requires img.Valid() && y < img.height && filterType <= 4
    requires lineBuffer.Length == img.LineLength()
    modifies lineBuffer
    ensures lineBuffer[..] == FilterRow(filterType, img.Row(y), img.Above(y), img.n)
  {
    hide FilterRow, Image.Row, Image.Above, FirstPixelByte, OtherByte, UpByte;
    var t := if y != 0 then filterType else FirstRowType(filterType);
    var z := img.origin + img.stride * (if img.flip then img.height - 1 - y else y);
    var signedStride: int := if img.flip then 0 - img.stride else img.stride;
    var len, n := img.LineLength(), img.n;
    LineAtLeastPixel(img.width, n);
    var i := 0;
    if t == 0 {
      while i < len
        invariant 0 <= i <= len
        invariant forall k | 0 <= k < i :: lineBuffer[k] == Want(img, y, filterType, k)
      {
        RowByteAt(img, y, i);
        PlainWanted(img, y, filterType, i);
        lineBuffer[i] := img.pixels[z + i];
        i := i + 1;
      }
      return;
    }
    while i < n
      invariant 0 <= i <= n
      invariant forall k | 0 <= k < i :: lineBuffer[k] == Want(img, y, filterType, k)
    {
      RowByteAt(img, y, i);
      FirstWanted(img, y, filterType, i);
      var up := ReadUp(img, y, z + i - signedStride, i);
      lineBuffer[i] := FirstPixelByte(t, img.pixels[z + i], up);
      i := i + 1;
    }
    while i < len
      invariant n <= i <= len
      invariant forall k | 0 <= k < i :: lineBuffer[k] == Want(img, y, filterType, k)
    {
      RowByteAt(img, y, i);
      RowByteAt(img, y, i - n);
      OtherWanted(img, y, filterType, i);
      var up := ReadUp(img, y, z + i - signedStride, i);
      var upLeft := ReadUp(img, y, z + i - signedStride - n, i - n);
      lineBuffer[i] := OtherByte(t, img.pixels[z + i], img.pixels[z + i - n], up, upLeft);
      i := i + 1;
    }
  }

  /** Reads the byte above through the signed stride; the first row never looks above itself. */
  method ReadUp(img: Image, y: nat, at: int, ghost i: nat) returns (up: byte)
    requires img.Valid() && y < img.height && i < img.LineLength()
    requires at == img.RowStart(y) + i - img.SignedStride()
    ensures up == UpByte(img, y, i)
  {
    if y == 0 {
      up := 0;
    } else {
      UpByteAt(img, y, i);
      up := img.pixels[at];
    }
  }

  lemma LineAtLeastPixel(w: nat, n: nat)
    requires w >= 1
    ensures n <= w * n
  {
  }

  // ----- Choosing a filter

  /** A stored byte read back as `signed char`. */
  function Signed(b: byte): int {
    if b < 128 then b else b - 256
  }

  /** The sum of absolute signed bytes of a line. */
  function Estimate(f: seq<byte>): (e: nat)
    ensures e <= 128 * |f|
  {
    if f == [] then 0 else Estimate(f[..|f| - 1]) + Abs(Signed(f[|f| - 1]))
  }

  /** A stored byte as C's `signed char`: the number in its range with the same low eight bits. */
  lemma SignedIs(b: byte)
    ensures -128 <= Signed(b) <= 127 && (Signed(b) - b) % 256 == 0
  {
  }

  function AbsSum(f: seq<byte>, k: nat): nat
    requires k <= |f|
  {
    if k == 0 then 0 else AbsSum(f, k - 1) + (if f[k - 1] <= 127 then f[k - 1] else 256 - f[k - 1])
  }

  /** The estimate is the sum of the distances of the bytes from zero, counted round 256. */
  lemma {:induction false} EstimateIs(f: seq<byte>)
    ensures Estimate(f) == AbsSum(f, |f|)
  {
    if f != [] {
      EstimateIs(f[..|f| - 1]);
      AbsSumPrefix(f, |f| - 1);
    }
  }

  lemma {:induction false} AbsSumPrefix(f: seq<byte>, k: nat)
    requires k < |f|
    ensures AbsSum(f[..|f| - 1], k) == AbsSum(f, k)
  {
    if k > 0 {
      AbsSumPrefix(f, k - 1);
    }
  }

  function EstimateOf(img: Image, y: nat, ft: nat): nat
    requires img.Valid() && y < img.height && ft <= 4
  {
    Estimate(FilterRow(ft, img.Row(y), img.Above(y), img.n))
  }

  /** The running winner after trying filters 0 to k - 1. */
  function BestUpTo(img: Image, y: nat, k: nat): (r: (nat, nat))
    requires img.Valid() && y < img.height && k <= 5
    ensures r.0 <= 4 && (k > 0 ==> r.0 < k)
  {
    if k == 0 then (0, 0x7fffffff)
    else
      var r := BestUpTo(img, y, k - 1);
      var est := EstimateOf(img, y, k - 1);
      if est < r.1 then (k - 1, est) else r
  }

  lemma EstimateBound(img: Image, y: nat, ft: nat)
    requires img.Valid() && y < img.height && ft <= 4
    ensures EstimateOf(img, y, ft) <= 128 * img.LineLength()
  {
  }

  /** `val` is the estimate of `best`, least among the first `k` filters, and earlier ones are worse. */
  ghost predicate Minimal(img: Image, y: nat, k: nat, best: nat, val: nat)
    requires img.Valid() && y < img.height && k <= 5 && best <= 4
  {
    && val == EstimateOf(img, y, best)
    && forall ft | 0 <= ft < k :: val <= EstimateOf(img, y, ft) && (ft < best ==> val < EstimateOf(img, y, ft))
  }

  lemma {:induction false} BestUpToMinimal(img: Image, y: nat, k: nat)
    requires img.Valid() && y < img.height && 1 <= k <= 5
    requires 128 * img.LineLength() < 0x7fffffff
    ensures Minimal(img, y, k, BestUpTo(img, y, k).0, BestUpTo(img, y, k).1)
  {
    EstimateBound(img, y, k - 1);
    hide EstimateOf;
    if k == 1 {
      assert BestUpTo(img, y, 0) == (0, 0x7fffffff);
    } else {
      BestUpToMinimal(img, y, k - 1);
      MinimalStep(img, y, k, BestUpTo(img, y, k - 1).0, BestUpTo(img, y, k - 1).1);
    }
  }

  lemma MinimalStep(img: Image, y: nat, k: nat, best: nat, val: nat)
    requires img.Valid() && y < img.height && 1 <= k <= 5 && best < k
    requires Minimal(img, y, k - 1, best, val)
    ensures if EstimateOf(img, y, k - 1) < val then Minimal(img, y, k, k - 1, EstimateOf(img, y, k - 1))
            else Minimal(img, y, k, best, val)
  {
    hide EstimateOf;
  }

  /** In automatic mode the recorded filter has the least sum of absolute signed bytes, the first of equals. */
  lemma AutomaticIsMinimal(img: Image, y: nat, ft: nat)
    requires img.Valid() && y < img.height && ft <= 4
    requires 128 * img.LineLength() < 0x7fffffff
    ensures var best := LineFilter(img, y, -1);
            && EstimateOf(img, y, best) <= EstimateOf(img, y, ft)
            && (ft < best ==> EstimateOf(img, y, best) < EstimateOf(img, y, ft))
  {
    BestUpToMinimal(img, y, 5);
    hide EstimateOf, BestUpTo;
  }

  /** The filter recorded for a row: the forced one if it names a filter, else the best estimate. */
  function LineFilter(img: Image, y: nat, force: int): (ft: nat)
    requires img.Valid() && y < img.height
    ensures ft <= 4
  {
    if 0 <= force < 5 then force else BestUpTo(img, y, 5).0
  }

  function FilteredLine(img: Image, y: nat, force: int): (f: seq<byte>)
    requires img.Valid() && y < img.height
    ensures |f| == img.LineLength() + 1
  {
    var ft := LineFilter(img, y, force);
    [ft] + FilterRow(ft, img.Row(y), img.Above(y), img.n)
  }

  /** The filtered image: its first `k` rows, each behind its filter byte. */
  function Filtered(img: Image, force: int, k: nat): (f: seq<byte>)
    requires img.Valid() && k <= img.height
    ensures |f| == k * (img.LineLength() + 1)
  {
    if k == 0 then []
    else
      MulStep(k, img.LineLength() + 1);
      Filtered(img, force, k - 1) + FilteredLine(img, k - 1, force)
  }

  lemma MulStep(k: nat, l: nat)
    requires k > 0
    ensures k * l == (k - 1) * l + l
  {
  }

  method EstimateLine(line: array<byte>) returns (est: nat)
    ensures est == Estimate(line[..])
  {
    est := 0;
    var i := 0;
    while i < line.Length
      invariant 0 <= i <= line.Length
      invariant est == Estimate(line[..i])
    {
      assert line[..i + 1][..i] == line[..i];
      est := est + Abs(Signed(line[i]));
      i := i + 1;
    }
    assert line[..i] == line[..];
  }

  /** Filters one row: with the forced filter, or by trying all five and redoing the best. */
  method FilterLine(img: Image, y: nat, force: int, lineBuffer: array<byte>) returns (filterType: nat)
    requires img.Valid() && y < img.height && force < 5
    requires lineBuffer.Length == img.LineLength()
    modifies lineBuffer
    ensures filterType <= 4
    ensures [filterType] + lineBuffer[..] == FilteredLine(img, y, force)
  {
    hide FilterRow, Image.Row, Image.Above, Estimate;
    if force > -1 {
      filterType := force;
      EncodeLine(img, y, filterType, lineBuffer);
    } else {
      var bestFilter, bestVal := 0, 0x7fffffff;
      filterType := 0;
      while filterType < 5
        invariant 0 <= filterType <= 5
        invariant (bestFilter, bestVal) == BestUpTo(img, y, filterType)
      {
        EncodeLine(img, y, filterType, lineBuffer);
        var est := EstimateLine(lineBuffer);
        if est < bestVal {
          bestVal := est;
          bestFilter := filterType;
        }
        filterType := filterType + 1;
      }
      if filterType != bestFilter {
        EncodeLine(img, y, bestFilter, lineBuffer);
        filterType := bestFilter;
      }
    }
  }
}
