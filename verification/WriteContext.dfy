/** The output context of the BMP, TGA and HDR writers: a callback and a 64-byte buffer in front of it. */
module WriteContext {
  import opened Bits

  /** The low `k` bytes of a C int, least significant first. */
  function Le(v: int, k: nat): (s: seq<byte>)
    ensures |s| == k
    decreases k
  {
    if k == 0 then [] else [v % 256] + Le(v / 256, k - 1)
  }

  function FromLe(s: seq<byte>): nat {
    if s == [] then 0 else s[0] as int + 256 * FromLe(s[1..])
  }

  function Pow256(k: nat): (p: nat)
    ensures p >= 1
  {
    if k == 0 then 1 else 256 * Pow256(k - 1)
  }

  /** A field holds a number exactly when the number is in range. */
  lemma {:induction false} LeInverse(v: nat, k: nat)
    ensures FromLe(Le(v, k)) < Pow256(k)
    ensures FromLe(Le(v, k)) == v <==> v < Pow256(k)
    decreases k
  {
    if k > 0 {
      LeInverse(v / 256, k - 1);
      assert Le(v, k)[1..] == Le(v / 256, k - 1);
    }
  }

  lemma Pow256Values()
    ensures Pow256(1) == 0x100 && Pow256(2) == 0x1_0000 && Pow256(4) == 0x1_0000_0000
  {
    assert Pow256(3) == 256 * Pow256(2);
  }

  /** A header field: its width in bytes and its value, written low byte first. */
  datatype Field = Field(width: nat, value: int)

  function FieldsBytes(fs: seq<Field>): seq<byte> {
    if fs == [] then [] else Le(fs[0].value, fs[0].width) + FieldsBytes(fs[1..])
  }

  function Widths(fs: seq<Field>): (w: seq<nat>)
    ensures |w| == |fs|
  {
    seq(|fs|, i requires 0 <= i < |fs| => fs[i].width)
  }

  /** Reads consecutive fields of the given widths. */
  function ReadFields(s: seq<byte>, widths: seq<nat>): Option<(seq<nat>, seq<byte>)>
    decreases |widths|
  {
    if widths == [] then Some(([], s))
    else if |s| < widths[0] then None
    else
      match ReadFields(s[widths[0]..], widths[1..])
      case None => None
      case Some((v, rest)) => Some(([FromLe(s[..widths[0]])] + v, rest))
  }

  /** What reading field `f` back as `v` tells: the value itself exactly when it is in range. */
  ghost predicate ReadsAs(f: Field, v: nat) {
    v < Pow256(f.width) && (f.value >= 0 ==> (v == f.value <==> f.value < Pow256(f.width)))
  }

  ghost predicate ReadAs(fs: seq<Field>, v: seq<nat>) {
    |v| == |fs| && forall i | 0 <= i < |fs| :: ReadsAs(fs[i], v[i])
  }

  lemma FieldReads(f: Field)
    ensures ReadsAs(f, FromLe(Le(f.value, f.width)))
  {
    LeRange(f.value, f.width);
    if f.value >= 0 {
      LeInverse(f.value, f.width);
    }
  }

  lemma ReadFieldsCons(widths: seq<nat>, head: seq<byte>, s: seq<byte>)
    requires widths != [] && |head| == widths[0]
    ensures ReadFields(head + s, widths) ==
            match ReadFields(s, widths[1..])
            case None => None
            case Some((v, rest)) => Some(([FromLe(head)] + v, rest))
  {
    hide FromLe;
    assert (head + s)[..|head|] == head && (head + s)[|head|..] == s;
  }

  lemma ReadFieldsStep(fs: seq<Field>, rest: seq<byte>, tail: seq<nat>)
    requires fs != []
    requires ReadFields(FieldsBytes(fs[1..]) + rest, Widths(fs[1..])) == Some((tail, rest))
    ensures ReadFields(FieldsBytes(fs) + rest, Widths(fs)) == Some(([FromLe(Le(fs[0].value, fs[0].width))] + tail, rest))
  {
    var head := Le(fs[0].value, fs[0].width);
    ReadFieldsCons(Widths(fs), head, FieldsBytes(fs[1..]) + rest);
    hide Le, FromLe, ReadFields;
    assert Widths(fs)[1..] == Widths(fs[1..]);
    SeqAssoc(head, FieldsBytes(fs[1..]), rest);
  }

  /** Written fields read back. */
  lemma {:induction false} FieldsRoundTrip(fs: seq<Field>, rest: seq<byte>) returns (v: seq<nat>)
    ensures ReadFields(FieldsBytes(fs) + rest, Widths(fs)) == Some((v, rest)) && ReadAs(fs, v)
    decreases |fs|
  {
    if fs == [] {
      v := [];
      assert FieldsBytes(fs) + rest == rest;
    } else {
      var tail := FieldsRoundTrip(fs[1..], rest);
      ReadFieldsStep(fs, rest, tail);
      FieldReads(fs[0]);
      v := [FromLe(Le(fs[0].value, fs[0].width))] + tail;
      hide Le, FromLe, ReadFields, FieldsBytes, ReadsAs;
      assert forall i | 1 <= i < |fs| :: fs[i] == fs[1..][i - 1] && v[i] == tail[i - 1];
    }
  }

  lemma {:induction false} LeRange(v: int, k: nat)
    ensures FromLe(Le(v, k)) < Pow256(k)
    decreases k
  {
    if k > 0 {
      LeRange(v / 256, k - 1);
      assert Le(v, k)[1..] == Le(v / 256, k - 1);
    }
  }

  /** C division: toward zero. */
  function CDiv(a: int, b: int): int
    requires b > 0
  {
    if a >= 0 then a / b else 0 - (0 - a) / b
  }

  /** One channel over the pink background, in integers. */
  function Over(bg: byte, d: byte, a: byte): byte {
    (bg + CDiv((d as int - bg as int) * a as int, 255)) % 256
  }

  /** Composing: full alpha gives the channel, none the background, and in between the result lies between the
      two, less than one from the exact mean (all times 255). */
  lemma OverIs(bg: byte, d: byte, a: byte)
    ensures a == 255 ==> Over(bg, d, a) == d
    ensures a == 0 ==> Over(bg, d, a) == bg
    ensures bg <= Over(bg, d, a) <= d || d <= Over(bg, d, a) <= bg
    ensures -255 < 255 * Over(bg, d, a) - (a * d + (255 - a) * bg) < 255
  {
    var m, q := (d - bg) * a, CDiv((d - bg) * a, 255);
    assert -255 < 255 * q - m < 255;
    assert a * d + (255 - a) * bg == 255 * bg + m;
    if d >= bg {
      Share(d - bg, a);
    } else {
      Share(bg - d, a);
      assert m == -((bg - d) * a);
    }
  }

  lemma Share(k: nat, a: byte)
    ensures 0 <= k * a / 255 <= k && (a == 255 ==> k * a / 255 == k) && (a == 0 ==> k * a / 255 == 0)
  {
    assert k * a <= k * 255;
  }

  /** Three colour bytes in the order the direction asks for: 1 is RGB, -1 is BGR. */
  function Ordered(rgbDir: int, p: seq<byte>): (s: seq<byte>)
    requires |p| == 3 && (rgbDir == 1 || rgbDir == -1)
    ensures |s| == 3
  {
    [p[1 - rgbDir], p[1], p[1 + rgbDir]]
  }

  /** The colour bytes of one pixel: grey once or three times, or three channels, over pink if alpha is dropped. */
  function ColorBytes(rgbDir: int, writeAlpha: int, expandMono: bool, d: seq<byte>): seq<byte>
    requires 1 <= |d| <= 4 && (rgbDir == 1 || rgbDir == -1)
  {
    if |d| <= 2 then (if expandMono then [d[0], d[0], d[0]] else [d[0]])
    else if |d| == 4 && writeAlpha == 0 then
      Ordered(rgbDir, [Over(255, d[0], d[3]), Over(0, d[1], d[3]), Over(255, d[2], d[3])])
    else Ordered(rgbDir, d[..3])
  }

  /** The bytes of one pixel: its colour, with the last channel before it, after it or not at all. */
  function PixelBytes(rgbDir: int, writeAlpha: int, expandMono: bool, d: seq<byte>): seq<byte>
    requires 1 <= |d| <= 4 && (rgbDir == 1 || rgbDir == -1)
  {
    var color, last := ColorBytes(rgbDir, writeAlpha, expandMono, d), [d[|d| - 1]];
    if writeAlpha < 0 then last + color else if writeAlpha > 0 then color + last else color
  }

  class Context {
    /** What the callback has received so far. */
    var delivered: seq<byte>
    const buffer: array<byte>
    var bufUsed: nat

    constructor ()
      ensures Valid() && delivered == [] && bufUsed == 0 && fresh(buffer)
    {
      delivered := [];
      buffer := new byte[64](_ => 0);
      bufUsed := 0;
    }

    ghost predicate Valid()
      reads this
    {
      buffer.Length == 64 && bufUsed <= 64
    }

    /** All bytes written: those delivered, then those still buffered. */
    ghost function Written(): seq<byte>
      reads this, buffer
      requires Valid()
    {
      delivered + buffer[..bufUsed]
    }

    /** A direct call of the callback, past the buffer. */
    method Func(data: seq<byte>)
      requires Valid()
      modifies this
      ensures Valid() && bufUsed == old(bufUsed)
      ensures delivered == old(delivered) + data
      ensures bufUsed == 0 ==> Written() == old(Written()) + data
    {
      delivered := delivered + data;
      assert bufUsed == 0 ==> buffer[..bufUsed] == [];
    }

    /** `stbiw__write_flush`. */
    method Flush()
      requires Valid()
      modifies this
      ensures Valid() && bufUsed == 0
      ensures Written() == old(Written()) == delivered
    {
      if bufUsed != 0 {
        Func(buffer[..bufUsed]);
        bufUsed := 0;
      }
      assert buffer[..bufUsed] == [];
    }

    /** `stbiw__write1`. */
    method Write1(a: byte)
      requires Valid()
      modifies this, buffer
      ensures Valid() && Written() == old(Written()) + [a]
    {
      if bufUsed + 1 > 64 {
        Flush();
      }
      buffer[bufUsed] := a;
      bufUsed := bufUsed + 1;
      assert buffer[..bufUsed] == buffer[..bufUsed - 1] + [a];
    }

    /** `stbiw__write3`. */
    method Write3(a: byte, b: byte, c: byte)
      requires Valid()
      modifies this, buffer
      ensures Valid() && Written() == old(Written()) + [a, b, c]
    {
      if bufUsed + 3 > 64 {
        Flush();
      }
      var n := bufUsed;
      bufUsed := n + 3;
      buffer[n + 0] := a;
      buffer[n + 1] := b;
      buffer[n + 2] := c;
      assert buffer[..bufUsed] == buffer[..n] + [a, b, c];
    }

    /** The switch over the channel count inside `stbiw__write_pixel`. */
    method WriteColor(rgbDir: int, writeAlpha: int, expandMono: bool, d: seq<byte>)
      requires Valid() && 1 <= |d| <= 4 && (rgbDir == 1 || rgbDir == -1)
      modifies this, buffer
      ensures Valid() && Written() == old(Written()) + ColorBytes(rgbDir, writeAlpha, expandMono, d)
    {
      hide Over, Written;
      var comp := |d|;
      if comp <= 2 {
        if expandMono {
          Write3(d[0], d[0], d[0]);
        } else {
          Write1(d[0]);
        }
      } else if comp == 4 && writeAlpha == 0 {
        var px: seq<byte> := [Over(255, d[0], d[3]), Over(0, d[1], d[3]), Over(255, d[2], d[3])];
        Write3(px[1 - rgbDir], px[1], px[1 + rgbDir]);
      } else {
        Write3(d[1 - rgbDir], d[1], d[1 + rgbDir]);
      }
    }

    /** `stbiw__write_pixel`. */
    method WritePixel(rgbDir: int, writeAlpha: int, expandMono: bool, d: seq<byte>)
      requires Valid() && 1 <= |d| <= 4 && (rgbDir == 1 || rgbDir == -1)
      modifies this, buffer
      ensures Valid() && Written() == old(Written()) + PixelBytes(rgbDir, writeAlpha, expandMono, d)
    {
      hide ColorBytes, Written;
      var comp := |d|;
      ghost var w, color, last := Written(), ColorBytes(rgbDir, writeAlpha, expandMono, d), [d[comp - 1]];
      if writeAlpha < 0 {
        Write1(d[comp - 1]);
      }
      WriteColor(rgbDir, writeAlpha, expandMono, d);
      if writeAlpha > 0 {
        Write1(d[comp - 1]);
      }
      SeqAssoc(w, last, color);
      SeqAssoc(w, color, last);
    }
  }

  /** `stbiw__writefv`: every field straight to the callback. */
  method Writef(s: Context, fields: seq<Field>)
    requires s.Valid() && s.bufUsed == 0
    modifies s
    ensures s.Valid() && s.bufUsed == 0
    ensures s.delivered == old(s.delivered) + FieldsBytes(fields)
    ensures s.Written() == old(s.Written()) + FieldsBytes(fields)
  {
    hide Le;
    ghost var w := s.delivered;
    assert s.buffer[..s.bufUsed] == [];
    var i := 0;
    assert fields[0..] == fields;
    while i < |fields|
      invariant 0 <= i <= |fields| && s.Valid() && s.bufUsed == 0
      invariant s.delivered + FieldsBytes(fields[i..]) == w + FieldsBytes(fields)
    {
      assert fields[i..][1..] == fields[i + 1..];
      SeqAssoc(s.delivered, Le(fields[i].value, fields[i].width), FieldsBytes(fields[i + 1..]));
      s.Func(Le(fields[i].value, fields[i].width));
      i := i + 1;
    }
    assert s.delivered + [] == s.delivered;
    assert s.buffer[..s.bufUsed] == [];
  }
}
