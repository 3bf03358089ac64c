/** Scanlines of the Radiance HDR writer, from their four byte planes, and a reader that undoes them. */
module Hdr {
  import opened Bits
  import opened WriteContext

  /** A packet lists up to 128 bytes or repeats one byte up to 127 times. */
  datatype Packet = Dump(bytes: seq<byte>) | Run(count: nat, b: byte)

  predicate WellFormed(p: Packet) {
    match p
    case Dump(bytes) => 1 <= |bytes| <= 128
    case Run(count, _) => 1 <= count <= 127
  }

  function Content(p: Packet): seq<byte> {
    match p
    case Dump(bytes) => bytes
    case Run(count, b) => seq(count, _ => b)
  }

  function PacketBytes(p: Packet): seq<byte>
    requires WellFormed(p)
  {
    match p
    case Dump(bytes) => [|bytes| % 256] + bytes
    case Run(count, b) => [(count + 128) % 256] + [b]
  }

  // ----- The packets of a plane

  /** Three equal bytes starting at `r`. */
  predicate Triple(c: seq<byte>, r: nat) {
    r + 2 < |c| && c[r] == c[r + 1] && c[r] == c[r + 2]
  }

  /** The first position at or after `r` where three bytes are equal, or the width. */
  function FirstRun(c: seq<byte>, r: nat): (f: nat)
    requires r <= |c|
    ensures r <= f <= |c|
    ensures f < |c| ==> Triple(c, f)
    ensures forall m | r <= m < f :: !Triple(c, m)
    decreases |c| - r
  {
    if r + 2 < |c| then (if Triple(c, r) then r else FirstRun(c, r + 1)) else |c|
  }

  /** Where the bytes equal to `b` end. */
  function RunEnd(c: seq<byte>, r: nat, b: byte): (e: nat)
    requires r <= |c|
    ensures r <= e <= |c|
    ensures forall m | r <= m < e :: c[m] == b
    ensures e < |c| ==> c[e] != b
    decreases |c| - r
  {
    if r < |c| && c[r] == b then RunEnd(c, r + 1, b) else r
  }

  function Dumps(c: seq<byte>, x: nat, r: nat): seq<Packet>
    requires x <= r <= |c|
    decreases r - x
  {
    if x == r then []
    else
      var len := if r - x > 128 then 128 else r - x;
      [Dump(c[x..x + len])] + Dumps(c, x + len, r)
  }

  function Runs(b: byte, n: nat): seq<Packet>
    decreases n
  {
    if n == 0 then []
    else
      var len := if n > 127 then 127 else n;
      [Run(len, b)] + Runs(b, n - len)
  }

  /** The packets of a plane from position `x` on: bytes up to the next triple, then the run it starts. */
  function Packets(c: seq<byte>, x: nat): seq<Packet>
    requires x <= |c|
    decreases |c| - x
  {
    if x == |c| then []
    else
      var r := FirstRun(c, x);
      if r + 2 < |c| then
        var e := RunEnd(c, r, c[r]);
        Dumps(c, x, r) + Runs(c[r], e - r) + Packets(c, e)
      else Dumps(c, x, |c|)
  }

  ghost predicate AllWellFormed(ps: seq<Packet>) {
    forall i | 0 <= i < |ps| :: WellFormed(ps[i])
  }

  function Expand(ps: seq<Packet>): seq<byte> {
    if ps == [] then [] else Content(ps[0]) + Expand(ps[1..])
  }

  function Bytes(ps: seq<Packet>): seq<byte>
    requires AllWellFormed(ps)
  {
    if ps == [] then [] else PacketBytes(ps[0]) + Bytes(ps[1..])
  }

  lemma {:induction false} ExpandConcat(a: seq<Packet>, b: seq<Packet>)
    ensures Expand(a + b) == Expand(a) + Expand(b)
  {
    hide Content;
    if a == [] {
      assert a + b == b;
    } else {
      ExpandConcat(a[1..], b);
      assert (a + b)[1..] == a[1..] + b;
      SeqAssoc(Content(a[0]), Expand(a[1..]), Expand(b));
    }
  }

  lemma {:induction false} BytesConcat(a: seq<Packet>, b: seq<Packet>)
    requires AllWellFormed(a) && AllWellFormed(b)
    ensures AllWellFormed(a + b) && Bytes(a + b) == Bytes(a) + Bytes(b)
    decreases |a|
  {
    hide PacketBytes, WellFormed;
    if a == [] {
      assert a + b == b;
    } else {
      BytesConcat(a[1..], b);
      assert (a + b)[1..] == a[1..] + b;
      SeqAssoc(PacketBytes(a[0]), Bytes(a[1..]), Bytes(b));
    }
  }

  lemma {:induction false} DumpsSound(c: seq<byte>, x: nat, r: nat)
    requires x <= r <= |c|
    ensures AllWellFormed(Dumps(c, x, r)) && Expand(Dumps(c, x, r)) == c[x..r]
    decreases r - x
  {
    if x < r {
      var len := if r - x > 128 then 128 else r - x;
      DumpsSound(c, x + len, r);
      assert c[x..r] == c[x..x + len] + c[x + len..r];
    }
  }

  lemma {:induction false} RunsSound(b: byte, n: nat)
    ensures AllWellFormed(Runs(b, n)) && Expand(Runs(b, n)) == seq(n, _ => b)
    decreases n
  {
    if n > 0 {
      var len := if n > 127 then 127 else n;
      RunsSound(b, n - len);
      assert seq(n, _ => b) == seq(len, _ => b) + seq(n - len, _ => b);
    }
  }

  lemma RunStep(c: seq<byte>, x: nat, r: nat, e: nat, rest: seq<Packet>)
    requires x <= r <= e <= |c| && r < |c| && (forall m | r <= m < e :: c[m] == c[r])
    requires AllWellFormed(rest) && Expand(rest) == c[e..]
    ensures var ps := Dumps(c, x, r) + Runs(c[r], e - r) + rest;
            AllWellFormed(ps) && Expand(ps) == c[x..]
  {
    DumpsSound(c, x, r);
    RunsSound(c[r], e - r);
    var ds, rs := Dumps(c, x, r), Runs(c[r], e - r);
    ConstantSlice(c, r, e);
    WellFormedConcat(ds, rs);
    WellFormedConcat(ds + rs, rest);
    hide Dumps, Runs, AllWellFormed, Expand;
    ExpandConcat(ds, rs);
    ExpandConcat(ds + rs, rest);
    SliceParts(c, x, r, e);
  }

  lemma WellFormedConcat(a: seq<Packet>, b: seq<Packet>)
    requires AllWellFormed(a) && AllWellFormed(b)
    ensures AllWellFormed(a + b)
  {
    hide WellFormed;
  }

  lemma ConstantSlice(c: seq<byte>, r: nat, e: nat)
    requires r <= e <= |c| && r < |c| && forall m | r <= m < e :: c[m] == c[r]
    ensures c[r..e] == seq(e - r, _ => c[r])
  {
  }

  lemma SliceParts(c: seq<byte>, x: nat, r: nat, e: nat)
    requires x <= r <= e <= |c|
    ensures c[x..] == c[x..r] + c[r..e] + c[e..]
  {
  }

  /** Every packet has a legal count, and together they stand for the rest of the plane. */
  lemma {:induction false} PacketsSound(c: seq<byte>, x: nat)
    requires x <= |c|
    ensures AllWellFormed(Packets(c, x)) && Expand(Packets(c, x)) == c[x..]
    decreases |c| - x
  {
    hide WellFormed, Dumps, Runs, Expand, FirstRun, RunEnd;
    if x < |c| {
      var r := FirstRun(c, x);
      if r + 2 < |c| {
        var e := RunEnd(c, r, c[r]);
        RunAtTriple(c, x);
        PacketsSound(c, e);
        RunStep(c, x, r, e, Packets(c, e));
      } else {
        DumpsSound(c, x, |c|);
        assert c[x..|c|] == c[x..];
      }
    } else {
      ExpandNothing();
    }
  }

  lemma ExpandNothing()
    ensures Expand([]) == []
  {
  }

  /** A run packet always starts at three equal bytes, so the cursor strictly advances. */
  lemma RunAtTriple(c: seq<byte>, x: nat)
    requires x < |c| && FirstRun(c, x) + 2 < |c|
    ensures var r := FirstRun(c, x); RunEnd(c, r, c[r]) >= r + 3
  {
    var r := FirstRun(c, x);
    assert RunEnd(c, r, c[r]) == RunEnd(c, r + 1, c[r]) == RunEnd(c, r + 2, c[r]);
  }

  // ----- A reader

  /** Reads one packet: a count above 128 repeats a byte, any other lists that many. */
  function ReadPacket(s: seq<byte>): Option<(seq<byte>, seq<byte>)> {
    if |s| < 2 || s[0] == 0 then None
    else if s[0] > 128 then Some((seq(s[0] - 128, _ => s[1]), s[2..]))
    else if |s| < 1 + s[0] as int then None
    else Some((s[1..1 + s[0] as int], s[1 + s[0] as int..]))
  }

  /** Reads packets until `n` bytes are there; none may run past the end of the plane. */
  function ReadPlane(s: seq<byte>, n: nat): Option<(seq<byte>, seq<byte>)>
    decreases n
  {
    if n == 0 then Some(([], s))
    else
      match ReadPacket(s)
      case None => None
      case Some((bytes, rest)) =>
        if bytes == [] || |bytes| > n then None
        else
          match ReadPlane(rest, n - |bytes|)
          case None => None
          case Some((more, rest')) => Some((bytes + more, rest'))
  }

  lemma PacketRoundTrip(p: Packet, t: seq<byte>)
    requires WellFormed(p)
    ensures ReadPacket(PacketBytes(p) + t) == Some((Content(p), t)) && Content(p) != []
  {
    var s := PacketBytes(p) + t;
    match p
    case Dump(bytes) =>
      assert s[0] == |bytes| && s[1..1 + |bytes|] == bytes && s[1 + |bytes|..] == t;
    case Run(count, b) =>
      assert s[0] == count + 128 && s[1] == b && s[2..] == t;
  }

  lemma {:induction false} PlaneRoundTrip(ps: seq<Packet>, t: seq<byte>)
    requires AllWellFormed(ps)
    ensures ReadPlane(Bytes(ps) + t, |Expand(ps)|) == Some((Expand(ps), t))
    decreases |ps|
  {
    hide PacketBytes, Content, WellFormed, ReadPacket;
    if ps == [] {
      assert Bytes(ps) + t == t;
    } else {
      var rest := Bytes(ps[1..]) + t;
      SeqAssoc(PacketBytes(ps[0]), Bytes(ps[1..]), t);
      PacketRoundTrip(ps[0], rest);
      PlaneRoundTrip(ps[1..], t);
    }
  }

  // ----- Scanlines

  /** The four component planes of a scanline. */
  datatype Scanline = Scanline(width: nat, planes: seq<seq<byte>>) {
    ghost predicate Valid() {
      |planes| == 4 && forall c | 0 <= c < 4 :: |planes[c]| == width
    }
  }

  ghost function PlaneBytes(c: seq<byte>): seq<byte> {
    PacketsSound(c, 0);
    Bytes(Packets(c, 0))
  }

  /** The plain pixels of a scanline too narrow or too wide for packets, up to pixel `k`. */
  function PlainPixels(l: Scanline, k: nat): seq<byte>
    requires l.Valid() && k <= l.width
  {
    if k == 0 then []
    else PlainPixels(l, k - 1) + [l.planes[0][k - 1], l.planes[1][k - 1], l.planes[2][k - 1], l.planes[3][k - 1]]
  }

  predicate Packed(width: nat) {
    !(width < 8 || width >= 32768)
  }

  ghost function Encode(l: Scanline): seq<byte>
    requires l.Valid()
  {
    if Packed(l.width) then
      [2, 2, l.width / 256 % 256, l.width % 256]
      + PlaneBytes(l.planes[0]) + PlaneBytes(l.planes[1]) + PlaneBytes(l.planes[2]) + PlaneBytes(l.planes[3])
    else PlainPixels(l, l.width)
  }

  /** Reads a packed scanline of the given width. */
  function ReadPacked(s: seq<byte>, width: nat): Option<(seq<seq<byte>>, seq<byte>)> {
    if |s| < 4 || s[0] != 2 || s[1] != 2 || s[2] as int * 256 + s[3] as int != width then None
    else
      match ReadPlane(s[4..], width)
      case None => None
      case Some((p0, s0)) =>
        match ReadPlane(s0, width)
        case None => None
        case Some((p1, s1)) =>
          match ReadPlane(s1, width)
          case None => None
          case Some((p2, s2)) =>
            match ReadPlane(s2, width)
            case None => None
            case Some((p3, s3)) => Some(([p0, p1, p2, p3], s3))
  }

  lemma OnePlane(c: seq<byte>, t: seq<byte>)
    ensures ReadPlane(PlaneBytes(c) + t, |c|) == Some((c, t))
  {
    hide Packets;
    PacketsSound(c, 0);
    assert c[0..] == c;
    PlaneRoundTrip(Packets(c, 0), t);
  }

  /** Every scanline of 8 to 32767 pixels reads back as its four planes, whatever follows it. */
  lemma ScanlineRoundTrip(l: Scanline, t: seq<byte>)
    requires l.Valid() && Packed(l.width)
    ensures ReadPacked(Encode(l) + t, l.width) == Some((l.planes, t))
  {
    hide PlaneBytes, ReadPlane;
    var b0, b1, b2, b3 := PlaneBytes(l.planes[0]), PlaneBytes(l.planes[1]), PlaneBytes(l.planes[2]), PlaneBytes(l.planes[3]);
    var s := Encode(l) + t;
    assert s[4..] == b0 + (b1 + (b2 + (b3 + t)));
    OnePlane(l.planes[0], b1 + (b2 + (b3 + t)));
    OnePlane(l.planes[1], b2 + (b3 + t));
    OnePlane(l.planes[2], b3 + t);
    OnePlane(l.planes[3], t);
    assert l.planes == [l.planes[0], l.planes[1], l.planes[2], l.planes[3]];
  }

  // ----- The encoder

  method WriteRunData(s: Context, length: nat, databyte: byte)
    requires s.Valid() && length + 128 <= 255
    modifies s
    ensures s.Valid() && s.bufUsed == old(s.bufUsed)
    ensures s.delivered == old(s.delivered) + ([(length + 128) % 256] + [databyte])
  {
    s.Func([(length + 128) % 256]);
    s.Func([databyte]);
  }

  method WriteDumpData(s: Context, length: nat, data: seq<byte>)
    requires s.Valid() && length <= 128 && |data| == length
    modifies s
    ensures s.Valid() && s.bufUsed == old(s.bufUsed)
    ensures s.delivered == old(s.delivered) + ([length % 256] + data)
  {
    s.Func([length % 256]);
    s.Func(data);
  }

  /** Dumps and runs are written packet by packet; these are the bytes of the rest of such a stretch. */
  ghost function DumpsBytes(c: seq<byte>, x: nat, r: nat): seq<byte>
    requires x <= r <= |c|
  {
    DumpsSound(c, x, r);
    Bytes(Dumps(c, x, r))
  }

  ghost function RunsBytes(b: byte, n: nat): seq<byte> {
    RunsSound(b, n);
    Bytes(Runs(b, n))
  }

  ghost function RestBytes(c: seq<byte>, x: nat): seq<byte>
    requires x <= |c|
  {
    PacketsSound(c, x);
    Bytes(Packets(c, x))
  }

  lemma BytesCons(p: Packet, ps: seq<Packet>)
    requires WellFormed(p) && AllWellFormed(ps)
    ensures AllWellFormed([p] + ps) && Bytes([p] + ps) == PacketBytes(p) + Bytes(ps)
  {
    hide WellFormed, PacketBytes;
    assert ([p] + ps)[1..] == ps;
  }

  lemma DumpIs(bytes: seq<byte>)
    requires 1 <= |bytes| <= 128
    ensures WellFormed(Dump(bytes)) && PacketBytes(Dump(bytes)) == [|bytes| % 256] + bytes
  {
  }

  lemma DumpsStep(c: seq<byte>, x: nat, r: nat, len: nat)
    requires x < r <= |c| && len == if r - x > 128 then 128 else r - x
    ensures DumpsBytes(c, x, r) == ([len % 256] + c[x..x + len]) + DumpsBytes(c, x + len, r)
  {
    DumpsSound(c, x + len, r);
    var p := Dump(c[x..x + len]);
    DumpIs(c[x..x + len]);
    assert Dumps(c, x, r) == [p] + Dumps(c, x + len, r);
    hide Dumps, Bytes, AllWellFormed, WellFormed, PacketBytes;
    BytesCons(p, Dumps(c, x + len, r));
  }

  lemma RunsStep(b: byte, n: nat, len: nat)
    requires n > 0 && len == if n > 127 then 127 else n
    ensures RunsBytes(b, n) == ([(len + 128) % 256] + [b]) + RunsBytes(b, n - len)
  {
    RunsSound(b, n - len);
    BytesCons(Run(len, b), Runs(b, n - len));
  }

  lemma RestStep(c: seq<byte>, x: nat)
    requires x < |c|
    ensures var r := FirstRun(c, x);
            RestBytes(c, x) == if r + 2 < |c| then
                                 var e := RunEnd(c, r, c[r]);
                                 DumpsBytes(c, x, r) + (RunsBytes(c[r], e - r) + RestBytes(c, e))
                               else DumpsBytes(c, x, |c|)
  {
    hide Dumps, Runs, FirstRun, RunEnd, Bytes, AllWellFormed;
    var r := FirstRun(c, x);
    if r + 2 < |c| {
      var e := RunEnd(c, r, c[r]);
      RunAtTriple(c, x);
      DumpsSound(c, x, r);
      RunsSound(c[r], e - r);
      PacketsSound(c, e);
      BytesConcat(Dumps(c, x, r), Runs(c[r], e - r));
      BytesConcat(Dumps(c, x, r) + Runs(c[r], e - r), Packets(c, e));
      SeqAssoc(DumpsBytes(c, x, r), RunsBytes(c[r], e - r), RestBytes(c, e));
    }
  }

  lemma NothingLeft(c: seq<byte>, b: byte)
    ensures RestBytes(c, |c|) == [] && RunsBytes(b, 0) == []
    ensures forall r | 0 <= r <= |c| :: DumpsBytes(c, r, r) == []
  {
  }

  /** Dumps bytes up to the first run. */
  method WriteDumps(s: Context, comp: seq<byte>, from: nat, r: nat) returns (x: nat)
    requires s.Valid() && from <= r <= |comp|
    modifies s
    ensures s.Valid() && s.bufUsed == old(s.bufUsed) && x == r
    ensures s.delivered == old(s.delivered) + DumpsBytes(comp, from, r)
  {
    hide DumpsBytes;
    NothingLeft(comp, 0);
    ghost var total := s.delivered + DumpsBytes(comp, from, r);
    x := from;
    while x < r
      invariant from <= x <= r && s.Valid() && s.bufUsed == old(s.bufUsed)
      invariant s.delivered + DumpsBytes(comp, x, r) == total
    {
      var len := r - x;
      if len > 128 {
        len := 128;
      }
      DumpsStep(comp, x, r, len);
      SeqAssoc(s.delivered, [len % 256] + comp[x..x + len], DumpsBytes(comp, x + len, r));
      WriteDumpData(s, len, comp[x..x + len]);
      x := x + len;
    }
    assert s.delivered + [] == s.delivered;
  }

  /** Outputs the run up to `r`. */
  method WriteRuns(s: Context, comp: seq<byte>, from: nat, r: nat) returns (x: nat)
    requires s.Valid() && from <= r <= |comp| && from < |comp|
    requires forall m | from <= m < r :: comp[m] == comp[from]
    modifies s
    ensures s.Valid() && s.bufUsed == old(s.bufUsed) && x == r
    ensures s.delivered == old(s.delivered) + RunsBytes(comp[from], r - from)
  {
    hide RunsBytes;
    var b := comp[from];
    NothingLeft(comp, b);
    ghost var total := s.delivered + RunsBytes(b, r - from);
    x := from;
    while x < r
      invariant from <= x <= r && s.Valid() && s.bufUsed == old(s.bufUsed)
      invariant s.delivered + RunsBytes(b, r - x) == total
    {
      var len := r - x;
      if len > 127 {
        len := 127;
      }
      RunsStep(b, r - x, len);
      SeqAssoc(s.delivered, [(len + 128) % 256] + [b], RunsBytes(b, r - x - len));
      WriteRunData(s, len, comp[x]);
      x := x + len;
    }
    assert s.delivered + [] == s.delivered;
  }

  /** The search loop for the next three equal bytes. */
  method FindRun(comp: seq<byte>, x: nat) returns (r: nat)
    requires x < |comp|
    ensures r == FirstRun(comp, x)
  {
    r := x;
    while r + 2 < |comp|
      invariant x <= r <= |comp|
      invariant FirstRun(comp, r) == FirstRun(comp, x)
    {
      if comp[r] == comp[r + 1] && comp[r] == comp[r + 2] {
        break;
      }
      r := r + 1;
    }
    if r + 2 >= |comp| {
      r := |comp|;
    }
  }

  /** The search loop for the byte after the run. */
  method FindRunEnd(comp: seq<byte>, x: nat, from: nat) returns (r: nat)
    requires x == from < |comp|
    ensures r == RunEnd(comp, x, comp[x])
  {
    r := from;
    while r < |comp| && comp[r] == comp[x]
      invariant x <= r <= |comp|
      invariant RunEnd(comp, r, comp[x]) == RunEnd(comp, x, comp[x])
    {
      r := r + 1;
    }
  }

  /** One round of the outer loop: dump to the first run, then the run. */
  method WriteStretch(s: Context, comp: seq<byte>, from: nat) returns (x: nat)
    requires s.Valid() && from < |comp|
    modifies s
    ensures s.Valid() && s.bufUsed == old(s.bufUsed)
    ensures from < x <= |comp|
    ensures s.delivered + RestBytes(comp, x) == old(s.delivered) + RestBytes(comp, from)
  {
    hide RestBytes, DumpsBytes, RunsBytes, FirstRun;
    var width := |comp|;
    ghost var d0 := s.delivered;
    RestStep(comp, from);
    var r := FindRun(comp, from);
    x := WriteDumps(s, comp, from, r);
    if r + 2 < width {
      RunAtTriple(comp, from);
      r := FindRunEnd(comp, x, r);
      ghost var x1 := x;
      x := WriteRuns(s, comp, x, r);
      hide RunEnd;
      SeqAssoc4(d0, DumpsBytes(comp, from, x1), RunsBytes(comp[x1], x - x1), RestBytes(comp, x));
    } else {
      NothingLeft(comp, 0);
      assert s.delivered + [] == s.delivered;
    }
  }

  /** One component plane. */
  method WritePlane(s: Context, comp: seq<byte>)
    requires s.Valid()
    modifies s
    ensures s.Valid() && s.bufUsed == old(s.bufUsed)
    ensures s.delivered == old(s.delivered) + PlaneBytes(comp)
  {
    hide RestBytes, PlaneBytes;
    PlaneIsRest(comp);
    NothingLeft(comp, 0);
    ghost var total := s.delivered + RestBytes(comp, 0);
    var x := 0;
    while x < |comp|
      invariant 0 <= x <= |comp| && s.Valid() && s.bufUsed == old(s.bufUsed)
      invariant s.delivered + RestBytes(comp, x) == total
    {
      x := WriteStretch(s, comp, x);
    }
    assert s.delivered + [] == s.delivered;
  }

  lemma PlaneIsRest(c: seq<byte>)
    ensures PlaneBytes(c) == RestBytes(c, 0)
  {
  }

  /** `stbiw__write_hdr_scanline`, from its four component planes. */
  method WriteScanline(s: Context, l: Scanline)
    requires s.Valid() && l.Valid()
    modifies s
    ensures s.Valid() && s.bufUsed == old(s.bufUsed)
    ensures s.delivered == old(s.delivered) + Encode(l)
  {
    hide PlaneBytes;
    var width := l.width;
    ghost var d0 := s.delivered;
    var header: seq<byte> := [2, 2, width / 256 % 256, width % 256];
    if width < 8 || width >= 32768 {
      var x := 0;
      assert d0 + [] == d0;
      while x < width
        invariant 0 <= x <= width && s.Valid() && s.bufUsed == old(s.bufUsed)
        invariant s.delivered == d0 + PlainPixels(l, x)
      {
        s.Func([l.planes[0][x], l.planes[1][x], l.planes[2][x], l.planes[3][x]]);
        SeqAssoc(d0, PlainPixels(l, x), [l.planes[0][x], l.planes[1][x], l.planes[2][x], l.planes[3][x]]);
        x := x + 1;
      }
    } else {
      s.Func(header);
      WritePlane(s, l.planes[0]);
      WritePlane(s, l.planes[1]);
      WritePlane(s, l.planes[2]);
      WritePlane(s, l.planes[3]);
      Assoc6(d0, header, PlaneBytes(l.planes[0]), PlaneBytes(l.planes[1]), PlaneBytes(l.planes[2]), PlaneBytes(l.planes[3]));
    }
  }

  lemma Assoc6<T>(a: seq<T>, b: seq<T>, c: seq<T>, d: seq<T>, e: seq<T>, f: seq<T>)
    ensures a + b + c + d + e + f == a + (b + c + d + e + f)
  {
  }

  /** Outside the packed widths the planes are interleaved: byte `4 * k + c` is pixel `k` of plane `c`. */
  lemma {:induction false} PlainPixelsAt(l: Scanline, n: nat, k: nat, c: nat)
    requires l.Valid() && k < n <= l.width && c < 4
    ensures |PlainPixels(l, n)| == 4 * n && PlainPixels(l, n)[4 * k + c] == l.planes[c][k]
    decreases n
  {
    PlainPixelsLength(l, n - 1);
    if k < n - 1 {
      PlainPixelsAt(l, n - 1, k, c);
    }
  }

  lemma {:induction false} PlainPixelsLength(l: Scanline, n: nat)
    requires l.Valid() && n <= l.width
    ensures |PlainPixels(l, n)| == 4 * n
  {
    if n > 0 {
      PlainPixelsLength(l, n - 1);
    }
  }

  /** The bytes of such a scanline, one by one. */
  lemma PlainScanline(l: Scanline, k: nat, c: nat)
    requires l.Valid() && (l.width < 8 || l.width >= 32768) && k < l.width && c < 4
    ensures |Encode(l)| == 4 * l.width && Encode(l)[4 * k + c] == l.planes[c][k]
  {
    PlainPixelsAt(l, l.width, k, c);
    hide PlainPixels;
  }
}
