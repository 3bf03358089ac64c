/** CRC-32 of PNG chunks: the table-driven loop against bit-by-bit division. */
module Crc32 {
  import opened Bits
  import opened Word32

  /** The 256 constants of the table, eight to a row. */
  function TableRow(r: bv8): (row: seq<bv32>)
    ensures |row| == 8
  {
    match r
    case 0 => [0x00000000, 0x77073096, 0xEE0E612C, 0x990951BA, 0x076DC419, 0x706AF48F, 0xE963A535, 0x9E6495A3]
    case 1 => [0x0EDB8832, 0x79DCB8A4, 0xE0D5E91E, 0x97D2D988, 0x09B64C2B, 0x7EB17CBD, 0xE7B82D07, 0x90BF1D91]
    case 2 => [0x1DB71064, 0x6AB020F2, 0xF3B97148, 0x84BE41DE, 0x1ADAD47D, 0x6DDDE4EB, 0xF4D4B551, 0x83D385C7]
    case 3 => [0x136C9856, 0x646BA8C0, 0xFD62F97A, 0x8A65C9EC, 0x14015C4F, 0x63066CD9, 0xFA0F3D63, 0x8D080DF5]
    case 4 => [0x3B6E20C8, 0x4C69105E, 0xD56041E4, 0xA2677172, 0x3C03E4D1, 0x4B04D447, 0xD20D85FD, 0xA50AB56B]
    case 5 => [0x35B5A8FA, 0x42B2986C, 0xDBBBC9D6, 0xACBCF940, 0x32D86CE3, 0x45DF5C75, 0xDCD60DCF, 0xABD13D59]
    case 6 => [0x26D930AC, 0x51DE003A, 0xC8D75180, 0xBFD06116, 0x21B4F4B5, 0x56B3C423, 0xCFBA9599, 0xB8BDA50F]
    case 7 => [0x2802B89E, 0x5F058808, 0xC60CD9B2, 0xB10BE924, 0x2F6F7C87, 0x58684C11, 0xC1611DAB, 0xB6662D3D]
    case 8 => [0x76DC4190, 0x01DB7106, 0x98D220BC, 0xEFD5102A, 0x71B18589, 0x06B6B51F, 0x9FBFE4A5, 0xE8B8D433]
    case 9 => [0x7807C9A2, 0x0F00F934, 0x9609A88E, 0xE10E9818, 0x7F6A0DBB, 0x086D3D2D, 0x91646C97, 0xE6635C01]
    case 10 => [0x6B6B51F4, 0x1C6C6162, 0x856530D8, 0xF262004E, 0x6C0695ED, 0x1B01A57B, 0x8208F4C1, 0xF50FC457]
    case 11 => [0x65B0D9C6, 0x12B7E950, 0x8BBEB8EA, 0xFCB9887C, 0x62DD1DDF, 0x15DA2D49, 0x8CD37CF3, 0xFBD44C65]
    case 12 => [0x4DB26158, 0x3AB551CE, 0xA3BC0074, 0xD4BB30E2, 0x4ADFA541, 0x3DD895D7, 0xA4D1C46D, 0xD3D6F4FB]
    case 13 => [0x4369E96A, 0x346ED9FC, 0xAD678846, 0xDA60B8D0, 0x44042D73, 0x33031DE5, 0xAA0A4C5F, 0xDD0D7CC9]
    case 14 => [0x5005713C, 0x270241AA, 0xBE0B1010, 0xC90C2086, 0x5768B525, 0x206F85B3, 0xB966D409, 0xCE61E49F]
    case 15 => [0x5EDEF90E, 0x29D9C998, 0xB0D09822, 0xC7D7A8B4, 0x59B33D17, 0x2EB40D81, 0xB7BD5C3B, 0xC0BA6CAD]
    case 16 => [0xEDB88320, 0x9ABFB3B6, 0x03B6E20C, 0x74B1D29A, 0xEAD54739, 0x9DD277AF, 0x04DB2615, 0x73DC1683]
    case 17 => [0xE3630B12, 0x94643B84, 0x0D6D6A3E, 0x7A6A5AA8, 0xE40ECF0B, 0x9309FF9D, 0x0A00AE27, 0x7D079EB1]
    case 18 => [0xF00F9344, 0x8708A3D2, 0x1E01F268, 0x6906C2FE, 0xF762575D, 0x806567CB, 0x196C3671, 0x6E6B06E7]
    case 19 => [0xFED41B76, 0x89D32BE0, 0x10DA7A5A, 0x67DD4ACC, 0xF9B9DF6F, 0x8EBEEFF9, 0x17B7BE43, 0x60B08ED5]
    case 20 => [0xD6D6A3E8, 0xA1D1937E, 0x38D8C2C4, 0x4FDFF252, 0xD1BB67F1, 0xA6BC5767, 0x3FB506DD, 0x48B2364B]
    case 21 => [0xD80D2BDA, 0xAF0A1B4C, 0x36034AF6, 0x41047A60, 0xDF60EFC3, 0xA867DF55, 0x316E8EEF, 0x4669BE79]
    case 22 => [0xCB61B38C, 0xBC66831A, 0x256FD2A0, 0x5268E236, 0xCC0C7795, 0xBB0B4703, 0x220216B9, 0x5505262F]
    case 23 => [0xC5BA3BBE, 0xB2BD0B28, 0x2BB45A92, 0x5CB36A04, 0xC2D7FFA7, 0xB5D0CF31, 0x2CD99E8B, 0x5BDEAE1D]
    case 24 => [0x9B64C2B0, 0xEC63F226, 0x756AA39C, 0x026D930A, 0x9C0906A9, 0xEB0E363F, 0x72076785, 0x05005713]
    case 25 => [0x95BF4A82, 0xE2B87A14, 0x7BB12BAE, 0x0CB61B38, 0x92D28E9B, 0xE5D5BE0D, 0x7CDCEFB7, 0x0BDBDF21]
    case 26 => [0x86D3D2D4, 0xF1D4E242, 0x68DDB3F8, 0x1FDA836E, 0x81BE16CD, 0xF6B9265B, 0x6FB077E1, 0x18B74777]
    case 27 => [0x88085AE6, 0xFF0F6A70, 0x66063BCA, 0x11010B5C, 0x8F659EFF, 0xF862AE69, 0x616BFFD3, 0x166CCF45]
    case 28 => [0xA00AE278, 0xD70DD2EE, 0x4E048354, 0x3903B3C2, 0xA7672661, 0xD06016F7, 0x4969474D, 0x3E6E77DB]
    case 29 => [0xAED16A4A, 0xD9D65ADC, 0x40DF0B66, 0x37D83BF0, 0xA9BCAE53, 0xDEBB9EC5, 0x47B2CF7F, 0x30B5FFE9]
    case 30 => [0xBDBDF21C, 0xCABAC28A, 0x53B39330, 0x24B4A3A6, 0xBAD03605, 0xCDD70693, 0x54DE5729, 0x23D967BF]
    case _ => [0xB3667A2E, 0xC4614AB8, 0x5D681B02, 0x2A6F2B94, 0xB40BBE37, 0xC30C8EA1, 0x5A05DF1B, 0x2D02EF8D]
  }

  function Table(i: bv8): bv32 {
    TableRow(i >> 3)[(i & 7) as int]
  }

  /** One step of dividing by the reflected polynomial (RFC 2083, section 3.4). */
  function Step(c: bv32): bv32 {
    if c & 1 == 1 then Xor(0xEDB88320, c >> 1) else c >> 1
  }

  /** Feeds the `n` low bits of `b`, least significant first, one at a time. */
  function FeedBits(c: bv32, b: bv32, n: nat): bv32
    decreases n
  {
    if n == 0 then c else FeedBits(Step(Xor(c, b & 1)), b >> 1, n - 1)
  }

  function FeedBytes(c: bv32, s: seq<byte>): bv32
    decreases |s|
  {
    if s == [] then c else FeedBytes(FeedBits(c, s[0] as bv8 as bv32, 8), s[1..])
  }

  /** The CRC of a byte string by its definition: preset to ones, divide, complement. */
  function Crc(s: seq<byte>): bv32 {
    Xor(0xFFFF_FFFF, FeedBytes(0xFFFF_FFFF, s))
  }

  function Step8(c: bv32): bv32 {
    Step(Step(Step(Step(Step(Step(Step(Step(c))))))))
  }

  function DivisionRow(b: bv32): (row: seq<bv32>)
    ensures |row| == 8
  {
    [Step8(b), Step8(b + 1), Step8(b + 2), Step8(b + 3), Step8(b + 4), Step8(b + 5), Step8(b + 6), Step8(b + 7)]
  }

  lemma TableRows0To7(r: bv8)
    requires r < 8
    ensures TableRow(r) == DivisionRow(8 * (r as bv32))
  {
    match r {
      case 0 =>
      case 1 =>
      case 2 =>
      case 3 =>
      case 4 =>
      case 5 =>
      case 6 =>
      case _ =>
    }
  }

  lemma TableRows8To15(r: bv8)
    requires 8 <= r < 16
    ensures TableRow(r) == DivisionRow(8 * (r as bv32))
  {
    match r {
      case 8 =>
      case 9 =>
      case 10 =>
      case 11 =>
      case 12 =>
      case 13 =>
      case 14 =>
      case _ =>
    }
  }

  lemma TableRows16To23(r: bv8)
    requires 16 <= r < 24
    ensures TableRow(r) == DivisionRow(8 * (r as bv32))
  {
    match r {
      case 16 =>
      case 17 =>
      case 18 =>
      case 19 =>
      case 20 =>
      case 21 =>
      case 22 =>
      case _ =>
    }
  }

  lemma TableRows24To31(r: bv8)
    requires 24 <= r < 32
    ensures TableRow(r) == DivisionRow(8 * (r as bv32))
  {
    match r {
      case 24 =>
      case 25 =>
      case 26 =>
      case 27 =>
      case 28 =>
      case 29 =>
      case 30 =>
      case _ =>
    }
  }

  /** Each of the 256 constants is eight division steps of its own index. */
  lemma TableIsDivision(i: bv8)
    ensures Table(i) == Step8(i as bv32)
  {
    hide TableRow, Step8;
    var r := i >> 3;
    if r < 8 {
      TableRows0To7(r);
    } else if r < 16 {
      TableRows8To15(r);
    } else if r < 24 {
      TableRows16To23(r);
    } else {
      TableRows24To31(r);
    }
    match i & 7 {
      case 0 =>
      case 1 =>
      case 2 =>
      case 3 =>
      case 4 =>
      case 5 =>
      case 6 =>
      case _ =>
    }
  }

  lemma StepXor(x: bv32, y: bv32)
    ensures Step(Xor(x, y)) == Xor(Step(x), Step(y))
  {
    hide Xor;
    ShiftXor(x, y);
    OddXor(x, y);
    XorAssoc(0xEDB88320, x >> 1, y >> 1);
    XorExchange(0xEDB88320, x >> 1, y >> 1);
    XorCancel(0xEDB88320, x >> 1, y >> 1);
  }

  lemma Step8Xor(x: bv32, y: bv32)
    ensures Step8(Xor(x, y)) == Xor(Step8(x), Step8(y))
  {
    hide Step, Xor;
    var x1, y1 := Step(x), Step(y);
    var x2, y2 := Step(x1), Step(y1);
    var x3, y3 := Step(x2), Step(y2);
    var x4, y4 := Step(x3), Step(y3);
    var x5, y5 := Step(x4), Step(y4);
    var x6, y6 := Step(x5), Step(y5);
    StepXor(x, y);
    StepXor(x1, y1);
    StepXor(x2, y2);
    StepXor(x3, y3);
    StepXor(x4, y4);
    StepXor(x5, y5);
    StepXor(x6, y6);
    StepXor(Step(x6), Step(y6));
  }

  lemma Step8OfHigh(x: bv32)
    requires x & 0xff == 0
    ensures Step8(x) == x >> 8
  {
  }

  lemma StepOfEven(x: bv32)
    requires x & 1 == 0
    ensures Step(x) == x >> 1
  {
  }

  /** Feeding a bit first and the others later is feeding them together. */
  lemma FeedStep(c: bv32, b: bv32)
    ensures Step(Xor(c, b)) == Xor(Step(Xor(c, b & 1)), b >> 1)
  {
    hide Step, Xor;
    SplitLowBit(c, b);
    StepXor(Xor(c, b & 1), b & 0xFFFF_FFFE);
    StepOfEven(b & 0xFFFF_FFFE);
  }

  function StepN(c: bv32, n: nat): bv32
    decreases n
  {
    if n == 0 then c else StepN(Step(c), n - 1)
  }

  function ShiftN(b: bv32, n: nat): bv32
    decreases n
  {
    if n == 0 then b else ShiftN(b >> 1, n - 1)
  }

  /** Division is linear: bits fed one at a time may as well be added at once. */
  lemma {:induction false} FeedBitsIsSteps(c: bv32, b: bv32, n: nat)
    ensures StepN(Xor(c, b), n) == Xor(FeedBits(c, b, n), ShiftN(b, n))
    decreases n
  {
    hide Step, Xor;
    if n > 0 {
      FeedStep(c, b);
      FeedBitsIsSteps(Step(Xor(c, b & 1)), b >> 1, n - 1);
    }
  }

  lemma StepNOfEight(c: bv32)
    ensures StepN(c, 8) == Step8(c)
  {
    hide Step;
    assert StepN(c, 8) == StepN(Step(Step(Step(Step(c)))), 4);
  }

  lemma ShiftNOfByte(b: bv32)
    requires b <= 0xff
    ensures ShiftN(b, 8) == 0
  {
    assert ShiftN(b, 8) == ShiftN(b >> 1 >> 1 >> 1 >> 1, 4);
  }

  lemma FeedByteIsSteps(c: bv32, b: bv32)
    requires b <= 0xff
    ensures FeedBits(c, b, 8) == Step8(Xor(c, b))
  {
    hide Step, Xor, Step8, FeedBits, StepN, ShiftN;
    FeedBitsIsSteps(c, b, 8);
    StepNOfEight(Xor(c, b));
    ShiftNOfByte(b);
    XorZero(FeedBits(c, b, 8));
  }

  /** Where the loop looks: the low byte of the register against the next byte. */
  function TableIndex(c: bv32, b: bv8): bv8 {
    b ^ (c & 0xff) as bv8
  }

  lemma SplitWord(c: bv32, b: bv8)
    ensures Xor(c, b as bv32) == Xor(c & 0xFFFF_FF00, TableIndex(c, b) as bv32)
    ensures (c & 0xFFFF_FF00) & 0xff == 0 && (c & 0xFFFF_FF00) >> 8 == c >> 8
  {
  }

  /** One iteration of the table-driven loop consumes one byte of the division. */
  lemma TableStep(c: bv32, b: bv8)
    ensures Xor(c >> 8, Table(TableIndex(c, b))) == FeedBits(c, b as bv32, 8)
  {
    hide Xor, Step8, Table, FeedBits, TableIndex;
    TableIsDivision(TableIndex(c, b));
    FeedByteIsSteps(c, b as bv32);
    SplitWord(c, b);
    Step8Xor(c & 0xFFFF_FF00, TableIndex(c, b) as bv32);
    Step8OfHigh(c & 0xFFFF_FF00);
  }

  /** `stbiw__crc32`. */
  method Crc32(buffer: seq<byte>) returns (r: bv32)
    ensures r == Crc(buffer)
  {
    hide Xor, Table, FeedBits, TableIndex;
    var crc: bv32 := 0xFFFF_FFFF;
    var i := 0;
    while i < |buffer|
      invariant 0 <= i <= |buffer|
      invariant FeedBytes(crc, buffer[i..]) == FeedBytes(0xFFFF_FFFF, buffer)
    {
      TableStep(crc, buffer[i] as bv8);
      assert buffer[i..][0] == buffer[i] && buffer[i..][1..] == buffer[i + 1..];
      crc := Xor(crc >> 8, Table(TableIndex(crc, buffer[i] as bv8)));
      i := i + 1;
    }
    r := Xor(0xFFFF_FFFF, crc);
  }
}
