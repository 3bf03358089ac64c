/** The Huffman tables of the JPEG writer: the code words it sends and the lists it announces. */
module JpegTables {
  import opened Bits

  datatype Table = YDC | UVDC | YAC | UVAC

  /** A code word: its value and its length; length 0 means there is none. */
  datatype Word = Word(code: nat, len: nat)

  /** `std_dc_luminance_nrcodes`: how many codes have length `l`. */
  function YDCNrCodes(l: nat): nat {
    match l
    case 2 => 1 case 3 => 5 case 4 => 1 case 5 => 1 case 6 => 1 case 7 => 1
    case 8 => 1 case 9 => 1 case _ => 0
  }

  /** `std_dc_luminance_values`: the symbols in the order of their codes. */
  function YDCValues(k: nat): byte {
    match k
    case 0 => 0 case 1 => 1 case 2 => 2 case 3 => 3 case 4 => 4 case 5 => 5
    case 6 => 6 case 7 => 7 case 8 => 8 case 9 => 9 case 10 => 10 case _ => 11
  }

  /** `YDC_HT`: the code word of a size. */
  function YDCWord(symbol: nat): Word {
    match symbol
    case 0 => Word(0, 2) case 1 => Word(2, 3) case 2 => Word(3, 3) case 3 => Word(4, 3) case 4 => Word(5, 3) case 5 => Word(6, 3)
    case 6 => Word(14, 4) case 7 => Word(30, 5) case 8 => Word(62, 6) case 9 => Word(126, 7) case 10 => Word(254, 8) case 11 => Word(510, 9)
    case _ => Word(0, 0)
  }

  /** `std_dc_chrominance_nrcodes`: how many codes have length `l`. */
  function UVDCNrCodes(l: nat): nat {
    match l
    case 2 => 3 case 3 => 1 case 4 => 1 case 5 => 1 case 6 => 1 case 7 => 1
    case 8 => 1 case 9 => 1 case 10 => 1 case 11 => 1 case _ => 0
  }

  /** `std_dc_chrominance_values`: the symbols in the order of their codes. */
  function UVDCValues(k: nat): byte {
    match k
    case 0 => 0 case 1 => 1 case 2 => 2 case 3 => 3 case 4 => 4 case 5 => 5
    case 6 => 6 case 7 => 7 case 8 => 8 case 9 => 9 case 10 => 10 case _ => 11
  }

  /** `UVDC_HT`: the code word of a size. */
  function UVDCWord(symbol: nat): Word {
    match symbol
    case 0 => Word(0, 2) case 1 => Word(1, 2) case 2 => Word(2, 2) case 3 => Word(6, 3) case 4 => Word(14, 4) case 5 => Word(30, 5)
    case 6 => Word(62, 6) case 7 => Word(126, 7) case 8 => Word(254, 8) case 9 => Word(510, 9) case 10 => Word(1022, 10) case 11 => Word(2046, 11)
    case _ => Word(0, 0)
  }

  /** `std_ac_luminance_nrcodes`: how many codes have length `l`. */
  function YACNrCodes(l: nat): nat {
    match l
    case 2 => 2 case 3 => 1 case 4 => 3 case 5 => 3 case 6 => 2 case 7 => 4
    case 8 => 3 case 9 => 5 case 10 => 5 case 11 => 4 case 12 => 4 case 15 => 1
    case 16 => 125 case _ => 0
  }

  function YACValues0(k: nat): byte {
    match k
    case 0 => 0x01 case 1 => 0x02 case 2 => 0x03 case 3 => 0x00 case 4 => 0x04 case 5 => 0x11 case 6 => 0x05 case 7 => 0x12 case 8 => 0x21
    case 9 => 0x31 case 10 => 0x41 case 11 => 0x06 case 12 => 0x13 case 13 => 0x51 case 14 => 0x61 case 15 => 0x07 case 16 => 0x22 case _ => 0x71
  }

  function YACValues1(k: nat): byte {
    match k
    case 0 => 0x14 case 1 => 0x32 case 2 => 0x81 case 3 => 0x91 case 4 => 0xa1 case 5 => 0x08 case 6 => 0x23 case 7 => 0x42 case 8 => 0xb1
    case 9 => 0xc1 case 10 => 0x15 case 11 => 0x52 case 12 => 0xd1 case 13 => 0xf0 case 14 => 0x24 case 15 => 0x33 case 16 => 0x62 case _ => 0x72
  }

  function YACValues2(k: nat): byte {
    match k
    case 0 => 0x82 case 1 => 0x09 case 2 => 0x0a case 3 => 0x16 case 4 => 0x17 case 5 => 0x18 case 6 => 0x19 case 7 => 0x1a case 8 => 0x25
    case 9 => 0x26 case 10 => 0x27 case 11 => 0x28 case 12 => 0x29 case 13 => 0x2a case 14 => 0x34 case 15 => 0x35 case 16 => 0x36 case _ => 0x37
  }

  function YACValues3(k: nat): byte {
    match k
    case 0 => 0x38 case 1 => 0x39 case 2 => 0x3a case 3 => 0x43 case 4 => 0x44 case 5 => 0x45 case 6 => 0x46 case 7 => 0x47 case 8 => 0x48
    case 9 => 0x49 case 10 => 0x4a case 11 => 0x53 case 12 => 0x54 case 13 => 0x55 case 14 => 0x56 case 15 => 0x57 case 16 => 0x58 case _ => 0x59
  }

  function YACValues4(k: nat): byte {
    match k
    case 0 => 0x5a case 1 => 0x63 case 2 => 0x64 case 3 => 0x65 case 4 => 0x66 case 5 => 0x67 case 6 => 0x68 case 7 => 0x69 case 8 => 0x6a
    case 9 => 0x73 case 10 => 0x74 case 11 => 0x75 case 12 => 0x76 case 13 => 0x77 case 14 => 0x78 case 15 => 0x79 case 16 => 0x7a case _ => 0x83
  }

  function YACValues5(k: nat): byte {
    match k
    case 0 => 0x84 case 1 => 0x85 case 2 => 0x86 case 3 => 0x87 case 4 => 0x88 case 5 => 0x89 case 6 => 0x8a case 7 => 0x92 case 8 => 0x93
    case 9 => 0x94 case 10 => 0x95 case 11 => 0x96 case 12 => 0x97 case 13 => 0x98 case 14 => 0x99 case 15 => 0x9a case 16 => 0xa2 case _ => 0xa3
  }

  function YACValues6(k: nat): byte {
    match k
    case 0 => 0xa4 case 1 => 0xa5 case 2 => 0xa6 case 3 => 0xa7 case 4 => 0xa8 case 5 => 0xa9 case 6 => 0xaa case 7 => 0xb2 case 8 => 0xb3
    case 9 => 0xb4 case 10 => 0xb5 case 11 => 0xb6 case 12 => 0xb7 case 13 => 0xb8 case 14 => 0xb9 case 15 => 0xba case 16 => 0xc2 case _ => 0xc3
  }

  function YACValues7(k: nat): byte {
    match k
    case 0 => 0xc4 case 1 => 0xc5 case 2 => 0xc6 case 3 => 0xc7 case 4 => 0xc8 case 5 => 0xc9 case 6 => 0xca case 7 => 0xd2 case 8 => 0xd3
    case 9 => 0xd4 case 10 => 0xd5 case 11 => 0xd6 case 12 => 0xd7 case 13 => 0xd8 case 14 => 0xd9 case 15 => 0xda case 16 => 0xe1 case _ => 0xe2
  }

  function YACValues8(k: nat): byte {
    match k
    case 0 => 0xe3 case 1 => 0xe4 case 2 => 0xe5 case 3 => 0xe6 case 4 => 0xe7 case 5 => 0xe8 case 6 => 0xe9 case 7 => 0xea case 8 => 0xf1
    case 9 => 0xf2 case 10 => 0xf3 case 11 => 0xf4 case 12 => 0xf5 case 13 => 0xf6 case 14 => 0xf7 case 15 => 0xf8 case 16 => 0xf9 case _ => 0xfa
  }

  /** `std_ac_luminance_values`: the symbols in the order of their codes. */
  function YACValues(k: nat): byte {
    match k / 18
    case 0 => YACValues0(k % 18) case 1 => YACValues1(k % 18) case 2 => YACValues2(k % 18)
    case 3 => YACValues3(k % 18) case 4 => YACValues4(k % 18) case 5 => YACValues5(k % 18)
    case 6 => YACValues6(k % 18) case 7 => YACValues7(k % 18) case _ => YACValues8(k % 18)
  }

  function YACRow0(size: nat): Word {
    match size
    case 0 => Word(10, 4) case 1 => Word(0, 2) case 2 => Word(1, 2) case 3 => Word(4, 3) case 4 => Word(11, 4) case 5 => Word(26, 5)
    case 6 => Word(120, 7) case 7 => Word(248, 8) case 8 => Word(1014, 10) case 9 => Word(65410, 16) case 10 => Word(65411, 16) case _ => Word(0, 0)
  }

  function YACRow1(size: nat): Word {
    match size
    case 1 => Word(12, 4) case 2 => Word(27, 5) case 3 => Word(121, 7) case 4 => Word(502, 9) case 5 => Word(2038, 11) case 6 => Word(65412, 16)
    case 7 => Word(65413, 16) case 8 => Word(65414, 16) case 9 => Word(65415, 16) case 10 => Word(65416, 16) case _ => Word(0, 0)
  }

  function YACRow2(size: nat): Word {
    match size
    case 1 => Word(28, 5) case 2 => Word(249, 8) case 3 => Word(1015, 10) case 4 => Word(4084, 12) case 5 => Word(65417, 16) case 6 => Word(65418, 16)
    case 7 => Word(65419, 16) case 8 => Word(65420, 16) case 9 => Word(65421, 16) case 10 => Word(65422, 16) case _ => Word(0, 0)
  }

  function YACRow3(size: nat): Word {
    match size
    case 1 => Word(58, 6) case 2 => Word(503, 9) case 3 => Word(4085, 12) case 4 => Word(65423, 16) case 5 => Word(65424, 16) case 6 => Word(65425, 16)
    case 7 => Word(65426, 16) case 8 => Word(65427, 16) case 9 => Word(65428, 16) case 10 => Word(65429, 16) case _ => Word(0, 0)
  }

  function YACRow4(size: nat): Word {
    match size
    case 1 => Word(59, 6) case 2 => Word(1016, 10) case 3 => Word(65430, 16) case 4 => Word(65431, 16) case 5 => Word(65432, 16) case 6 => Word(65433, 16)
    case 7 => Word(65434, 16) case 8 => Word(65435, 16) case 9 => Word(65436, 16) case 10 => Word(65437, 16) case _ => Word(0, 0)
  }

  function YACRow5(size: nat): Word {
    match size
    case 1 => Word(122, 7) case 2 => Word(2039, 11) case 3 => Word(65438, 16) case 4 => Word(65439, 16) case 5 => Word(65440, 16) case 6 => Word(65441, 16)
    case 7 => Word(65442, 16) case 8 => Word(65443, 16) case 9 => Word(65444, 16) case 10 => Word(65445, 16) case _ => Word(0, 0)
  }

  function YACRow6(size: nat): Word {
    match size
    case 1 => Word(123, 7) case 2 => Word(4086, 12) case 3 => Word(65446, 16) case 4 => Word(65447, 16) case 5 => Word(65448, 16) case 6 => Word(65449, 16)
    case 7 => Word(65450, 16) case 8 => Word(65451, 16) case 9 => Word(65452, 16) case 10 => Word(65453, 16) case _ => Word(0, 0)
  }

  function YACRow7(size: nat): Word {
    match size
    case 1 => Word(250, 8) case 2 => Word(4087, 12) case 3 => Word(65454, 16) case 4 => Word(65455, 16) case 5 => Word(65456, 16) case 6 => Word(65457, 16)
    case 7 => Word(65458, 16) case 8 => Word(65459, 16) case 9 => Word(65460, 16) case 10 => Word(65461, 16) case _ => Word(0, 0)
  }

  function YACRow8(size: nat): Word {
    match size
    case 1 => Word(504, 9) case 2 => Word(32704, 15) case 3 => Word(65462, 16) case 4 => Word(65463, 16) case 5 => Word(65464, 16) case 6 => Word(65465, 16)
    case 7 => Word(65466, 16) case 8 => Word(65467, 16) case 9 => Word(65468, 16) case 10 => Word(65469, 16) case _ => Word(0, 0)
  }

  function YACRow9(size: nat): Word {
    match size
    case 1 => Word(505, 9) case 2 => Word(65470, 16) case 3 => Word(65471, 16) case 4 => Word(65472, 16) case 5 => Word(65473, 16) case 6 => Word(65474, 16)
    case 7 => Word(65475, 16) case 8 => Word(65476, 16) case 9 => Word(65477, 16) case 10 => Word(65478, 16) case _ => Word(0, 0)
  }

  function YACRow10(size: nat): Word {
    match size
    case 1 => Word(506, 9) case 2 => Word(65479, 16) case 3 => Word(65480, 16) case 4 => Word(65481, 16) case 5 => Word(65482, 16) case 6 => Word(65483, 16)
    case 7 => Word(65484, 16) case 8 => Word(65485, 16) case 9 => Word(65486, 16) case 10 => Word(65487, 16) case _ => Word(0, 0)
  }

  function YACRow11(size: nat): Word {
    match size
    case 1 => Word(1017, 10) case 2 => Word(65488, 16) case 3 => Word(65489, 16) case 4 => Word(65490, 16) case 5 => Word(65491, 16) case 6 => Word(65492, 16)
    case 7 => Word(65493, 16) case 8 => Word(65494, 16) case 9 => Word(65495, 16) case 10 => Word(65496, 16) case _ => Word(0, 0)
  }

  function YACRow12(size: nat): Word {
    match size
    case 1 => Word(1018, 10) case 2 => Word(65497, 16) case 3 => Word(65498, 16) case 4 => Word(65499, 16) case 5 => Word(65500, 16) case 6 => Word(65501, 16)
    case 7 => Word(65502, 16) case 8 => Word(65503, 16) case 9 => Word(65504, 16) case 10 => Word(65505, 16) case _ => Word(0, 0)
  }

  function YACRow13(size: nat): Word {
    match size
    case 1 => Word(2040, 11) case 2 => Word(65506, 16) case 3 => Word(65507, 16) case 4 => Word(65508, 16) case 5 => Word(65509, 16) case 6 => Word(65510, 16)
    case 7 => Word(65511, 16) case 8 => Word(65512, 16) case 9 => Word(65513, 16) case 10 => Word(65514, 16) case _ => Word(0, 0)
  }

  function YACRow14(size: nat): Word {
    match size
    case 1 => Word(65515, 16) case 2 => Word(65516, 16) case 3 => Word(65517, 16) case 4 => Word(65518, 16) case 5 => Word(65519, 16) case 6 => Word(65520, 16)
    case 7 => Word(65521, 16) case 8 => Word(65522, 16) case 9 => Word(65523, 16) case 10 => Word(65524, 16) case _ => Word(0, 0)
  }

  function YACRow15(size: nat): Word {
    match size
    case 0 => Word(2041, 11) case 1 => Word(65525, 16) case 2 => Word(65526, 16) case 3 => Word(65527, 16) case 4 => Word(65528, 16) case 5 => Word(65529, 16)
    case 6 => Word(65530, 16) case 7 => Word(65531, 16) case 8 => Word(65532, 16) case 9 => Word(65533, 16) case 10 => Word(65534, 16) case _ => Word(0, 0)
  }

  /** `YAC_HT`: the code word of a zero run and a size, rows by run. */
  function YACWord(symbol: nat): Word {
    match symbol / 16
    case 0 => YACRow0(symbol % 16) case 1 => YACRow1(symbol % 16) case 2 => YACRow2(symbol % 16) case 3 => YACRow3(symbol % 16)
    case 4 => YACRow4(symbol % 16) case 5 => YACRow5(symbol % 16) case 6 => YACRow6(symbol % 16) case 7 => YACRow7(symbol % 16)
    case 8 => YACRow8(symbol % 16) case 9 => YACRow9(symbol % 16) case 10 => YACRow10(symbol % 16) case 11 => YACRow11(symbol % 16)
    case 12 => YACRow12(symbol % 16) case 13 => YACRow13(symbol % 16) case 14 => YACRow14(symbol % 16) case 15 => YACRow15(symbol % 16)
    case _ => Word(0, 0)
  }

  /** `std_ac_chrominance_nrcodes`: how many codes have length `l`. */
  function UVACNrCodes(l: nat): nat {
    match l
    case 2 => 2 case 3 => 1 case 4 => 2 case 5 => 4 case 6 => 4 case 7 => 3
    case 8 => 4 case 9 => 7 case 10 => 5 case 11 => 4 case 12 => 4 case 14 => 1
    case 15 => 2 case 16 => 119 case _ => 0
  }

  function UVACValues0(k: nat): byte {
    match k
    case 0 => 0x00 case 1 => 0x01 case 2 => 0x02 case 3 => 0x03 case 4 => 0x11 case 5 => 0x04 case 6 => 0x05 case 7 => 0x21 case 8 => 0x31
    case 9 => 0x06 case 10 => 0x12 case 11 => 0x41 case 12 => 0x51 case 13 => 0x07 case 14 => 0x61 case 15 => 0x71 case 16 => 0x13 case _ => 0x22
  }

  function UVACValues1(k: nat): byte {
    match k
    case 0 => 0x32 case 1 => 0x81 case 2 => 0x08 case 3 => 0x14 case 4 => 0x42 case 5 => 0x91 case 6 => 0xa1 case 7 => 0xb1 case 8 => 0xc1
    case 9 => 0x09 case 10 => 0x23 case 11 => 0x33 case 12 => 0x52 case 13 => 0xf0 case 14 => 0x15 case 15 => 0x62 case 16 => 0x72 case _ => 0xd1
  }

  function UVACValues2(k: nat): byte {
    match k
    case 0 => 0x0a case 1 => 0x16 case 2 => 0x24 case 3 => 0x34 case 4 => 0xe1 case 5 => 0x25 case 6 => 0xf1 case 7 => 0x17 case 8 => 0x18
    case 9 => 0x19 case 10 => 0x1a case 11 => 0x26 case 12 => 0x27 case 13 => 0x28 case 14 => 0x29 case 15 => 0x2a case 16 => 0x35 case _ => 0x36
  }

  function UVACValues3(k: nat): byte {
    match k
    case 0 => 0x37 case 1 => 0x38 case 2 => 0x39 case 3 => 0x3a case 4 => 0x43 case 5 => 0x44 case 6 => 0x45 case 7 => 0x46 case 8 => 0x47
    case 9 => 0x48 case 10 => 0x49 case 11 => 0x4a case 12 => 0x53 case 13 => 0x54 case 14 => 0x55 case 15 => 0x56 case 16 => 0x57 case _ => 0x58
  }

  function UVACValues4(k: nat): byte {
    match k
    case 0 => 0x59 case 1 => 0x5a case 2 => 0x63 case 3 => 0x64 case 4 => 0x65 case 5 => 0x66 case 6 => 0x67 case 7 => 0x68 case 8 => 0x69
    case 9 => 0x6a case 10 => 0x73 case 11 => 0x74 case 12 => 0x75 case 13 => 0x76 case 14 => 0x77 case 15 => 0x78 case 16 => 0x79 case _ => 0x7a
  }

  function UVACValues5(k: nat): byte {
    match k
    case 0 => 0x82 case 1 => 0x83 case 2 => 0x84 case 3 => 0x85 case 4 => 0x86 case 5 => 0x87 case 6 => 0x88 case 7 => 0x89 case 8 => 0x8a
    case 9 => 0x92 case 10 => 0x93 case 11 => 0x94 case 12 => 0x95 case 13 => 0x96 case 14 => 0x97 case 15 => 0x98 case 16 => 0x99 case _ => 0x9a
  }

  function UVACValues6(k: nat): byte {
    match k
    case 0 => 0xa2 case 1 => 0xa3 case 2 => 0xa4 case 3 => 0xa5 case 4 => 0xa6 case 5 => 0xa7 case 6 => 0xa8 case 7 => 0xa9 case 8 => 0xaa
    case 9 => 0xb2 case 10 => 0xb3 case 11 => 0xb4 case 12 => 0xb5 case 13 => 0xb6 case 14 => 0xb7 case 15 => 0xb8 case 16 => 0xb9 case _ => 0xba
  }

  function UVACValues7(k: nat): byte {
    match k
    case 0 => 0xc2 case 1 => 0xc3 case 2 => 0xc4 case 3 => 0xc5 case 4 => 0xc6 case 5 => 0xc7 case 6 => 0xc8 case 7 => 0xc9 case 8 => 0xca
    case 9 => 0xd2 case 10 => 0xd3 case 11 => 0xd4 case 12 => 0xd5 case 13 => 0xd6 case 14 => 0xd7 case 15 => 0xd8 case 16 => 0xd9 case _ => 0xda
  }

  function UVACValues8(k: nat): byte {
    match k
    case 0 => 0xe2 case 1 => 0xe3 case 2 => 0xe4 case 3 => 0xe5 case 4 => 0xe6 case 5 => 0xe7 case 6 => 0xe8 case 7 => 0xe9 case 8 => 0xea
    case 9 => 0xf2 case 10 => 0xf3 case 11 => 0xf4 case 12 => 0xf5 case 13 => 0xf6 case 14 => 0xf7 case 15 => 0xf8 case 16 => 0xf9 case _ => 0xfa
  }

  /** `std_ac_chrominance_values`: the symbols in the order of their codes. */
  function UVACValues(k: nat): byte {
    match k / 18
    case 0 => UVACValues0(k % 18) case 1 => UVACValues1(k % 18) case 2 => UVACValues2(k % 18)
    case 3 => UVACValues3(k % 18) case 4 => UVACValues4(k % 18) case 5 => UVACValues5(k % 18)
    case 6 => UVACValues6(k % 18) case 7 => UVACValues7(k % 18) case _ => UVACValues8(k % 18)
  }

  function UVACRow0(size: nat): Word {
    match size
    case 0 => Word(0, 2) case 1 => Word(1, 2) case 2 => Word(4, 3) case 3 => Word(10, 4) case 4 => Word(24, 5) case 5 => Word(25, 5)
    case 6 => Word(56, 6) case 7 => Word(120, 7) case 8 => Word(500, 9) case 9 => Word(1014, 10) case 10 => Word(4084, 12) case _ => Word(0, 0)
  }

  function UVACRow1(size: nat): Word {
    match size
    case 1 => Word(11, 4) case 2 => Word(57, 6) case 3 => Word(246, 8) case 4 => Word(501, 9) case 5 => Word(2038, 11) case 6 => Word(4085, 12)
    case 7 => Word(65416, 16) case 8 => Word(65417, 16) case 9 => Word(65418, 16) case 10 => Word(65419, 16) case _ => Word(0, 0)
  }

  function UVACRow2(size: nat): Word {
    match size
    case 1 => Word(26, 5) case 2 => Word(247, 8) case 3 => Word(1015, 10) case 4 => Word(4086, 12) case 5 => Word(32706, 15) case 6 => Word(65420, 16)
    case 7 => Word(65421, 16) case 8 => Word(65422, 16) case 9 => Word(65423, 16) case 10 => Word(65424, 16) case _ => Word(0, 0)
  }

  function UVACRow3(size: nat): Word {
    match size
    case 1 => Word(27, 5) case 2 => Word(248, 8) case 3 => Word(1016, 10) case 4 => Word(4087, 12) case 5 => Word(65425, 16) case 6 => Word(65426, 16)
    case 7 => Word(65427, 16) case 8 => Word(65428, 16) case 9 => Word(65429, 16) case 10 => Word(65430, 16) case _ => Word(0, 0)
  }

  function UVACRow4(size: nat): Word {
    match size
    case 1 => Word(58, 6) case 2 => Word(502, 9) case 3 => Word(65431, 16) case 4 => Word(65432, 16) case 5 => Word(65433, 16) case 6 => Word(65434, 16)
    case 7 => Word(65435, 16) case 8 => Word(65436, 16) case 9 => Word(65437, 16) case 10 => Word(65438, 16) case _ => Word(0, 0)
  }

  function UVACRow5(size: nat): Word {
    match size
    case 1 => Word(59, 6) case 2 => Word(1017, 10) case 3 => Word(65439, 16) case 4 => Word(65440, 16) case 5 => Word(65441, 16) case 6 => Word(65442, 16)
    case 7 => Word(65443, 16) case 8 => Word(65444, 16) case 9 => Word(65445, 16) case 10 => Word(65446, 16) case _ => Word(0, 0)
  }

  function UVACRow6(size: nat): Word {
    match size
    case 1 => Word(121, 7) case 2 => Word(2039, 11) case 3 => Word(65447, 16) case 4 => Word(65448, 16) case 5 => Word(65449, 16) case 6 => Word(65450, 16)
    case 7 => Word(65451, 16) case 8 => Word(65452, 16) case 9 => Word(65453, 16) case 10 => Word(65454, 16) case _ => Word(0, 0)
  }

  function UVACRow7(size: nat): Word {
    match size
    case 1 => Word(122, 7) case 2 => Word(2040, 11) case 3 => Word(65455, 16) case 4 => Word(65456, 16) case 5 => Word(65457, 16) case 6 => Word(65458, 16)
    case 7 => Word(65459, 16) case 8 => Word(65460, 16) case 9 => Word(65461, 16) case 10 => Word(65462, 16) case _ => Word(0, 0)
  }

  function UVACRow8(size: nat): Word {
    match size
    case 1 => Word(249, 8) case 2 => Word(65463, 16) case 3 => Word(65464, 16) case 4 => Word(65465, 16) case 5 => Word(65466, 16) case 6 => Word(65467, 16)
    case 7 => Word(65468, 16) case 8 => Word(65469, 16) case 9 => Word(65470, 16) case 10 => Word(65471, 16) case _ => Word(0, 0)
  }

  function UVACRow9(size: nat): Word {
    match size
    case 1 => Word(503, 9) case 2 => Word(65472, 16) case 3 => Word(65473, 16) case 4 => Word(65474, 16) case 5 => Word(65475, 16) case 6 => Word(65476, 16)
    case 7 => Word(65477, 16) case 8 => Word(65478, 16) case 9 => Word(65479, 16) case 10 => Word(65480, 16) case _ => Word(0, 0)
  }

  function UVACRow10(size: nat): Word {
    match size
    case 1 => Word(504, 9) case 2 => Word(65481, 16) case 3 => Word(65482, 16) case 4 => Word(65483, 16) case 5 => Word(65484, 16) case 6 => Word(65485, 16)
    case 7 => Word(65486, 16) case 8 => Word(65487, 16) case 9 => Word(65488, 16) case 10 => Word(65489, 16) case _ => Word(0, 0)
  }

  function UVACRow11(size: nat): Word {
    match size
    case 1 => Word(505, 9) case 2 => Word(65490, 16) case 3 => Word(65491, 16) case 4 => Word(65492, 16) case 5 => Word(65493, 16) case 6 => Word(65494, 16)
    case 7 => Word(65495, 16) case 8 => Word(65496, 16) case 9 => Word(65497, 16) case 10 => Word(65498, 16) case _ => Word(0, 0)
  }

  function UVACRow12(size: nat): Word {
    match size
    case 1 => Word(506, 9) case 2 => Word(65499, 16) case 3 => Word(65500, 16) case 4 => Word(65501, 16) case 5 => Word(65502, 16) case 6 => Word(65503, 16)
    case 7 => Word(65504, 16) case 8 => Word(65505, 16) case 9 => Word(65506, 16) case 10 => Word(65507, 16) case _ => Word(0, 0)
  }

  function UVACRow13(size: nat): Word {
    match size
    case 1 => Word(2041, 11) case 2 => Word(65508, 16) case 3 => Word(65509, 16) case 4 => Word(65510, 16) case 5 => Word(65511, 16) case 6 => Word(65512, 16)
    case 7 => Word(65513, 16) case 8 => Word(65514, 16) case 9 => Word(65515, 16) case 10 => Word(65516, 16) case _ => Word(0, 0)
  }

  function UVACRow14(size: nat): Word {
    match size
    case 1 => Word(16352, 14) case 2 => Word(65517, 16) case 3 => Word(65518, 16) case 4 => Word(65519, 16) case 5 => Word(65520, 16) case 6 => Word(65521, 16)
    case 7 => Word(65522, 16) case 8 => Word(65523, 16) case 9 => Word(65524, 16) case 10 => Word(65525, 16) case _ => Word(0, 0)
  }

  function UVACRow15(size: nat): Word {
    match size
    case 0 => Word(1018, 10) case 1 => Word(32707, 15) case 2 => Word(65526, 16) case 3 => Word(65527, 16) case 4 => Word(65528, 16) case 5 => Word(65529, 16)
    case 6 => Word(65530, 16) case 7 => Word(65531, 16) case 8 => Word(65532, 16) case 9 => Word(65533, 16) case 10 => Word(65534, 16) case _ => Word(0, 0)
  }

  /** `UVAC_HT`: the code word of a zero run and a size, rows by run. */
  function UVACWord(symbol: nat): Word {
    match symbol / 16
    case 0 => UVACRow0(symbol % 16) case 1 => UVACRow1(symbol % 16) case 2 => UVACRow2(symbol % 16) case 3 => UVACRow3(symbol % 16)
    case 4 => UVACRow4(symbol % 16) case 5 => UVACRow5(symbol % 16) case 6 => UVACRow6(symbol % 16) case 7 => UVACRow7(symbol % 16)
    case 8 => UVACRow8(symbol % 16) case 9 => UVACRow9(symbol % 16) case 10 => UVACRow10(symbol % 16) case 11 => UVACRow11(symbol % 16)
    case 12 => UVACRow12(symbol % 16) case 13 => UVACRow13(symbol % 16) case 14 => UVACRow14(symbol % 16) case 15 => UVACRow15(symbol % 16)
    case _ => Word(0, 0)
  }

  function NrCodes(t: Table, l: nat): nat {
    match t
    case YDC => YDCNrCodes(l)
    case UVDC => UVDCNrCodes(l)
    case YAC => YACNrCodes(l)
    case UVAC => UVACNrCodes(l)
  }

  function Values(t: Table, k: nat): byte {
    match t
    case YDC => YDCValues(k)
    case UVDC => UVDCValues(k)
    case YAC => YACValues(k)
    case UVAC => UVACValues(k)
  }

  function CodeWord(t: Table, symbol: nat): Word {
    match t
    case YDC => YDCWord(symbol)
    case UVDC => UVDCWord(symbol)
    case YAC => YACWord(symbol)
    case UVAC => UVACWord(symbol)
  }

  // ----- Codes from the announced lists (ITU-T T.81, annex C)

  /** The first code of length `l`: codes of each length follow those of the length before, shifted. */
  function First(t: Table, l: nat): nat
  {
    if l == 0 then 0 else 2 * (First(t, l - 1) + NrCodes(t, l - 1))
  }

  /** How many codes are shorter than `l`. */
  function Index(t: Table, l: nat): nat
  {
    if l == 0 then 0 else Index(t, l - 1) + NrCodes(t, l - 1)
  }

  /** The announced lists give the word `w` to `symbol`. */
  predicate Announced(t: Table, symbol: nat, w: Word) {
    && 1 <= w.len <= 16
    && First(t, w.len) <= w.code < First(t, w.len) + NrCodes(t, w.len)
    && Values(t, Index(t, w.len) + w.code - First(t, w.len)) == symbol
  }

  /** The symbols the encoder may send with a table, for coefficients in the baseline range. */
  predicate Sendable(t: Table, symbol: nat) {
    match t
    case YDC => symbol <= 11
    case UVDC => symbol <= 11
    case YAC => symbol == 0 || symbol == 0xF0 || (symbol / 16 <= 15 && 1 <= symbol % 16 <= 10)
    case UVAC => symbol == 0 || symbol == 0xF0 || (symbol / 16 <= 15 && 1 <= symbol % 16 <= 10)
  }

  // ----- Where the codes of each length start

  function YDCFirst(l: nat): nat {
    match l
    case 0 => 0 case 1 => 0 case 2 => 0 case 3 => 2 case 4 => 14 case 5 => 30
    case 6 => 62 case 7 => 126 case 8 => 254 case 9 => 510 case 10 => 1022 case 11 => 2044
    case 12 => 4088 case 13 => 8176 case 14 => 16352 case 15 => 32704 case _ => 65408
  }

  function YDCIndex(l: nat): nat {
    match l
    case 0 => 0 case 1 => 0 case 2 => 0 case 3 => 1 case 4 => 6 case 5 => 7
    case 6 => 8 case 7 => 9 case 8 => 10 case 9 => 11 case 10 => 12 case 11 => 12
    case 12 => 12 case 13 => 12 case 14 => 12 case 15 => 12 case _ => 12
  }

  function UVDCFirst(l: nat): nat {
    match l
    case 0 => 0 case 1 => 0 case 2 => 0 case 3 => 6 case 4 => 14 case 5 => 30
    case 6 => 62 case 7 => 126 case 8 => 254 case 9 => 510 case 10 => 1022 case 11 => 2046
    case 12 => 4094 case 13 => 8188 case 14 => 16376 case 15 => 32752 case _ => 65504
  }

  function UVDCIndex(l: nat): nat {
    match l
    case 0 => 0 case 1 => 0 case 2 => 0 case 3 => 3 case 4 => 4 case 5 => 5
    case 6 => 6 case 7 => 7 case 8 => 8 case 9 => 9 case 10 => 10 case 11 => 11
    case 12 => 12 case 13 => 12 case 14 => 12 case 15 => 12 case _ => 12
  }

  function YACFirst(l: nat): nat {
    match l
    case 0 => 0 case 1 => 0 case 2 => 0 case 3 => 4 case 4 => 10 case 5 => 26
    case 6 => 58 case 7 => 120 case 8 => 248 case 9 => 502 case 10 => 1014 case 11 => 2038
    case 12 => 4084 case 13 => 8176 case 14 => 16352 case 15 => 32704 case _ => 65410
  }

  function YACIndex(l: nat): nat {
    match l
    case 0 => 0 case 1 => 0 case 2 => 0 case 3 => 2 case 4 => 3 case 5 => 6
    case 6 => 9 case 7 => 11 case 8 => 15 case 9 => 18 case 10 => 23 case 11 => 28
    case 12 => 32 case 13 => 36 case 14 => 36 case 15 => 36 case _ => 37
  }

  function UVACFirst(l: nat): nat {
    match l
    case 0 => 0 case 1 => 0 case 2 => 0 case 3 => 4 case 4 => 10 case 5 => 24
    case 6 => 56 case 7 => 120 case 8 => 246 case 9 => 500 case 10 => 1014 case 11 => 2038
    case 12 => 4084 case 13 => 8176 case 14 => 16352 case 15 => 32706 case _ => 65416
  }

  function UVACIndex(l: nat): nat {
    match l
    case 0 => 0 case 1 => 0 case 2 => 0 case 3 => 2 case 4 => 3 case 5 => 5
    case 6 => 9 case 7 => 13 case 8 => 16 case 9 => 20 case 10 => 27 case 11 => 32
    case 12 => 36 case 13 => 40 case 14 => 40 case 15 => 41 case _ => 43
  }

  function FirstAt(t: Table, l: nat): nat {
    match t
    case YDC => YDCFirst(l)
    case UVDC => UVDCFirst(l)
    case YAC => YACFirst(l)
    case UVAC => UVACFirst(l)
  }

  function IndexAt(t: Table, l: nat): nat {
    match t
    case YDC => YDCIndex(l)
    case UVDC => UVDCIndex(l)
    case YAC => YACIndex(l)
    case UVAC => UVACIndex(l)
  }

  lemma StartStep(t: Table, l: nat)
    requires 1 <= l <= 16
    ensures FirstAt(t, l) == 2 * (FirstAt(t, l - 1) + NrCodes(t, l - 1))
    ensures IndexAt(t, l) == IndexAt(t, l - 1) + NrCodes(t, l - 1)
  {
    match l {
      case 1 => case 2 => case 3 => case 4 => case 5 => case 6 => case 7 => case 8 => case 9 => case 10 => case 11 => case 12 => case 13 => case 14 => case 15 => case _ =>
    }
  }

  /** The starts that follow from the code counts, for each length. */
  lemma {:induction false} StartsAre(t: Table, l: nat)
    requires l <= 16
    ensures First(t, l) == FirstAt(t, l) && Index(t, l) == IndexAt(t, l)
    decreases l
  {
    hide NrCodes, FirstAt, IndexAt;
    if l > 0 {
      StartsAre(t, l - 1);
      StartStep(t, l);
    } else {
      StartsAtZero(t);
    }
  }

  lemma StartsAtZero(t: Table)
    ensures FirstAt(t, 0) == 0 && IndexAt(t, 0) == 0
  {
  }

  lemma YDCStarts()
    ensures First(YDC, 1) == 0 && First(YDC, 2) == 0 && First(YDC, 3) == 2 && First(YDC, 4) == 14
    ensures First(YDC, 5) == 30 && First(YDC, 6) == 62 && First(YDC, 7) == 126 && First(YDC, 8) == 254
    ensures First(YDC, 9) == 510 && First(YDC, 10) == 1022 && First(YDC, 11) == 2044 && First(YDC, 12) == 4088
    ensures First(YDC, 13) == 8176 && First(YDC, 14) == 16352 && First(YDC, 15) == 32704 && First(YDC, 16) == 65408
    ensures Index(YDC, 1) == 0 && Index(YDC, 2) == 0 && Index(YDC, 3) == 1 && Index(YDC, 4) == 6
    ensures Index(YDC, 5) == 7 && Index(YDC, 6) == 8 && Index(YDC, 7) == 9 && Index(YDC, 8) == 10
    ensures Index(YDC, 9) == 11 && Index(YDC, 10) == 12 && Index(YDC, 11) == 12 && Index(YDC, 12) == 12
    ensures Index(YDC, 13) == 12 && Index(YDC, 14) == 12 && Index(YDC, 15) == 12 && Index(YDC, 16) == 12
  {
    hide First, Index, NrCodes;
    StartsAre(YDC, 1); StartsAre(YDC, 2); StartsAre(YDC, 3); StartsAre(YDC, 4);
    StartsAre(YDC, 5); StartsAre(YDC, 6); StartsAre(YDC, 7); StartsAre(YDC, 8);
    StartsAre(YDC, 9); StartsAre(YDC, 10); StartsAre(YDC, 11); StartsAre(YDC, 12);
    StartsAre(YDC, 13); StartsAre(YDC, 14); StartsAre(YDC, 15); StartsAre(YDC, 16);
  }

  lemma UVDCStarts()
    ensures First(UVDC, 1) == 0 && First(UVDC, 2) == 0 && First(UVDC, 3) == 6 && First(UVDC, 4) == 14
    ensures First(UVDC, 5) == 30 && First(UVDC, 6) == 62 && First(UVDC, 7) == 126 && First(UVDC, 8) == 254
    ensures First(UVDC, 9) == 510 && First(UVDC, 10) == 1022 && First(UVDC, 11) == 2046 && First(UVDC, 12) == 4094
    ensures First(UVDC, 13) == 8188 && First(UVDC, 14) == 16376 && First(UVDC, 15) == 32752 && First(UVDC, 16) == 65504
    ensures Index(UVDC, 1) == 0 && Index(UVDC, 2) == 0 && Index(UVDC, 3) == 3 && Index(UVDC, 4) == 4
    ensures Index(UVDC, 5) == 5 && Index(UVDC, 6) == 6 && Index(UVDC, 7) == 7 && Index(UVDC, 8) == 8
    ensures Index(UVDC, 9) == 9 && Index(UVDC, 10) == 10 && Index(UVDC, 11) == 11 && Index(UVDC, 12) == 12
    ensures Index(UVDC, 13) == 12 && Index(UVDC, 14) == 12 && Index(UVDC, 15) == 12 && Index(UVDC, 16) == 12
  {
    hide First, Index, NrCodes;
    StartsAre(UVDC, 1); StartsAre(UVDC, 2); StartsAre(UVDC, 3); StartsAre(UVDC, 4);
    StartsAre(UVDC, 5); StartsAre(UVDC, 6); StartsAre(UVDC, 7); StartsAre(UVDC, 8);
    StartsAre(UVDC, 9); StartsAre(UVDC, 10); StartsAre(UVDC, 11); StartsAre(UVDC, 12);
    StartsAre(UVDC, 13); StartsAre(UVDC, 14); StartsAre(UVDC, 15); StartsAre(UVDC, 16);
  }

  lemma YACStarts()
    ensures First(YAC, 1) == 0 && First(YAC, 2) == 0 && First(YAC, 3) == 4 && First(YAC, 4) == 10
    ensures First(YAC, 5) == 26 && First(YAC, 6) == 58 && First(YAC, 7) == 120 && First(YAC, 8) == 248
    ensures First(YAC, 9) == 502 && First(YAC, 10) == 1014 && First(YAC, 11) == 2038 && First(YAC, 12) == 4084
    ensures First(YAC, 13) == 8176 && First(YAC, 14) == 16352 && First(YAC, 15) == 32704 && First(YAC, 16) == 65410
    ensures Index(YAC, 1) == 0 && Index(YAC, 2) == 0 && Index(YAC, 3) == 2 && Index(YAC, 4) == 3
    ensures Index(YAC, 5) == 6 && Index(YAC, 6) == 9 && Index(YAC, 7) == 11 && Index(YAC, 8) == 15
    ensures Index(YAC, 9) == 18 && Index(YAC, 10) == 23 && Index(YAC, 11) == 28 && Index(YAC, 12) == 32
    ensures Index(YAC, 13) == 36 && Index(YAC, 14) == 36 && Index(YAC, 15) == 36 && Index(YAC, 16) == 37
  {
    hide First, Index, NrCodes;
    StartsAre(YAC, 1); StartsAre(YAC, 2); StartsAre(YAC, 3); StartsAre(YAC, 4);
    StartsAre(YAC, 5); StartsAre(YAC, 6); StartsAre(YAC, 7); StartsAre(YAC, 8);
    StartsAre(YAC, 9); StartsAre(YAC, 10); StartsAre(YAC, 11); StartsAre(YAC, 12);
    StartsAre(YAC, 13); StartsAre(YAC, 14); StartsAre(YAC, 15); StartsAre(YAC, 16);
  }

  lemma UVACStarts()
    ensures First(UVAC, 1) == 0 && First(UVAC, 2) == 0 && First(UVAC, 3) == 4 && First(UVAC, 4) == 10
    ensures First(UVAC, 5) == 24 && First(UVAC, 6) == 56 && First(UVAC, 7) == 120 && First(UVAC, 8) == 246
    ensures First(UVAC, 9) == 500 && First(UVAC, 10) == 1014 && First(UVAC, 11) == 2038 && First(UVAC, 12) == 4084
    ensures First(UVAC, 13) == 8176 && First(UVAC, 14) == 16352 && First(UVAC, 15) == 32706 && First(UVAC, 16) == 65416
    ensures Index(UVAC, 1) == 0 && Index(UVAC, 2) == 0 && Index(UVAC, 3) == 2 && Index(UVAC, 4) == 3
    ensures Index(UVAC, 5) == 5 && Index(UVAC, 6) == 9 && Index(UVAC, 7) == 13 && Index(UVAC, 8) == 16
    ensures Index(UVAC, 9) == 20 && Index(UVAC, 10) == 27 && Index(UVAC, 11) == 32 && Index(UVAC, 12) == 36
    ensures Index(UVAC, 13) == 40 && Index(UVAC, 14) == 40 && Index(UVAC, 15) == 41 && Index(UVAC, 16) == 43
  {
    hide First, Index, NrCodes;
    StartsAre(UVAC, 1); StartsAre(UVAC, 2); StartsAre(UVAC, 3); StartsAre(UVAC, 4);
    StartsAre(UVAC, 5); StartsAre(UVAC, 6); StartsAre(UVAC, 7); StartsAre(UVAC, 8);
    StartsAre(UVAC, 9); StartsAre(UVAC, 10); StartsAre(UVAC, 11); StartsAre(UVAC, 12);
    StartsAre(UVAC, 13); StartsAre(UVAC, 14); StartsAre(UVAC, 15); StartsAre(UVAC, 16);
  }

  lemma YDCAnnounced(symbol: nat)
    requires symbol <= 11
    ensures Announced(YDC, symbol, CodeWord(YDC, symbol))
  {
    YDCStarts();
    hide First, Index;
    match symbol {
      case 0 => case 1 => case 2 => case 3 => case 4 => case 5 => case 6 => case 7 => case 8 => case 9 => case 10 => case _ =>
    }
  }

  lemma UVDCAnnounced(symbol: nat)
    requires symbol <= 11
    ensures Announced(UVDC, symbol, CodeWord(UVDC, symbol))
  {
    UVDCStarts();
    hide First, Index;
    match symbol {
      case 0 => case 1 => case 2 => case 3 => case 4 => case 5 => case 6 => case 7 => case 8 => case 9 => case 10 => case _ =>
    }
  }

  lemma YACAnnounced0(size: nat)
    requires size <= 10
    ensures Announced(YAC, 0 + size, CodeWord(YAC, 0 + size))
  {
    YACStarts();
    hide First, Index;
    match size {
      case 0 => case 1 => case 2 => case 3 => case 4 => case 5 => case 6 => case 7 => case 8 => case 9 => case _ =>
    }
  }

  lemma YACAnnounced1(size: nat)
    requires 1 <= size <= 10
    ensures Announced(YAC, 16 + size, CodeWord(YAC, 16 + size))
  {
    YACStarts();
    hide First, Index;
    match size {
      case 1 => case 2 => case 3 => case 4 => case 5 => case 6 => case 7 => case 8 => case 9 => case _ =>
    }
  }

  lemma YACAnnounced2(size: nat)
    requires 1 <= size <= 10
    ensures Announced(YAC, 32 + size, CodeWord(YAC, 32 + size))
  {
    YACStarts();
    hide First, Index;
    match size {
      case 1 => case 2 => case 3 => case 4 => case 5 => case 6 => case 7 => case 8 => case 9 => case _ =>
    }
  }

  lemma YACAnnounced3(size: nat)
    requires 1 <= size <= 10
    ensures Announced(YAC, 48 + size, CodeWord(YAC, 48 + size))
  {
    YACStarts();
    hide First, Index;
    match size {
      case 1 => case 2 => case 3 => case 4 => case 5 => case 6 => case 7 => case 8 => case 9 => case _ =>
    }
  }

  lemma YACAnnounced4(size: nat)
    requires 1 <= size <= 10
    ensures Announced(YAC, 64 + size, CodeWord(YAC, 64 + size))
  {
    YACStarts();
    hide First, Index;
    match size {
      case 1 => case 2 => case 3 => case 4 => case 5 => case 6 => case 7 => case 8 => case 9 => case _ =>
    }
  }

  lemma YACAnnounced5(size: nat)
    requires 1 <= size <= 10
    ensures Announced(YAC, 80 + size, CodeWord(YAC, 80 + size))
  {
    YACStarts();
    hide First, Index;
    match size {
      case 1 => case 2 => case 3 => case 4 => case 5 => case 6 => case 7 => case 8 => case 9 => case _ =>
    }
  }

  lemma YACAnnounced6(size: nat)
    requires 1 <= size <= 10
    ensures Announced(YAC, 96 + size, CodeWord(YAC, 96 + size))
  {
    YACStarts();
    hide First, Index;
    match size {
      case 1 => case 2 => case 3 => case 4 => case 5 => case 6 => case 7 => case 8 => case 9 => case _ =>
    }
  }

  lemma YACAnnounced7(size: nat)
    requires 1 <= size <= 10
    ensures Announced(YAC, 112 + size, CodeWord(YAC, 112 + size))
  {
    YACStarts();
    hide First, Index;
    match size {
      case 1 => case 2 => case 3 => case 4 => case 5 => case 6 => case 7 => case 8 => case 9 => case _ =>
    }
  }

  lemma YACAnnounced8(size: nat)
    requires 1 <= size <= 10
    ensures Announced(YAC, 128 + size, CodeWord(YAC, 128 + size))
  {
    YACStarts();
    hide First, Index;
    match size {
      case 1 => case 2 => case 3 => case 4 => case 5 => case 6 => case 7 => case 8 => case 9 => case _ =>
    }
  }

  lemma YACAnnounced9(size: nat)
    requires 1 <= size <= 10
    ensures Announced(YAC, 144 + size, CodeWord(YAC, 144 + size))
  {
    YACStarts();
    hide First, Index;
    match size {
      case 1 => case 2 => case 3 => case 4 => case 5 => case 6 => case 7 => case 8 => case 9 => case _ =>
    }
  }

  lemma YACAnnounced10(size: nat)
    requires 1 <= size <= 10
    ensures Announced(YAC, 160 + size, CodeWord(YAC, 160 + size))
  {
    YACStarts();
    hide First, Index;
    match size {
      case 1 => case 2 => case 3 => case 4 => case 5 => case 6 => case 7 => case 8 => case 9 => case _ =>
    }
  }

  lemma YACAnnounced11(size: nat)
    requires 1 <= size <= 10
    ensures Announced(YAC, 176 + size, CodeWord(YAC, 176 + size))
  {
    YACStarts();
    hide First, Index;
    match size {
      case 1 => case 2 => case 3 => case 4 => case 5 => case 6 => case 7 => case 8 => case 9 => case _ =>
    }
  }

  lemma YACAnnounced12(size: nat)
    requires 1 <= size <= 10
    ensures Announced(YAC, 192 + size, CodeWord(YAC, 192 + size))
  {
    YACStarts();
    hide First, Index;
    match size {
      case 1 => case 2 => case 3 => case 4 => case 5 => case 6 => case 7 => case 8 => case 9 => case _ =>
    }
  }

  lemma YACAnnounced13(size: nat)
    requires 1 <= size <= 10
    ensures Announced(YAC, 208 + size, CodeWord(YAC, 208 + size))
  {
    YACStarts();
    hide First, Index;
    match size {
      case 1 => case 2 => case 3 => case 4 => case 5 => case 6 => case 7 => case 8 => case 9 => case _ =>
    }
  }

  lemma YACAnnounced14(size: nat)
    requires 1 <= size <= 10
    ensures Announced(YAC, 224 + size, CodeWord(YAC, 224 + size))
  {
    YACStarts();
    hide First, Index;
    match size {
      case 1 => case 2 => case 3 => case 4 => case 5 => case 6 => case 7 => case 8 => case 9 => case _ =>
    }
  }

  lemma YACAnnounced15(size: nat)
    requires size <= 10
    ensures Announced(YAC, 240 + size, CodeWord(YAC, 240 + size))
  {
    YACStarts();
    hide First, Index;
    match size {
      case 0 => case 1 => case 2 => case 3 => case 4 => case 5 => case 6 => case 7 => case 8 => case 9 => case _ =>
    }
  }

  lemma UVACAnnounced0(size: nat)
    requires size <= 10
    ensures Announced(UVAC, 0 + size, CodeWord(UVAC, 0 + size))
  {
    UVACStarts();
    hide First, Index;
    match size {
      case 0 => case 1 => case 2 => case 3 => case 4 => case 5 => case 6 => case 7 => case 8 => case 9 => case _ =>
    }
  }

  lemma UVACAnnounced1(size: nat)
    requires 1 <= size <= 10
    ensures Announced(UVAC, 16 + size, CodeWord(UVAC, 16 + size))
  {
    UVACStarts();
    hide First, Index;
    match size {
      case 1 => case 2 => case 3 => case 4 => case 5 => case 6 => case 7 => case 8 => case 9 => case _ =>
    }
  }

  lemma UVACAnnounced2(size: nat)
    requires 1 <= size <= 10
    ensures Announced(UVAC, 32 + size, CodeWord(UVAC, 32 + size))
  {
    UVACStarts();
    hide First, Index;
    match size {
      case 1 => case 2 => case 3 => case 4 => case 5 => case 6 => case 7 => case 8 => case 9 => case _ =>
    }
  }

  lemma UVACAnnounced3(size: nat)
    requires 1 <= size <= 10
    ensures Announced(UVAC, 48 + size, CodeWord(UVAC, 48 + size))
  {
    UVACStarts();
    hide First, Index;
    match size {
      case 1 => case 2 => case 3 => case 4 => case 5 => case 6 => case 7 => case 8 => case 9 => case _ =>
    }
  }

  lemma UVACAnnounced4(size: nat)
    requires 1 <= size <= 10
    ensures Announced(UVAC, 64 + size, CodeWord(UVAC, 64 + size))
  {
    UVACStarts();
    hide First, Index;
    match size {
      case 1 => case 2 => case 3 => case 4 => case 5 => case 6 => case 7 => case 8 => case 9 => case _ =>
    }
  }

  lemma UVACAnnounced5(size: nat)
    requires 1 <= size <= 10
    ensures Announced(UVAC, 80 + size, CodeWord(UVAC, 80 + size))
  {
    UVACStarts();
    hide First, Index;
    match size {
      case 1 => case 2 => case 3 => case 4 => case 5 => case 6 => case 7 => case 8 => case 9 => case _ =>
    }
  }

  lemma UVACAnnounced6(size: nat)
    requires 1 <= size <= 10
    ensures Announced(UVAC, 96 + size, CodeWord(UVAC, 96 + size))
  {
    UVACStarts();
    hide First, Index;
    match size {
      case 1 => case 2 => case 3 => case 4 => case 5 => case 6 => case 7 => case 8 => case 9 => case _ =>
    }
  }

  lemma UVACAnnounced7(size: nat)
    requires 1 <= size <= 10
    ensures Announced(UVAC, 112 + size, CodeWord(UVAC, 112 + size))
  {
    UVACStarts();
    hide First, Index;
    match size {
      case 1 => case 2 => case 3 => case 4 => case 5 => case 6 => case 7 => case 8 => case 9 => case _ =>
    }
  }

  lemma UVACAnnounced8(size: nat)
    requires 1 <= size <= 10
    ensures Announced(UVAC, 128 + size, CodeWord(UVAC, 128 + size))
  {
    UVACStarts();
    hide First, Index;
    match size {
      case 1 => case 2 => case 3 => case 4 => case 5 => case 6 => case 7 => case 8 => case 9 => case _ =>
    }
  }

  lemma UVACAnnounced9(size: nat)
    requires 1 <= size <= 10
    ensures Announced(UVAC, 144 + size, CodeWord(UVAC, 144 + size))
  {
    UVACStarts();
    hide First, Index;
    match size {
      case 1 => case 2 => case 3 => case 4 => case 5 => case 6 => case 7 => case 8 => case 9 => case _ =>
    }
  }

  lemma UVACAnnounced10(size: nat)
    requires 1 <= size <= 10
    ensures Announced(UVAC, 160 + size, CodeWord(UVAC, 160 + size))
  {
    UVACStarts();
    hide First, Index;
    match size {
      case 1 => case 2 => case 3 => case 4 => case 5 => case 6 => case 7 => case 8 => case 9 => case _ =>
    }
  }

  lemma UVACAnnounced11(size: nat)
    requires 1 <= size <= 10
    ensures Announced(UVAC, 176 + size, CodeWord(UVAC, 176 + size))
  {
    UVACStarts();
    hide First, Index;
    match size {
      case 1 => case 2 => case 3 => case 4 => case 5 => case 6 => case 7 => case 8 => case 9 => case _ =>
    }
  }

  lemma UVACAnnounced12(size: nat)
    requires 1 <= size <= 10
    ensures Announced(UVAC, 192 + size, CodeWord(UVAC, 192 + size))
  {
    UVACStarts();
    hide First, Index;
    match size {
      case 1 => case 2 => case 3 => case 4 => case 5 => case 6 => case 7 => case 8 => case 9 => case _ =>
    }
  }

  lemma UVACAnnounced13(size: nat)
    requires 1 <= size <= 10
    ensures Announced(UVAC, 208 + size, CodeWord(UVAC, 208 + size))
  {
    UVACStarts();
    hide First, Index;
    match size {
      case 1 => case 2 => case 3 => case 4 => case 5 => case 6 => case 7 => case 8 => case 9 => case _ =>
    }
  }

  lemma UVACAnnounced14(size: nat)
    requires 1 <= size <= 10
    ensures Announced(UVAC, 224 + size, CodeWord(UVAC, 224 + size))
  {
    UVACStarts();
    hide First, Index;
    match size {
      case 1 => case 2 => case 3 => case 4 => case 5 => case 6 => case 7 => case 8 => case 9 => case _ =>
    }
  }

  lemma UVACAnnounced15(size: nat)
    requires size <= 10
    ensures Announced(UVAC, 240 + size, CodeWord(UVAC, 240 + size))
  {
    UVACStarts();
    hide First, Index;
    match size {
      case 0 => case 1 => case 2 => case 3 => case 4 => case 5 => case 6 => case 7 => case 8 => case 9 => case _ =>
    }
  }

  lemma YACAnnounced(symbol: nat)
    requires Sendable(YAC, symbol)
    ensures Announced(YAC, symbol, CodeWord(YAC, symbol))
  {
    hide Announced, CodeWord;
    var size := symbol % 16;
    match symbol / 16 {
      case 0 => YACAnnounced0(size);
      case 1 => YACAnnounced1(size);
      case 2 => YACAnnounced2(size);
      case 3 => YACAnnounced3(size);
      case 4 => YACAnnounced4(size);
      case 5 => YACAnnounced5(size);
      case 6 => YACAnnounced6(size);
      case 7 => YACAnnounced7(size);
      case 8 => YACAnnounced8(size);
      case 9 => YACAnnounced9(size);
      case 10 => YACAnnounced10(size);
      case 11 => YACAnnounced11(size);
      case 12 => YACAnnounced12(size);
      case 13 => YACAnnounced13(size);
      case 14 => YACAnnounced14(size);
      case _ => YACAnnounced15(size);
    }
  }

  lemma UVACAnnounced(symbol: nat)
    requires Sendable(UVAC, symbol)
    ensures Announced(UVAC, symbol, CodeWord(UVAC, symbol))
  {
    hide Announced, CodeWord;
    var size := symbol % 16;
    match symbol / 16 {
      case 0 => UVACAnnounced0(size);
      case 1 => UVACAnnounced1(size);
      case 2 => UVACAnnounced2(size);
      case 3 => UVACAnnounced3(size);
      case 4 => UVACAnnounced4(size);
      case 5 => UVACAnnounced5(size);
      case 6 => UVACAnnounced6(size);
      case 7 => UVACAnnounced7(size);
      case 8 => UVACAnnounced8(size);
      case 9 => UVACAnnounced9(size);
      case 10 => UVACAnnounced10(size);
      case 11 => UVACAnnounced11(size);
      case 12 => UVACAnnounced12(size);
      case 13 => UVACAnnounced13(size);
      case 14 => UVACAnnounced14(size);
      case _ => UVACAnnounced15(size);
    }
  }

  /** Every code word the encoder may send is the one its announced lists define (ITU-T T.81, annex C). */
  lemma WordsAreAnnounced(t: Table, symbol: nat)
    requires Sendable(t, symbol)
    ensures Announced(t, symbol, CodeWord(t, symbol))
  {
    hide Announced, CodeWord;
    match t
    case YDC => YDCAnnounced(symbol);
    case UVDC => UVDCAnnounced(symbol);
    case YAC => YACAnnounced(symbol);
    case UVAC => UVACAnnounced(symbol);
  }

  // ----- The standard's decoder (ITU-T T.81, section F.2.2.3)

  /** Reads one code word of `l` bits or more: the first length at which the bits are a code. */
  function ReadCode(t: Table, s: seq<bit>, l: nat): (r: Option<(nat, seq<bit>)>)
    requires l >= 1
    ensures r.Some? ==> |r.value.1| < |s|
    decreases 17 - l
  {
    if l > 16 || |s| < l then None
    else
      var v := MsbValue(s[..l]);
      if First(t, l) <= v < First(t, l) + NrCodes(t, l) then Some((Values(t, Index(t, l) + v - First(t, l)), s[l..]))
      else ReadCode(t, s, l + 1)
  }

  /** The leading bits of a code word lie beyond the codes of every shorter length. */
  lemma {:induction false} PrefixIsNoCode(t: Table, w: Word, l: nat)
    requires 1 <= l <= w.len && First(t, w.len) <= w.code
    ensures First(t, l) <= Shr(w.code, w.len - l)
    ensures l < w.len ==> First(t, l) + NrCodes(t, l) <= Shr(w.code, w.len - l)
    decreases w.len - l
  {
    hide NrCodes;
    if l < w.len {
      PrefixIsNoCode(t, w, l + 1);
      ShrSnoc(w.code, w.len - l - 1);
    }
  }

  lemma FirstBelow(t: Table, w: Word)
    requires 1 <= w.len <= 16 && First(t, w.len) <= w.code < First(t, w.len) + NrCodes(t, w.len)
    ensures w.code < Pow2(w.len)
  {
    FirstFits(t, w.len);
  }

  lemma {:induction false} ReadFrom(t: Table, symbol: nat, w: Word, l: nat, rest: seq<bit>)
    requires Announced(t, symbol, w) && 1 <= l <= w.len && w.code < Pow2(w.len)
    ensures ReadCode(t, Msb(w.code, w.len) + rest, l) == Some((symbol, rest))
    decreases w.len - l
  {
    hide NrCodes, Values, Msb, Pow2, MsbValue, Index, First;
    MsbPrefixValue(w.code, w.len, l, rest);
    PrefixIsNoCode(t, w, l);
    if l < w.len {
      ReadFrom(t, symbol, w, l + 1, rest);
    } else {
      assert Shr(w.code, 0) == w.code;
      assert (Msb(w.code, w.len) + rest)[l..] == rest;
    }
  }

  function WordBits(w: Word): (s: seq<bit>)
    ensures |s| == w.len
  {
    Msb(w.code, w.len)
  }

  /** A code word sent with a table decodes, from the announced lists alone, to its symbol. */
  lemma SymbolRoundTrip(t: Table, symbol: nat, rest: seq<bit>)
    requires Sendable(t, symbol)
    ensures ReadCode(t, WordBits(CodeWord(t, symbol)) + rest, 1) == Some((symbol, rest))
  {
    hide CodeWord, First, Index, NrCodes, Values, ReadCode, Msb;
    WordsAreAnnounced(t, symbol);
    var w := CodeWord(t, symbol);
    FirstBelow(t, w);
    ReadFrom(t, symbol, w, 1, rest);
  }

  /** No length runs out of code words. */
  lemma FirstFits(t: Table, l: nat)
    requires 1 <= l <= 16
    ensures First(t, l) + NrCodes(t, l) <= Pow2(l)
  {
    match t
    case YDC => YDCFits(l);
    case UVDC => UVDCFits(l);
    case YAC => YACFits(l);
    case UVAC => UVACFits(l);
  }

  lemma YDCFits(l: nat)
    requires 1 <= l <= 16
    ensures First(YDC, l) + YDCNrCodes(l) <= Pow2(l)
  {
    YDCStarts();
    Pow2To16();
    hide First, Pow2;
    match l {
      case 1 => case 2 => case 3 => case 4 => case 5 => case 6 => case 7 => case 8 => case 9 => case 10 => case 11 => case 12 => case 13 => case 14 => case 15 => case _ =>
    }
  }

  lemma UVDCFits(l: nat)
    requires 1 <= l <= 16
    ensures First(UVDC, l) + UVDCNrCodes(l) <= Pow2(l)
  {
    UVDCStarts();
    Pow2To16();
    hide First, Pow2;
    match l {
      case 1 => case 2 => case 3 => case 4 => case 5 => case 6 => case 7 => case 8 => case 9 => case 10 => case 11 => case 12 => case 13 => case 14 => case 15 => case _ =>
    }
  }

  lemma YACFits(l: nat)
    requires 1 <= l <= 16
    ensures First(YAC, l) + YACNrCodes(l) <= Pow2(l)
  {
    YACStarts();
    Pow2To16();
    hide First, Pow2;
    match l {
      case 1 => case 2 => case 3 => case 4 => case 5 => case 6 => case 7 => case 8 => case 9 => case 10 => case 11 => case 12 => case 13 => case 14 => case 15 => case _ =>
    }
  }

  lemma UVACFits(l: nat)
    requires 1 <= l <= 16
    ensures First(UVAC, l) + UVACNrCodes(l) <= Pow2(l)
  {
    UVACStarts();
    Pow2To16();
    hide First, Pow2;
    match l {
      case 1 => case 2 => case 3 => case 4 => case 5 => case 6 => case 7 => case 8 => case 9 => case 10 => case 11 => case 12 => case 13 => case 14 => case 15 => case _ =>
    }
  }
}
