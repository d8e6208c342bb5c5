/**
 The firmware CRC: the table-driven loop against bit-serial division by the reflected
 polynomial 0xEDB88320, the same method as section 8 of RFC 1952 without its final complement.
 */
module Crc32 {

  type byte = bv8

  const POLY: bv32 := 0xEDB8_8320

  // ---------------------------------------------------------------- the reference: one bit at a time

  /** One step of the division, without a branch: shift out a bit, and subtract the polynomial if it was set. */
  function Bit(c: bv32): bv32
  {
    (c >> 1) ^ (POLY & (0 - (c & 1)))
  }

  lemma BitBranches(c: bv32)
    ensures Bit(c) == if c & 1 == 0 then c >> 1 else (c >> 1) ^ POLY
  {
    LowBit(c);
    MaskOf(c & 1);
    XorZero(c >> 1);
  }

  lemma LowBit(c: bv32)
    ensures c & 1 == 0 || c & 1 == 1
  {
  }

  lemma MaskOf(m: bv32)
    ensures m == 0 ==> POLY & (0 - m) == 0
    ensures m == 1 ==> POLY & (0 - m) == POLY
  {
  }

  lemma XorZero(c: bv32)
    ensures c ^ 0 == c
  {
  }

  // Named operations, so that most proofs need not look at bits.

  function Xor(a: bv32, b: bv32): bv32 { a ^ b }

  function Double(a: bv32): bv32 { a << 1 }

  function Half(a: bv32): bv32 { a >> 1 }

  predicate Odd(a: bv32) { a & 1 != 0 }

  function Wide(x: byte): bv32 { x as bv32 }

  function Unit(b: bool): bv32 { if b then 1 else 0 }

  /** Division of a bit string: message bits enter at the low end. */
  function BitSerial(c: bv32, bits: seq<bool>): bv32
    decreases |bits|
  {
    if bits == [] then c else BitSerial(Bit(Xor(c, Unit(bits[0]))), bits[1..])
  }

  /** The lowest n bits, least significant first. */
  function LowBits(a: bv32, n: nat): seq<bool>
    decreases n
  {
    if n == 0 then [] else [Odd(a)] + LowBits(Half(a), n - 1)
  }

  /** The bits of a byte string in transmission order. */
  function Message(data: seq<byte>): seq<bool>
  {
    if data == [] then [] else LowBits(Wide(data[0]), 8) + Message(data[1..])
  }

  // ---------------------------------------------------------------- the table

  function Pick(k: byte, a: bv32, b: bv32, c: bv32, d: bv32, e: bv32, f: bv32, g: bv32, h: bv32): bv32
  {
    if k == 0 then a else if k == 1 then b else if k == 2 then c else if k == 3 then d
    else if k == 4 then e else if k == 5 then f else if k == 6 then g else h
  }

  /** The lookup table, row by row. */
  function Table(x: byte): bv32
  {
    if x < 0x08 then
      Pick(x & 7, 0x0000_0000, 0x7707_3096, 0xEE0E_612C, 0x9909_51BA,
           0x076D_C419, 0x706A_F48F, 0xE963_A535, 0x9E64_95A3)
    else if x < 0x10 then
      Pick(x & 7, 0x0EDB_8832, 0x79DC_B8A4, 0xE0D5_E91E, 0x97D2_D988,
           0x09B6_4C2B, 0x7EB1_7CBD, 0xE7B8_2D07, 0x90BF_1D91)
    else if x < 0x18 then
      Pick(x & 7, 0x1DB7_1064, 0x6AB0_20F2, 0xF3B9_7148, 0x84BE_41DE,
           0x1ADA_D47D, 0x6DDD_E4EB, 0xF4D4_B551, 0x83D3_85C7)
    else if x < 0x20 then
      Pick(x & 7, 0x136C_9856, 0x646B_A8C0, 0xFD62_F97A, 0x8A65_C9EC,
           0x1401_5C4F, 0x6306_6CD9, 0xFA0F_3D63, 0x8D08_0DF5)
    else if x < 0x28 then
      Pick(x & 7, 0x3B6E_20C8, 0x4C69_105E, 0xD560_41E4, 0xA267_7172,
           0x3C03_E4D1, 0x4B04_D447, 0xD20D_85FD, 0xA50A_B56B)
    else if x < 0x30 then
      Pick(x & 7, 0x35B5_A8FA, 0x42B2_986C, 0xDBBB_C9D6, 0xACBC_F940,
           0x32D8_6CE3, 0x45DF_5C75, 0xDCD6_0DCF, 0xABD1_3D59)
    else if x < 0x38 then
      Pick(x & 7, 0x26D9_30AC, 0x51DE_003A, 0xC8D7_5180, 0xBFD0_6116,
           0x21B4_F4B5, 0x56B3_C423, 0xCFBA_9599, 0xB8BD_A50F)
    else if x < 0x40 then
      Pick(x & 7, 0x2802_B89E, 0x5F05_8808, 0xC60C_D9B2, 0xB10B_E924,
           0x2F6F_7C87, 0x5868_4C11, 0xC161_1DAB, 0xB666_2D3D)
    else if x < 0x48 then
      Pick(x & 7, 0x76DC_4190, 0x01DB_7106, 0x98D2_20BC, 0xEFD5_102A,
           0x71B1_8589, 0x06B6_B51F, 0x9FBF_E4A5, 0xE8B8_D433)
    else if x < 0x50 then
      Pick(x & 7, 0x7807_C9A2, 0x0F00_F934, 0x9609_A88E, 0xE10E_9818,
           0x7F6A_0DBB, 0x086D_3D2D, 0x9164_6C97, 0xE663_5C01)
    else if x < 0x58 then
      Pick(x & 7, 0x6B6B_51F4, 0x1C6C_6162, 0x8565_30D8, 0xF262_004E,
           0x6C06_95ED, 0x1B01_A57B, 0x8208_F4C1, 0xF50F_C457)
    else if x < 0x60 then
      Pick(x & 7, 0x65B0_D9C6, 0x12B7_E950, 0x8BBE_B8EA, 0xFCB9_887C,
           0x62DD_1DDF, 0x15DA_2D49, 0x8CD3_7CF3, 0xFBD4_4C65)
    else if x < 0x68 then
      Pick(x & 7, 0x4DB2_6158, 0x3AB5_51CE, 0xA3BC_0074, 0xD4BB_30E2,
           0x4ADF_A541, 0x3DD8_95D7, 0xA4D1_C46D, 0xD3D6_F4FB)
    else if x < 0x70 then
      Pick(x & 7, 0x4369_E96A, 0x346E_D9FC, 0xAD67_8846, 0xDA60_B8D0,
           0x4404_2D73, 0x3303_1DE5, 0xAA0A_4C5F, 0xDD0D_7CC9)
    else if x < 0x78 then
      Pick(x & 7, 0x5005_713C, 0x2702_41AA, 0xBE0B_1010, 0xC90C_2086,
           0x5768_B525, 0x206F_85B3, 0xB966_D409, 0xCE61_E49F)
    else if x < 0x80 then
      Pick(x & 7, 0x5EDE_F90E, 0x29D9_C998, 0xB0D0_9822, 0xC7D7_A8B4,
           0x59B3_3D17, 0x2EB4_0D81, 0xB7BD_5C3B, 0xC0BA_6CAD)
    else if x < 0x88 then
      Pick(x & 7, 0xEDB8_8320, 0x9ABF_B3B6, 0x03B6_E20C, 0x74B1_D29A,
           0xEAD5_4739, 0x9DD2_77AF, 0x04DB_2615, 0x73DC_1683)
    else if x < 0x90 then
      Pick(x & 7, 0xE363_0B12, 0x9464_3B84, 0x0D6D_6A3E, 0x7A6A_5AA8,
           0xE40E_CF0B, 0x9309_FF9D, 0x0A00_AE27, 0x7D07_9EB1)
    else if x < 0x98 then
      Pick(x & 7, 0xF00F_9344, 0x8708_A3D2, 0x1E01_F268, 0x6906_C2FE,
           0xF762_575D, 0x8065_67CB, 0x196C_3671, 0x6E6B_06E7)
    else if x < 0xA0 then
      Pick(x & 7, 0xFED4_1B76, 0x89D3_2BE0, 0x10DA_7A5A, 0x67DD_4ACC,
           0xF9B9_DF6F, 0x8EBE_EFF9, 0x17B7_BE43, 0x60B0_8ED5)
    else if x < 0xA8 then
      Pick(x & 7, 0xD6D6_A3E8, 0xA1D1_937E, 0x38D8_C2C4, 0x4FDF_F252,
           0xD1BB_67F1, 0xA6BC_5767, 0x3FB5_06DD, 0x48B2_364B)
    else if x < 0xB0 then
      Pick(x & 7, 0xD80D_2BDA, 0xAF0A_1B4C, 0x3603_4AF6, 0x4104_7A60,
           0xDF60_EFC3, 0xA867_DF55, 0x316E_8EEF, 0x4669_BE79)
    else if x < 0xB8 then
      Pick(x & 7, 0xCB61_B38C, 0xBC66_831A, 0x256F_D2A0, 0x5268_E236,
           0xCC0C_7795, 0xBB0B_4703, 0x2202_16B9, 0x5505_262F)
    else if x < 0xC0 then
      Pick(x & 7, 0xC5BA_3BBE, 0xB2BD_0B28, 0x2BB4_5A92, 0x5CB3_6A04,
           0xC2D7_FFA7, 0xB5D0_CF31, 0x2CD9_9E8B, 0x5BDE_AE1D)
    else if x < 0xC8 then
      Pick(x & 7, 0x9B64_C2B0, 0xEC63_F226, 0x756A_A39C, 0x026D_930A,
           0x9C09_06A9, 0xEB0E_363F, 0x7207_6785, 0x0500_5713)
    else if x < 0xD0 then
      Pick(x & 7, 0x95BF_4A82, 0xE2B8_7A14, 0x7BB1_2BAE, 0x0CB6_1B38,
           0x92D2_8E9B, 0xE5D5_BE0D, 0x7CDC_EFB7, 0x0BDB_DF21)
    else if x < 0xD8 then
      Pick(x & 7, 0x86D3_D2D4, 0xF1D4_E242, 0x68DD_B3F8, 0x1FDA_836E,
           0x81BE_16CD, 0xF6B9_265B, 0x6FB0_77E1, 0x18B7_4777)
    else if x < 0xE0 then
      Pick(x & 7, 0x8808_5AE6, 0xFF0F_6A70, 0x6606_3BCA, 0x1101_0B5C,
           0x8F65_9EFF, 0xF862_AE69, 0x616B_FFD3, 0x166C_CF45)
    else if x < 0xE8 then
      Pick(x & 7, 0xA00A_E278, 0xD70D_D2EE, 0x4E04_8354, 0x3903_B3C2,
           0xA767_2661, 0xD060_16F7, 0x4969_474D, 0x3E6E_77DB)
    else if x < 0xF0 then
      Pick(x & 7, 0xAED1_6A4A, 0xD9D6_5ADC, 0x40DF_0B66, 0x37D8_3BF0,
           0xA9BC_AE53, 0xDEBB_9EC5, 0x47B2_CF7F, 0x30B5_FFE9)
    else if x < 0xF8 then
      Pick(x & 7, 0xBDBD_F21C, 0xCABA_C28A, 0x53B3_9330, 0x24B4_A3A6,
           0xBAD0_3605, 0xCDD7_0693, 0x54DE_5729, 0x23D9_67BF)
    else
      Pick(x & 7, 0xB366_7A2E, 0xC461_4AB8, 0x5D68_1B02, 0x2A6F_2B94,
           0xB40B_BE37, 0xC30C_8EA1, 0x5A05_DF1B, 0x2D02_EF8D)
  }

  function Index(crc: bv32, x: byte): byte { ((crc ^ (x as bv32)) & 0xFF) as byte }

  function High(crc: bv32): bv32 { crc >> 8 }

  /** One byte of the table-driven loop. */
  function Step(crc: bv32, x: byte): bv32
  {
    Xor(High(crc), Table(Index(crc, x)))
  }

  function Crc(crc: bv32, data: seq<byte>): bv32
    decreases |data|
  {
    if data == [] then crc else Crc(Step(crc, data[0]), data[1..])
  }

  // ---------------------------------------------------------------- bit steps are linear and invertible

  /** n steps without input. */
  function Bits(c: bv32, n: nat): bv32
    decreases n
  {
    if n == 0 then c else Bits(Bit(c), n - 1)
  }

  /** n doublings. */
  function Up(w: bv32, n: nat): bv32
  {
    if n == 0 then w else Double(Up(w, n - 1))
  }

  /** n doublings lose nothing. */
  predicate Roomy(w: bv32, n: nat)
  {
    n == 0 || (Up(w, n - 1) & 0x8000_0000 == 0 && Roomy(w, n - 1))
  }

  lemma BitOfShifted(z: bv32, w: bv32)
    requires w & 0x8000_0000 == 0
    ensures Bit(z ^ (w << 1)) == Bit(z) ^ w
  {
  }

  lemma BitLinear(z: bv32, w: bv32)
    requires w & 0x8000_0000 == 0
    ensures Bit(Xor(z, Double(w))) == Xor(Bit(z), w)
  {
    hide Bit;
    BitOfShifted(z, w);
  }

  lemma BitInjective(a: bv32, b: bv32)
    ensures Bit(a) == Bit(b) ==> a == b
  {
  }

  lemma UnitIsLowBit(y: bv32)
    ensures Unit(Odd(y)) == y & 1
  {
    LowBit(y);
  }

  lemma SplitBits(c: bv32, y: bv32)
    ensures c ^ y == (c ^ (y & 1)) ^ ((y >> 1) << 1)
  {
  }

  lemma SplitLowBit(c: bv32, y: bv32)
    ensures Xor(c, y) == Xor(Xor(c, Unit(Odd(y))), Double(Half(y)))
  {
    hide Unit, Odd;
    UnitIsLowBit(y);
    SplitBits(c, y);
  }

  lemma HalfIsRoomy(y: bv32)
    ensures Half(y) & 0x8000_0000 == 0
  {
  }

  lemma OneBit(c: bv32, y: bv32)
    ensures Bit(Xor(c, y)) == Xor(Bit(Xor(c, Unit(Odd(y)))), Half(y))
  {
    hide Bit, Xor, Double, Half, Unit, Odd;
    SplitLowBit(c, y);
    HalfIsRoomy(y);
    BitLinear(Xor(c, Unit(Odd(y))), Half(y));
  }

  /** What stands above the lowest n bits is only shifted by n steps. */
  lemma {:induction false} BitsLinear(z: bv32, w: bv32, n: nat)
    requires Roomy(w, n)
    ensures Bits(Xor(z, Up(w, n)), n) == Xor(Bits(z, n), w)
    decreases n
  {
    if n > 0 {
      hide Bit, Xor, Double;
      BitLinear(z, Up(w, n - 1));
      BitsLinear(Bit(z), w, n - 1);
    }
  }

  lemma {:induction false} BitsInjective(a: bv32, b: bv32, n: nat)
    requires Bits(a, n) == Bits(b, n)
    ensures a == b
    decreases n
  {
    if n > 0 {
      hide Bit;
      BitsInjective(Bit(a), Bit(b), n - 1);
      BitInjective(a, b);
    }
  }

  lemma {:induction false} BitsAdd(c: bv32, m: nat, n: nat)
    ensures Bits(c, m + n) == Bits(Bits(c, m), n)
    decreases m
  {
    if m > 0 {
      hide Bit;
      BitsAdd(Bit(c), m - 1, n);
    }
  }

  function Down(a: bv32, n: nat): bv32
    decreases n
  {
    if n == 0 then a else Down(Half(a), n - 1)
  }

  /** Feeding in bits one by one, or all at once at the low end, is the same division. */
  lemma {:induction false} SerialIsParallel(c: bv32, y: bv32, n: nat)
    ensures Bits(Xor(c, y), n) == Xor(BitSerial(c, LowBits(y, n)), Down(y, n))
    decreases n
  {
    if n > 0 {
      hide Bit, Xor, Half, Odd, Unit;
      OneBit(c, y);
      var rest := LowBits(Half(y), n - 1);
      assert LowBits(y, n)[1..] == rest;
      SerialIsParallel(Bit(Xor(c, Unit(Odd(y)))), Half(y), n - 1);
    }
  }

  lemma {:induction false} SerialAppend(c: bv32, a: seq<bool>, b: seq<bool>)
    ensures BitSerial(c, a + b) == BitSerial(BitSerial(c, a), b)
    decreases |a|
  {
    hide Bit, Xor, Unit;
    if a == [] {
      assert a + b == b;
    } else {
      assert (a + b)[1..] == a[1..] + b;
      SerialAppend(Bit(Xor(c, Unit(a[0]))), a[1..], b);
    }
  }

  // ---------------------------------------------------------------- the table is the division of a byte

  function Bits8(c: bv32): bv32
  {
    Bit(Bit(Bit(Bit(Bit(Bit(Bit(Bit(c))))))))
  }

  lemma Bits8IsBits(c: bv32)
    ensures Bits8(c) == Bits(c, 8)
  {
    hide Bit;
    var c1 := Bit(c); var c2 := Bit(c1); var c3 := Bit(c2); var c4 := Bit(c3);
    assert Bits(c, 8) == Bits(c1, 7) == Bits(c2, 6) == Bits(c3, 5) == Bits(c4, 4);
    var c5 := Bit(c4); var c6 := Bit(c5); var c7 := Bit(c6);
    assert Bits(c4, 4) == Bits(c5, 3) == Bits(c6, 2) == Bits(c7, 1) == Bit(c7);
  }

  lemma TableQuarter0(x: byte)
    requires x < 0x40
    ensures Table(x) == Bits8(x as bv32)
  {
  }

  lemma TableQuarter1(x: byte)
    requires 0x40 <= x < 0x80
    ensures Table(x) == Bits8(x as bv32)
  {
  }

  lemma TableQuarter2(x: byte)
    requires 0x80 <= x < 0xC0
    ensures Table(x) == Bits8(x as bv32)
  {
  }

  lemma TableQuarter3(x: byte)
    requires 0xC0 <= x
    ensures Table(x) == Bits8(x as bv32)
  {
  }

  /** All 256 entries. */
  lemma TableIsDivision(x: byte)
    ensures Table(x) == Bits(Wide(x), 8)
  {
    hide Table, Bits8, Bits;
    if x < 0x40 { TableQuarter0(x); }
    else if x < 0x80 { TableQuarter1(x); }
    else if x < 0xC0 { TableQuarter2(x); }
    else { TableQuarter3(x); }
    Bits8IsBits(x as bv32);
  }

  // ---------------------------------------------------------------- the loop is the division of the message

  /** The top byte is clear. */
  predicate Short(w: bv32)
  {
    w & 0xFF00_0000 == 0
  }

  lemma Up4(w: bv32)
    requires w & 0xF000_0000 == 0
    ensures Up(w, 4) == w << 4 && Roomy(w, 4)
  {
    assert Up(w, 1) == w << 1;
    assert Up(w, 2) == w << 2;
    assert Up(w, 3) == w << 3;
    assert Roomy(w, 2);
  }

  lemma {:induction false} UpAdd(w: bv32, m: nat, n: nat)
    ensures Up(Up(w, m), n) == Up(w, m + n)
    ensures Roomy(w, m) && Roomy(Up(w, m), n) ==> Roomy(w, m + n)
    decreases n
  {
    if n > 0 {
      hide Double;
      UpAdd(w, m, n - 1);
    }
  }

  lemma ShiftTwice(w: bv32)
    ensures Short(w) ==> w & 0xF000_0000 == 0 && (w << 4) & 0xF000_0000 == 0
    ensures (w << 4) << 4 == w << 8
  {
  }

  lemma Up8(w: bv32)
    requires Short(w)
    ensures Up(w, 8) == w << 8 && Roomy(w, 8)
  {
    hide Up, Roomy, Short;
    ShiftTwice(w);
    Up4(w);
    Up4(w << 4);
    UpAdd(w, 4, 4);
  }

  lemma SplitRaw(c: bv32, x: bv32)
    requires x <= 0xFF
    ensures c ^ x == ((c ^ x) & 0xFF) ^ ((c >> 8) << 8) && (c ^ x) & 0xFF <= 0xFF
  {
  }

  lemma ByteSplit(c: bv32, x: byte)
    ensures Xor(c, Wide(x)) == Xor(Wide(Index(c, x)), High(c) << 8)
  {
    SplitRaw(c, x as bv32);
  }

  lemma HighIsShort(c: bv32)
    ensures Short(High(c))
  {
  }

  lemma XorCommutes(a: bv32, b: bv32)
    ensures Xor(a, b) == Xor(b, a)
  {
  }

  lemma StepIsBits(c: bv32, x: byte)
    ensures Step(c, x) == Bits(Xor(c, Wide(x)), 8)
  {
    hide Table, Bits, Up, Roomy, Short, Xor, Wide, Index, High;
    var low, high := Index(c, x), High(c);
    HighIsShort(c);
    ByteSplit(c, x);
    Up8(high);
    BitsLinear(Wide(low), high, 8);
    TableIsDivision(low);
    XorCommutes(high, Table(low));
  }

  lemma WideFallsOut(x: byte)
    ensures Down(Wide(x), 8) == 0
  {
    var y := x as bv32;
    assert Down(y, 8) == Down(Half(Half(y)), 6) == Down(Half(Half(Half(Half(y)))), 4);
    var z := Half(Half(Half(Half(y))));
    assert z == y >> 4;
    assert Down(z, 4) == Down(Half(Half(z)), 2) == Half(Half(Half(Half(z))));
    assert Half(Half(Half(Half(z)))) == z >> 4;
    assert y >> 8 == 0;
  }

  lemma StepIsSerial(c: bv32, x: byte)
    ensures Step(c, x) == BitSerial(c, LowBits(Wide(x), 8))
  {
    hide Step, Bits, Xor, Down, BitSerial, LowBits, Wide;
    StepIsBits(c, x);
    SerialIsParallel(c, Wide(x), 8);
    WideFallsOut(x);
    XorWithZero(BitSerial(c, LowBits(Wide(x), 8)));
  }

  lemma XorWithZero(a: bv32)
    ensures Xor(a, 0) == a
  {
  }

  /** For all byte strings, the table-driven loop is the bit-serial division. */
  lemma {:induction false} TableLoopIsDivision(c: bv32, data: seq<byte>)
    ensures Crc(c, data) == BitSerial(c, Message(data))
    decreases |data|
  {
    if data != [] {
      hide Step, LowBits, Wide, BitSerial;
      StepIsSerial(c, data[0]);
      SerialAppend(c, LowBits(Wide(data[0]), 8), Message(data[1..]));
      TableLoopIsDivision(Step(c, data[0]), data[1..]);
    }
  }

  /** The loop of the script. */
  method Crc32Cal(init: bv32, data: seq<byte>) returns (crc: bv32)
    ensures crc == Crc(init, data) == BitSerial(init, Message(data))
  {
    hide Step, BitSerial, Message;
    TableLoopIsDivision(init, data);
    crc := init;
    for i := 0 to |data|
      invariant Crc(crc, data[i..]) == Crc(init, data)
    {
      assert data[i..][1..] == data[i + 1..];
      crc := Step(crc, data[i]);
    }
  }

  // ---------------------------------------------------------------- up to four bytes at once

  /** A byte below a word. */
  function Join(b: byte, w: bv32): bv32 { Xor(Wide(b), w << 8) }

  /** Up to four bytes as a little-endian word. */
  function Word(x: seq<byte>): bv32
  {
    if x == [] then 0 else Join(x[0], Word(x[1..]))
  }

  /** n bytes leave the upper bytes of their word clear. */
  predicate Fits(w: bv32, n: nat)
  {
    if n == 0 then w == 0 else if n == 1 then w & 0xFFFF_FF00 == 0
    else if n == 2 then w & 0xFFFF_0000 == 0 else if n == 3 then Short(w) else true
  }

  lemma FitsOne(b: byte, w: bv32)
    requires w == 0
    ensures Join(b, w) & 0xFFFF_FF00 == 0 && Short(w)
  {
  }

  lemma FitsTwo(b: byte, w: bv32)
    requires w & 0xFFFF_FF00 == 0
    ensures Join(b, w) & 0xFFFF_0000 == 0 && Short(w)
  {
  }

  lemma FitsThree(b: byte, w: bv32)
    requires w & 0xFFFF_0000 == 0
    ensures Short(Join(b, w)) && Short(w)
  {
  }

  lemma FitsStep(b: byte, w: bv32, n: nat)
    requires Fits(w, n) && n <= 3
    ensures Fits(Join(b, w), n + 1) && Short(w)
  {
    hide Join, Short;
    if n == 0 { FitsOne(b, w); }
    else if n == 1 { FitsTwo(b, w); }
    else if n == 2 { FitsThree(b, w); }
  }

  lemma {:induction false} WordFits(x: seq<byte>)
    requires |x| <= 4
    ensures Fits(Word(x), |x|)
    ensures x != [] ==> Short(Word(x[1..]))
  {
    hide Join, Fits, Short;
    if x == [] {
      EmptyFits();
    } else {
      WordFits(x[1..]);
      FitsStep(x[0], Word(x[1..]), |x| - 1);
    }
  }

  lemma EmptyFits()
    ensures Fits(0, 0)
  {
  }

  lemma XorAssociates(a: bv32, b: bv32, c: bv32)
    ensures Xor(Xor(a, b), c) == Xor(a, Xor(b, c))
  {
  }

  /** The CRC of up to four bytes is the division of their word, all of it at once. */
  lemma {:induction false} CrcOfWord(c: bv32, x: seq<byte>)
    requires |x| <= 4
    ensures Crc(c, x) == Bits(Xor(c, Word(x)), 8 * |x|)
    decreases |x|
  {
    if x == [] {
      XorWithZero(c);
    } else {
      hide Join, Fits, Short, Xor, Step, Bits;
      WordFits(x);
      CrcOfWordStep(c, x[0], Word(x[1..]), |x| - 1);
      CrcOfWord(Step(c, x[0]), x[1..]);
    }
  }

  lemma CrcOfWordStep(c: bv32, b: byte, w: bv32, n: nat)
    requires Short(w)
    ensures Bits(Xor(Step(c, b), w), 8 * n) == Bits(Xor(c, Join(b, w)), 8 * (n + 1))
  {
    hide Bits, Step, Xor, Up, Roomy, Short, Wide;
    StepIsBits(c, b);
    Up8(w);
    BitsLinear(Xor(c, Wide(b)), w, 8);
    XorAssociates(c, Wide(b), w << 8);
    BitsAdd(Xor(c, Join(b, w)), 8, 8 * n);
  }

  lemma SameWordRaw(a: bv32, b: bv32, v: bv32, w: bv32)
    requires a <= 0xFF && b <= 0xFF && Short(v) && Short(w)
    requires a ^ (v << 8) == b ^ (w << 8)
    ensures a == b && v == w
  {
  }

  lemma WideInjective(a: byte, b: byte)
    ensures (a as bv32) <= 0xFF
    ensures a as bv32 == b as bv32 ==> a == b
  {
  }

  lemma JoinInjective(a: byte, b: byte, v: bv32, w: bv32)
    requires Short(v) && Short(w) && Join(a, v) == Join(b, w)
    ensures a == b && v == w
  {
    hide Short;
    WideInjective(a, b);
    WideInjective(b, a);
    SameWordRaw(a as bv32, b as bv32, v, w);
  }

  lemma {:induction false} WordInjective(x: seq<byte>, y: seq<byte>)
    requires |x| == |y| <= 4 && Word(x) == Word(y)
    ensures x == y
  {
    hide Join, Fits, Short;
    if x != [] {
      WordFits(x);
      WordFits(y);
      JoinInjective(x[0], y[0], Word(x[1..]), Word(y[1..]));
      WordInjective(x[1..], y[1..]);
      assert x == [x[0]] + x[1..] && y == [y[0]] + y[1..];
    }
  }

  // ---------------------------------------------------------------- what the CRC detects

  lemma {:induction false} CrcAppend(c: bv32, a: seq<byte>, b: seq<byte>)
    ensures Crc(c, a + b) == Crc(Crc(c, a), b)
    decreases |a|
  {
    hide Step;
    if a == [] {
      assert a + b == b;
    } else {
      assert (a + b)[1..] == a[1..] + b;
      CrcAppend(Step(c, a[0]), a[1..], b);
    }
  }

  lemma XorCancels(c: bv32, a: bv32, b: bv32)
    ensures Xor(c, a) == Xor(c, b) ==> a == b
    ensures Xor(c, c) == 0
  {
  }

  lemma StepInjective(a: bv32, b: bv32, x: byte)
    requires Step(a, x) == Step(b, x)
    ensures a == b
  {
    hide Step, Bits, Xor;
    StepIsBits(a, x);
    StepIsBits(b, x);
    BitsInjective(Xor(a, Wide(x)), Xor(b, Wide(x)), 8);
    XorCommutes(a, Wide(x));
    XorCommutes(b, Wide(x));
    XorCancels(Wide(x), a, b);
  }

  lemma {:induction false} CrcInjective(a: bv32, b: bv32, data: seq<byte>)
    requires Crc(a, data) == Crc(b, data)
    ensures a == b
    decreases |data|
  {
    hide Step;
    if data != [] {
      CrcInjective(Step(a, data[0]), Step(b, data[0]), data[1..]);
      StepInjective(a, b, data[0]);
    }
  }

  /** Messages of equal length that differ only within four consecutive bytes have different CRCs. */
  lemma BurstIsDetected(init: bv32, before: seq<byte>, x: seq<byte>, y: seq<byte>, after: seq<byte>)
    requires |x| == |y| <= 4 && x != y
    ensures Crc(init, before + x + after) != Crc(init, before + y + after)
  {
    hide Crc, Bits, Xor, Word;
    var c := Crc(init, before);
    CrcAppend(init, before + x, after);
    CrcAppend(init, before + y, after);
    CrcAppend(init, before, x);
    CrcAppend(init, before, y);
    if Crc(init, before + x + after) == Crc(init, before + y + after) {
      CrcInjective(Crc(c, x), Crc(c, y), after);
      CrcOfWord(c, x);
      CrcOfWord(c, y);
      BitsInjective(Xor(c, Word(x)), Xor(c, Word(y)), 8 * |x|);
      XorCancels(c, Word(x), Word(y));
      WordInjective(x, y);
    }
  }

  /** The four bytes of a word, lowest first. */
  function Bytes(c: bv32): seq<byte>
  {
    [(c & 0xFF) as byte, ((c >> 8) & 0xFF) as byte, ((c >> 16) & 0xFF) as byte, ((c >> 24) & 0xFF) as byte]
  }

  lemma JoinRaw(c: bv32)
    ensures c == (c & 0xFF) ^
                 ((((c >> 8) & 0xFF) ^ ((((c >> 16) & 0xFF) ^ ((((c >> 24) & 0xFF) ^ (0 << 8)) << 8)) << 8)) << 8)
  {
  }

  lemma JoinOfBytes(c: bv32)
    ensures Join((c & 0xFF) as byte, Join(((c >> 8) & 0xFF) as byte,
              Join(((c >> 16) & 0xFF) as byte, Join(((c >> 24) & 0xFF) as byte, 0)))) == c
  {
    JoinRaw(c);
  }

  lemma WordOfFour(a: byte, b: byte, c: byte, d: byte)
    ensures Word([a, b, c, d]) == Join(a, Join(b, Join(c, Join(d, 0))))
  {
    hide Join;
    assert [a, b, c, d][1..] == [b, c, d] && [b, c, d][1..] == [c, d] && [c, d][1..] == [d] && [d][1..] == [];
    assert Word([d]) == Join(d, 0);
    assert Word([c, d]) == Join(c, Word([d]));
    assert Word([b, c, d]) == Join(b, Word([c, d]));
  }

  lemma WordOfBytes(c: bv32)
    ensures Word(Bytes(c)) == c
  {
    hide Join, Word;
    JoinOfBytes(c);
    WordOfFour((c & 0xFF) as byte, ((c >> 8) & 0xFF) as byte, ((c >> 16) & 0xFF) as byte, ((c >> 24) & 0xFF) as byte);
  }

  lemma {:induction false} BitsOfZero(n: nat)
    ensures Bits(0, n) == 0
  {
    if n > 0 {
      assert Bit(0) == 0;
      BitsOfZero(n - 1);
    }
  }

  /** A message followed by its own CRC has CRC zero. */
  lemma SelfCheck(init: bv32, data: seq<byte>)
    ensures Crc(init, data + Bytes(Crc(init, data))) == 0
  {
    hide Crc, Bits, Xor, Word, Bytes;
    var c := Crc(init, data);
    CrcAppend(init, data, Bytes(c));
    BytesAreFour(c);
    CrcOfWord(c, Bytes(c));
    WordOfBytes(c);
    XorCancels(c, c, c);
    BitsOfZero(32);
  }

  lemma BytesAreFour(c: bv32)
    ensures |Bytes(c)| == 4
  {
  }
}
