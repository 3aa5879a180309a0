// The CRC-16 of the HCI frames: the table algorithm, the bitwise one, and what the
// code detects.
module Crc16 {
  import opened Common

  const INIT_VALUE: bv16 := 0xFFFF
  const GOOD_VALUE: bv16 := 0x0F47
  const POLYNOM: bv16 := 0x8408

  // The lookup table, eight entries a row, in four parts.
  function Row(i: nat): (r: seq<bv16>)
    requires i < 32
    ensures |r| == 8
  {
    if i < 8 then Row0(i) else if i < 16 then Row8(i - 8) else if i < 24 then Row16(i - 16) else Row24(i - 24)
  }

  function Row0(i: nat): (r: seq<bv16>)
    requires i < 8
    ensures |r| == 8
  {
    match i
    case 0 => [0x0000, 0x1189, 0x2312, 0x329B, 0x4624, 0x57AD, 0x6536, 0x74BF]
    case 1 => [0x8C48, 0x9DC1, 0xAF5A, 0xBED3, 0xCA6C, 0xDBE5, 0xE97E, 0xF8F7]
    case 2 => [0x1081, 0x0108, 0x3393, 0x221A, 0x56A5, 0x472C, 0x75B7, 0x643E]
    case 3 => [0x9CC9, 0x8D40, 0xBFDB, 0xAE52, 0xDAED, 0xCB64, 0xF9FF, 0xE876]
    case 4 => [0x2102, 0x308B, 0x0210, 0x1399, 0x6726, 0x76AF, 0x4434, 0x55BD]
    case 5 => [0xAD4A, 0xBCC3, 0x8E58, 0x9FD1, 0xEB6E, 0xFAE7, 0xC87C, 0xD9F5]
    case 6 => [0x3183, 0x200A, 0x1291, 0x0318, 0x77A7, 0x662E, 0x54B5, 0x453C]
    case _ => [0xBDCB, 0xAC42, 0x9ED9, 0x8F50, 0xFBEF, 0xEA66, 0xD8FD, 0xC974]
  }

  function Row8(i: nat): (r: seq<bv16>)
    requires i < 8
    ensures |r| == 8
  {
    match i
    case 0 => [0x4204, 0x538D, 0x6116, 0x709F, 0x0420, 0x15A9, 0x2732, 0x36BB]
    case 1 => [0xCE4C, 0xDFC5, 0xED5E, 0xFCD7, 0x8868, 0x99E1, 0xAB7A, 0xBAF3]
    case 2 => [0x5285, 0x430C, 0x7197, 0x601E, 0x14A1, 0x0528, 0x37B3, 0x263A]
    case 3 => [0xDECD, 0xCF44, 0xFDDF, 0xEC56, 0x98E9, 0x8960, 0xBBFB, 0xAA72]
    case 4 => [0x6306, 0x728F, 0x4014, 0x519D, 0x2522, 0x34AB, 0x0630, 0x17B9]
    case 5 => [0xEF4E, 0xFEC7, 0xCC5C, 0xDDD5, 0xA96A, 0xB8E3, 0x8A78, 0x9BF1]
    case 6 => [0x7387, 0x620E, 0x5095, 0x411C, 0x35A3, 0x242A, 0x16B1, 0x0738]
    case _ => [0xFFCF, 0xEE46, 0xDCDD, 0xCD54, 0xB9EB, 0xA862, 0x9AF9, 0x8B70]
  }

  function Row16(i: nat): (r: seq<bv16>)
    requires i < 8
    ensures |r| == 8
  {
    match i
    case 0 => [0x8408, 0x9581, 0xA71A, 0xB693, 0xC22C, 0xD3A5, 0xE13E, 0xF0B7]
    case 1 => [0x0840, 0x19C9, 0x2B52, 0x3ADB, 0x4E64, 0x5FED, 0x6D76, 0x7CFF]
    case 2 => [0x9489, 0x8500, 0xB79B, 0xA612, 0xD2AD, 0xC324, 0xF1BF, 0xE036]
    case 3 => [0x18C1, 0x0948, 0x3BD3, 0x2A5A, 0x5EE5, 0x4F6C, 0x7DF7, 0x6C7E]
    case 4 => [0xA50A, 0xB483, 0x8618, 0x9791, 0xE32E, 0xF2A7, 0xC03C, 0xD1B5]
    case 5 => [0x2942, 0x38CB, 0x0A50, 0x1BD9, 0x6F66, 0x7EEF, 0x4C74, 0x5DFD]
    case 6 => [0xB58B, 0xA402, 0x9699, 0x8710, 0xF3AF, 0xE226, 0xD0BD, 0xC134]
    case _ => [0x39C3, 0x284A, 0x1AD1, 0x0B58, 0x7FE7, 0x6E6E, 0x5CF5, 0x4D7C]
  }

  function Row24(i: nat): (r: seq<bv16>)
    requires i < 8
    ensures |r| == 8
  {
    match i
    case 0 => [0xC60C, 0xD785, 0xE51E, 0xF497, 0x8028, 0x91A1, 0xA33A, 0xB2B3]
    case 1 => [0x4A44, 0x5BCD, 0x6956, 0x78DF, 0x0C60, 0x1DE9, 0x2F72, 0x3EFB]
    case 2 => [0xD68D, 0xC704, 0xF59F, 0xE416, 0x90A9, 0x8120, 0xB3BB, 0xA232]
    case 3 => [0x5AC5, 0x4B4C, 0x79D7, 0x685E, 0x1CE1, 0x0D68, 0x3FF3, 0x2E7A]
    case 4 => [0xE70E, 0xF687, 0xC41C, 0xD595, 0xA12A, 0xB0A3, 0x8238, 0x93B1]
    case 5 => [0x6B46, 0x7ACF, 0x4854, 0x59DD, 0x2D62, 0x3CEB, 0x0E70, 0x1FF9]
    case 6 => [0xF78F, 0xE606, 0xD49D, 0xC514, 0xB1AB, 0xA022, 0x92B9, 0x8330]
    case _ => [0x7BC7, 0x6A4E, 0x58D5, 0x495C, 0x3DE3, 0x2C6A, 0x1EF1, 0x0F78]
  }

  function Table(i: nat): bv16
    requires i < 256
  {
    Row(i / 8)[i % 8]
  }

  function Widen(b: byte): (w: bv16)
    ensures w < 256
  {
    b as bv16
  }

  // ----- the table algorithm -----

  function Xor(a: bv16, b: bv16): bv16 {
    a ^ b
  }

  function Upper(x: bv16): bv16 {
    x >> 8
  }

  function Lower(x: bv16): (i: nat)
    ensures i < 256
  {
    (x & 0xFF) as int
  }

  function Update(crc: bv16, b: byte): bv16 {
    Xor(Upper(crc), Table(Lower(Xor(crc, Widen(b)))))
  }

  function Calc(data: seq<byte>, init: bv16): bv16 {
    if data == [] then init else Update(Calc(data[..|data| - 1], init), data[|data| - 1])
  }

  predicate Good(remainder: bv16) {
    !remainder == GOOD_VALUE
  }

  predicate Check(data: seq<byte>, init: bv16) {
    Good(Calc(data, init))
  }

  // ----- the bitwise algorithm -----

  function BitStep(crc: bv16, b: byte): bv16 {
    if (Widen(b) & 1) ^ (crc & 1) == 1 then (crc >> 1) ^ POLYNOM else crc >> 1
  }

  function BitSteps(crc: bv16, b: byte, bits: nat): bv16
    decreases bits
  {
    if bits == 0 then crc else BitSteps(BitStep(crc, b), b >> 1, bits - 1)
  }

  // Dividing out one bit.
  function Shift(crc: bv16): bv16 {
    if crc & 1 == 1 then (crc >> 1) ^ POLYNOM else crc >> 1
  }

  function Shift2(crc: bv16): bv16 {
    Shift(Shift(crc))
  }

  function Shift4(crc: bv16): bv16 {
    Shift2(Shift2(crc))
  }

  function Shift8(crc: bv16): bv16 {
    Shift4(Shift4(crc))
  }

  // ----- the table holds the bitwise remainders -----

  // Row i holds what eight single shifts make of x, x + 1, ..., x + 7.
  predicate RowIs(i: nat, x: bv16)
    requires i < 32
  {
    && Row(i)[0] == Shift8(x) && Row(i)[1] == Shift8(x + 1) && Row(i)[2] == Shift8(x + 2) && Row(i)[3] == Shift8(x + 3)
    && Row(i)[4] == Shift8(x + 4) && Row(i)[5] == Shift8(x + 5) && Row(i)[6] == Shift8(x + 6) &&
       Row(i)[7] == Shift8(x + 7)
  }

  lemma Rows0()
    ensures RowIs(0, 0) && RowIs(1, 8)
  {
  }

  lemma Rows1()
    ensures RowIs(2, 16) && RowIs(3, 24)
  {
  }

  lemma Rows2()
    ensures RowIs(4, 32) && RowIs(5, 40)
  {
  }

  lemma Rows3()
    ensures RowIs(6, 48) && RowIs(7, 56)
  {
  }

  lemma Rows4()
    ensures RowIs(8, 64) && RowIs(9, 72)
  {
  }

  lemma Rows5()
    ensures RowIs(10, 80) && RowIs(11, 88)
  {
  }

  lemma Rows6()
    ensures RowIs(12, 96) && RowIs(13, 104)
  {
  }

  lemma Rows7()
    ensures RowIs(14, 112) && RowIs(15, 120)
  {
  }

  lemma Rows8()
    ensures RowIs(16, 128) && RowIs(17, 136)
  {
  }

  lemma Rows9()
    ensures RowIs(18, 144) && RowIs(19, 152)
  {
  }

  lemma Rows10()
    ensures RowIs(20, 160) && RowIs(21, 168)
  {
  }

  lemma Rows11()
    ensures RowIs(22, 176) && RowIs(23, 184)
  {
  }

  lemma Rows12()
    ensures RowIs(24, 192) && RowIs(25, 200)
  {
  }

  lemma Rows13()
    ensures RowIs(26, 208) && RowIs(27, 216)
  {
  }

  lemma Rows14()
    ensures RowIs(28, 224) && RowIs(29, 232)
  {
  }

  lemma Rows15()
    ensures RowIs(30, 240) && RowIs(31, 248)
  {
  }

  lemma RowOf(x: bv16, i: bv16)
    requires x < 256 && i == x >> 3
    ensures 0 <= i as int < 32 && RowIs(i as int, x & 0xF8)
  {
    Rows0(); Rows1(); Rows2(); Rows3(); Rows4(); Rows5(); Rows6(); Rows7();
    Rows8(); Rows9(); Rows10(); Rows11(); Rows12(); Rows13(); Rows14(); Rows15();
    hide RowIs;
    assert x & 0xF8 == i << 3;
    assert i == 0 || i == 1 || i == 2 || i == 3 || i == 4 || i == 5 || i == 6 || i == 7
        || i == 8 || i == 9 || i == 10 || i == 11 || i == 12 || i == 13 || i == 14 || i == 15
        || i == 16 || i == 17 || i == 18 || i == 19 || i == 20 || i == 21 || i == 22 || i == 23
        || i == 24 || i == 25 || i == 26 || i == 27 || i == 28 || i == 29 || i == 30 || i == 31;
  }

  lemma Index(x: bv16)
    requires x < 256
    ensures x as int == 8 * ((x >> 3) as int) + (x & 7) as int
    ensures x == (x & 0xF8) + (x & 7)
    ensures x & 7 == 0 || x & 7 == 1 || x & 7 == 2 || x & 7 == 3 || x & 7 == 4 || x & 7 == 5 || x & 7 == 6 || x & 7 == 7
  {
  }

  lemma TableEntry(x: bv16)
    requires x < 256
    ensures Table(x as int) == Shift8(x)
  {
    hide Row, Shift8;
    RowOf(x, x >> 3);
    Index(x);
  }

  // ----- linearity -----

  lemma LowBit(x: bv16, y: bv16)
    ensures (x ^ y) & 1 == (x & 1) ^ (y & 1)
    ensures x & 1 == 0 || x & 1 == 1
  {
  }

  lemma Halves(x: bv16, y: bv16)
    ensures (x ^ y) >> 1 == (x >> 1) ^ (y >> 1)
  {
  }

  lemma Regroup(a: bv16, b: bv16, p: bv16, q: bv16)
    ensures (a ^ p) ^ (b ^ q) == (a ^ b) ^ (p ^ q)
  {
  }

  function Divisor(crc: bv16): bv16 {
    if crc & 1 == 1 then POLYNOM else 0
  }

  lemma DivisorLinear(x: bv16, y: bv16)
    ensures Divisor(x ^ y) == Divisor(x) ^ Divisor(y)
  {
    LowBit(x, y);
    LowBit(y, x);
  }

  lemma XorNothing(x: bv16)
    ensures x ^ 0 == x
  {
  }

  lemma ShiftDivides(x: bv16)
    ensures Shift(x) == (x >> 1) ^ Divisor(x)
  {
    XorNothing(x >> 1);
  }

  lemma ShiftLinear(x: bv16, y: bv16)
    ensures Shift(Xor(x, y)) == Xor(Shift(x), Shift(y))
  {
    hide Shift, Divisor;
    Halves(x, y);
    DivisorLinear(x, y);
    ShiftDivides(x);
    ShiftDivides(y);
    ShiftDivides(x ^ y);
    Regroup(x >> 1, y >> 1, Divisor(x), Divisor(y));
  }

  lemma Shift2Linear(x: bv16, y: bv16)
    ensures Shift2(Xor(x, y)) == Xor(Shift2(x), Shift2(y))
  {
    hide Shift, Xor;
    ShiftLinear(x, y);
    ShiftLinear(Shift(x), Shift(y));
  }

  lemma Shift4Linear(x: bv16, y: bv16)
    ensures Shift4(Xor(x, y)) == Xor(Shift4(x), Shift4(y))
  {
    hide Shift2, Xor;
    Shift2Linear(x, y);
    Shift2Linear(Shift2(x), Shift2(y));
  }

  lemma Shift8Linear(x: bv16, y: bv16)
    ensures Shift8(Xor(x, y)) == Xor(Shift8(x), Shift8(y))
  {
    hide Shift4, Xor;
    Shift4Linear(x, y);
    Shift4Linear(Shift4(x), Shift4(y));
  }

  lemma Parts(x: bv16)
    ensures Shift8(x & 0xFF00) == Upper(x)
    ensures x == Xor(x & 0xFF00, x & 0xFF)
  {
  }

  lemma LowerEntry(x: bv16)
    ensures Table(Lower(x)) == Shift8(x & 0xFF)
  {
    hide Table, Shift8;
    TableEntry(x & 0xFF);
  }

  lemma HighByte(crc: bv16, b: byte)
    ensures Upper(Xor(crc, Widen(b))) == Upper(crc)
  {
  }

  // One byte of the table algorithm divides out eight bits.
  lemma UpdateShifts(crc: bv16, b: byte)
    ensures Update(crc, b) == Shift8(Xor(crc, Widen(b)))
  {
    hide Upper, Lower, Table, Shift8, Xor, Widen;
    var x := Xor(crc, Widen(b));
    HighByte(crc, b);
    Parts(x);
    Shift8Linear(x & 0xFF00, x & 0xFF);
    LowerEntry(x);
  }

  // ----- table and bits agree -----

  // A byte with its n low bits shifted out.
  function Drop(b: byte, n: nat): byte
    decreases n
  {
    if n == 0 then b else Drop(b >> 1, n - 1)
  }

  function Shifts(x: bv16, n: nat): bv16
    decreases n
  {
    if n == 0 then x else Shifts(Shift(x), n - 1)
  }

  lemma BitParts(crc: bv16, b: byte)
    ensures Xor(crc, Widen(b)) == Xor(Xor(crc, Widen(b) & 1), Widen(b >> 1) << 1)
    ensures Shift(Widen(b >> 1) << 1) == Widen(b >> 1)
    ensures BitStep(crc, b) == Shift(Xor(crc, Widen(b) & 1))
  {
  }

  lemma OneBit(crc: bv16, b: byte)
    ensures Shift(Xor(crc, Widen(b))) == Xor(BitStep(crc, b), Widen(b >> 1))
  {
    hide *;
    BitParts(crc, b);
    ShiftLinear(Xor(crc, Widen(b) & 1), Widen(b >> 1) << 1);
  }

  lemma {:induction false} BitStepsShift(crc: bv16, b: byte, n: nat)
    ensures Shifts(Xor(crc, Widen(b)), n) == Xor(BitSteps(crc, b, n), Widen(Drop(b, n)))
    decreases n
  {
    hide Shift, Xor, Widen, BitStep;
    if n > 0 {
      OneBit(crc, b);
      BitStepsShift(BitStep(crc, b), b >> 1, n - 1);
    }
  }

  lemma DropAll(b: byte)
    ensures Drop(b, 8) == 0
  {
    assert ((((((((b >> 1) >> 1) >> 1) >> 1) >> 1) >> 1) >> 1) >> 1) == 0;
  }

  // One byte of the table algorithm is eight rounds of the bitwise one.
  lemma TableIsBitwise(crc: bv16, b: byte)
    ensures Update(crc, b) == BitSteps(crc, b, 8)
  {
    UpdateShifts(crc, b);
    BitStepsShift(crc, b, 8);
    DropAll(b);
    assert Xor(BitSteps(crc, b, 8), Widen(0)) == BitSteps(crc, b, 8) by {
      hide BitSteps;
    }
    hide Shift, Xor, Widen, Update, BitSteps;
    assert Shifts(Xor(crc, Widen(b)), 8) == Shift8(Xor(crc, Widen(b)));
  }

  // ----- the appended checksum -----

  function LowOf(x: bv16): byte {
    (x & 0xFF) as byte
  }

  function HighOf(x: bv16): byte {
    (x >> 8) as byte
  }

  function LowFirst(x: bv16): seq<byte> {
    [LowOf(x), HighOf(x)]
  }

  function Complement(x: bv16): bv16 {
    !x
  }

  // The two bytes sent behind a block: the complement, low byte first.
  function Fcs(data: seq<byte>, init: bv16): seq<byte> {
    LowFirst(Complement(Calc(data, init)))
  }

  predicate OnesBelow(w: bv16) {
    w & 0xFF == 0xFF
  }

  function Flip(h: bv16): bv16 {
    h ^ 0xFF
  }

  function Mix(h: bv16): bv16 {
    h ^ 0x0F78
  }

  // The last byte leaves the good value behind one remainder only.
  lemma LastStep(z: bv16)
    ensures Good(Shift8(z)) <==> z == 0x0F87
  {
  }

  // The byte before leaves its upper half behind an all-ones lower half only.
  lemma StepBefore(w: bv16)
    ensures Upper(Shift8(w)) == 0x0F <==> OnesBelow(w)
    ensures OnesBelow(w) ==> Shift8(w) == Mix(Upper(w))
  {
  }

  lemma LowMatches(c: bv16, a: byte)
    ensures OnesBelow(Xor(c, Widen(a))) <==> a == LowOf(!c)
    ensures Upper(Xor(c, Widen(a))) == Upper(c)
  {
  }

  lemma HighMatches(c: bv16, b: byte)
    ensures Xor(Mix(Upper(c)), Widen(b)) == 0x0F87 <==> b == HighOf(!c)
  {
  }

  lemma HighPart(y: bv16, b: byte)
    requires Xor(y, Widen(b)) == 0x0F87
    ensures Upper(y) == 0x0F
  {
  }

  // Two bytes behind remainder c leave the good value exactly when they are its
  // complement, low byte first.
  lemma GoodRemainder(c: bv16, a: byte, b: byte)
    ensures Good(Shift8(Xor(Shift8(Xor(c, Widen(a))), Widen(b)))) <==> a == LowOf(!c) && b == HighOf(!c)
  {
    hide *;
    var w := Xor(c, Widen(a));
    LastStep(Xor(Shift8(w), Widen(b)));
    StepBefore(w);
    LowMatches(c, a);
    if OnesBelow(w) {
      HighMatches(c, b);
    } else if Xor(Shift8(w), Widen(b)) == 0x0F87 {
      HighPart(Shift8(w), b);
    }
  }

  // A block passes the check exactly with its own checksum behind it.
  lemma CheckIff(data: seq<byte>, a: byte, b: byte, init: bv16)
    ensures Check(data + [a, b], init) <==> [a, b] == Fcs(data, init)
  {
    hide Update, Shift8, LowOf, HighOf, Xor, Good;
    var c := Calc(data, init);
    assert Calc(data + [a, b], init) == Update(Update(c, a), b) by {
      assert (data + [a, b])[..|data| + 1] == data + [a] && (data + [a])[..|data|] == data;
    }
    hide Calc;
    UpdateShifts(c, a);
    UpdateShifts(Update(c, a), b);
    GoodRemainder(c, a, b);
  }

  // ----- error detection -----

  // Bit i of a message in the order the code processes them.
  function BitAt(data: seq<byte>, i: nat): bv16
    requires i < 8 * |data|
  {
    Widen(Drop(data[i / 8], i % 8)) & 1
  }

  function CalcBits(data: seq<byte>, init: bv16, bits: nat): bv16
    requires bits <= 8 * |data|
    decreases bits
  {
    if bits == 0 then init
    else Shift(Xor(CalcBits(data, init, bits - 1), BitAt(data, bits - 1)))
  }

  lemma {:induction false} BitStepsGrow(crc: bv16, b: byte, n: nat)
    ensures BitSteps(crc, b, n + 1) == Shift(Xor(BitSteps(crc, b, n), Widen(Drop(b, n)) & 1))
    decreases n
  {
    hide Shift, Xor, Widen;
    BitParts(crc, b);
    if n > 0 {
      hide BitStep;
      BitStepsGrow(BitStep(crc, b), b >> 1, n - 1);
    }
  }

  lemma {:induction false} BitsOfByte(data: seq<byte>, init: bv16, k: nat, j: nat)
    requires k < |data| && j <= 8
    ensures CalcBits(data, init, 8 * k + j) == BitSteps(CalcBits(data, init, 8 * k), data[k], j)
    decreases j
  {
    hide Shift, Xor, Widen, BitStep, Drop;
    if j > 0 {
      BitsOfByte(data, init, k, j - 1);
      BitStepsGrow(CalcBits(data, init, 8 * k), data[k], j - 1);
      assert (8 * k + (j - 1)) / 8 == k && (8 * k + (j - 1)) % 8 == j - 1;
    }
  }

  lemma {:induction false} BitsMakeBytes(data: seq<byte>, init: bv16, k: nat)
    requires k <= |data|
    ensures CalcBits(data, init, 8 * k) == Calc(data[..k], init)
  {
    hide Update, BitSteps;
    if k > 0 {
      BitsMakeBytes(data, init, k - 1);
      BitsOfByte(data, init, k - 1, 8);
      TableIsBitwise(Calc(data[..k - 1], init), data[k - 1]);
      assert data[..k][..k - 1] == data[..k - 1];
    }
  }

  // The two messages' bits are equal outside sixteen consecutive ones.
  ghost predicate Burst(x: seq<byte>, y: seq<byte>, lo: nat) {
    && |x| == |y|
    && forall i :: 0 <= i < 8 * |x| && BitAt(x, i) != BitAt(y, i) ==> lo <= i < lo + 16
  }

  ghost predicate DifferBefore(x: seq<byte>, y: seq<byte>, n: nat)
    requires |x| == |y| && n <= 8 * |x|
  {
    exists i :: 0 <= i < n && BitAt(x, i) != BitAt(y, i)
  }

  function Threshold(s: nat): (t: bv16)
    requires s < 16
    ensures 1 <= t <= 0x8000
  {
    [1, 2, 4, 8, 0x10, 0x20, 0x40, 0x80, 0x100, 0x200, 0x400, 0x800, 0x1000, 0x2000, 0x4000, 0x8000][s]
  }

  predicate HalfOf(h: bv16, t: bv16) {
    t >> 1 == h && t & 1 == 0
  }

  lemma HalfThreshold(s: nat)
    requires 0 < s < 16
    ensures HalfOf(Threshold(s - 1), Threshold(s))
  {
    assert s == 1 || s == 2 || s == 3 || s == 4 || s == 5 || s == 6 || s == 7 || s == 8
        || s == 9 || s == 10 || s == 11 || s == 12 || s == 13 || s == 14 || s == 15;
  }

  predicate AtLeast(x: bv16, t: bv16) {
    x >= t && x != 0
  }

  // A difference stays at least half as large, whatever the next bits are.
  lemma LargeStays(d: bv16, e: bv16, t: bv16, h: bv16)
    requires e <= 1 && AtLeast(d, t) && HalfOf(h, t) && h >= 1
    ensures AtLeast(Shift(Xor(d, e)), h)
  {
  }

  lemma ShiftFacts(d: bv16)
    ensures Shift(Xor(0, 0)) == 0 && Shift(Xor(0, 1)) >= 0x8000
    ensures d != 0 ==> Shift(Xor(d, 0)) != 0
  {
  }

  lemma XorFacts(a: bv16, b: bv16)
    ensures Xor(a, b) == 0 <==> a == b
    ensures a <= 1 && b <= 1 && a != b ==> Xor(a, b) == 1
  {
    if a == b {
    } else if a <= 1 && b <= 1 {
      assert (a == 0 && b == 1) || (a == 1 && b == 0);
    } else if Xor(a, b) == 0 {
      XorZero(a, b);
    }
  }

  lemma XorZero(a: bv16, b: bv16)
    requires Xor(a, b) == 0
    ensures a == b
  {
  }

  lemma XorSwap(a: bv16, b: bv16, p: bv16, q: bv16)
    ensures Xor(Xor(a, p), Xor(b, q)) == Xor(Xor(a, b), Xor(p, q))
  {
    hide Xor;
    XorGroups(Xor(a, p), b, q);
    XorGroups(a, p, b);
    XorGroups(a, b, p);
    XorGroups(Xor(a, b), p, q);
  }

  lemma XorGroups(a: bv16, b: bv16, c: bv16)
    ensures Xor(a, Xor(b, c)) == Xor(Xor(a, b), c)
    ensures Xor(b, c) == Xor(c, b)
  {
  }

  lemma BitRange(data: seq<byte>, i: nat)
    requires i < 8 * |data|
    ensures BitAt(data, i) <= 1
  {
  }

  // How far the two computations are apart after n bits.
  function Apart(x: seq<byte>, y: seq<byte>, init: bv16, n: nat): bv16
    requires |x| == |y| && n <= 8 * |x|
  {
    Xor(CalcBits(x, init, n), CalcBits(y, init, n))
  }

  lemma ApartStep(x: seq<byte>, y: seq<byte>, init: bv16, n: nat)
    requires |x| == |y| && n < 8 * |x|
    ensures Apart(x, y, init, n + 1) == Shift(Xor(Apart(x, y, init, n), Xor(BitAt(x, n), BitAt(y, n))))
  {
    hide Shift, Xor, BitAt;
    var a, b, p, q := CalcBits(x, init, n), CalcBits(y, init, n), BitAt(x, n), BitAt(y, n);
    ShiftLinear(Xor(a, p), Xor(b, q));
    XorSwap(a, b, p, q);
  }

  lemma LargeStaysAt(d: bv16, e: bv16, s: nat)
    requires 0 < s < 16 && e <= 1 && AtLeast(d, Threshold(s))
    ensures AtLeast(Shift(Xor(d, e)), Threshold(s - 1))
  {
    hide *;
    HalfThreshold(s);
    LargeStays(d, e, Threshold(s), Threshold(s - 1));
  }

  // A difference made within the burst is still there after n bits.
  predicate Visible(d: bv16, lo: nat, n: nat) {
    n > lo && d != 0 && (n <= lo + 16 ==> AtLeast(d, Threshold(lo + 16 - n)))
  }

  lemma FirstDifference(lo: nat, m: nat)
    requires lo <= m < lo + 16
    ensures Visible(Shift(Xor(0, 1)), lo, m + 1)
  {
    hide Shift, Xor, Threshold;
    ShiftFacts(0);
  }

  lemma StillVisible(d: bv16, e: bv16, lo: nat, m: nat)
    requires Visible(d, lo, m) && e <= 1 && (m >= lo + 16 ==> e == 0)
    ensures Visible(Shift(Xor(d, e)), lo, m + 1)
  {
    hide Shift, Xor, Threshold;
    if m < lo + 16 {
      LargeStaysAt(d, e, lo + 16 - m);
    } else {
      ShiftFacts(d);
    }
  }

  lemma BitDifference(x: seq<byte>, y: seq<byte>, i: nat)
    requires |x| == |y| && i < 8 * |x|
    ensures var e := Xor(BitAt(x, i), BitAt(y, i));
            e == if BitAt(x, i) == BitAt(y, i) then 0 else 1
  {
    hide BitAt, Xor;
    BitRange(x, i);
    BitRange(y, i);
    XorFacts(BitAt(x, i), BitAt(y, i));
  }

  lemma {:induction false} BurstStaysVisible(x: seq<byte>, y: seq<byte>, init: bv16, lo: nat, n: nat)
    requires Burst(x, y, lo) && n <= 8 * |x|
    ensures !DifferBefore(x, y, n) ==> Apart(x, y, init, n) == 0
    ensures DifferBefore(x, y, n) ==> Visible(Apart(x, y, init, n), lo, n)
  {
    hide Shift, Xor, BitAt, Visible, Apart;
    if n == 0 {
      ApartStart(x, y, init);
    } else {
      var m := n - 1;
      BurstStaysVisible(x, y, init, lo, m);
      ApartStep(x, y, init, m);
      BitDifference(x, y, m);
      ShiftFacts(0);
      var d := Apart(x, y, init, m);
      if DifferBefore(x, y, m) {
        VisibleBehind(d, lo, m);
        StillVisible(d, Xor(BitAt(x, m), BitAt(y, m)), lo, m);
      } else if BitAt(x, m) != BitAt(y, m) {
        FirstDifference(lo, m);
      }
    }
  }

  lemma VisibleBehind(d: bv16, lo: nat, n: nat)
    requires Visible(d, lo, n)
    ensures n > lo && d != 0
  {
  }

  lemma ApartStart(x: seq<byte>, y: seq<byte>, init: bv16)
    requires |x| == |y|
    ensures Apart(x, y, init, 0) == 0
  {
  }

  lemma EightBits(b: byte, c: byte)
    requires b & 1 == c & 1 && (b >> 1) & 1 == (c >> 1) & 1 && (b >> 2) & 1 == (c >> 2) & 1 &&
             (b >> 3) & 1 == (c >> 3) & 1
    requires (b >> 4) & 1 == (c >> 4) & 1 && (b >> 5) & 1 == (c >> 5) & 1 && (b >> 6) & 1 == (c >> 6) & 1
    requires (b >> 7) & 1 == (c >> 7) & 1
    ensures b == c
  {
  }

  lemma DropShifts(b: byte)
    ensures Drop(b, 0) == b && Drop(b, 1) == b >> 1 && Drop(b, 2) == b >> 2 && Drop(b, 3) == b >> 3
    ensures Drop(b, 4) == b >> 4 && Drop(b, 5) == b >> 5 && Drop(b, 6) == b >> 6 && Drop(b, 7) == b >> 7
  {
  }

  lemma SameLowBit(b: byte, c: byte)
    ensures Widen(b) & 1 == Widen(c) & 1 <==> b & 1 == c & 1
  {
  }

  lemma BitsDetermineByte(b: byte, c: byte)
    requires forall j :: 0 <= j < 8 ==> Widen(Drop(b, j)) & 1 == Widen(Drop(c, j)) & 1
    ensures b == c
  {
    hide Widen, Drop;
    forall j | 0 <= j < 8
      ensures Drop(b, j) & 1 == Drop(c, j) & 1
    {
      SameLowBit(Drop(b, j), Drop(c, j));
    }
    DropsDetermineByte(b, c);
  }

  lemma DropsDetermineByte(b: byte, c: byte)
    requires forall j :: 0 <= j < 8 ==> Drop(b, j) & 1 == Drop(c, j) & 1
    ensures b == c
  {
    hide Drop;
    DropShifts(b);
    DropShifts(c);
    assert Drop(b, 0) & 1 == Drop(c, 0) & 1 && Drop(b, 1) & 1 == Drop(c, 1) & 1;
    EightBits(b, c);
  }

  lemma DifferentBits(x: seq<byte>, y: seq<byte>)
    requires |x| == |y| && x != y
    ensures DifferBefore(x, y, 8 * |x|)
  {
    hide Widen, Drop;
    var k :| 0 <= k < |x| && x[k] != y[k];
    if forall j :: 0 <= j < 8 ==> Widen(Drop(x[k], j)) & 1 == Widen(Drop(y[k], j)) & 1 {
      BitsDetermineByte(x[k], y[k]);
    } else {
      var j :| 0 <= j < 8 && Widen(Drop(x[k], j)) & 1 != Widen(Drop(y[k], j)) & 1;
      assert (8 * k + j) / 8 == k && (8 * k + j) % 8 == j;
      assert BitAt(x, 8 * k + j) != BitAt(y, 8 * k + j);
    }
  }

  // Every error within sixteen consecutive bits changes the checksum.
  lemma DetectsBursts(x: seq<byte>, y: seq<byte>, init: bv16, lo: nat)
    requires Burst(x, y, lo) && x != y
    ensures Calc(x, init) != Calc(y, init)
  {
    hide Shift, Xor, BitAt, Update, DifferBefore, CalcBits;
    DifferentBits(x, y);
    BurstStaysVisible(x, y, init, lo, 8 * |x|);
    VisibleBehind(Apart(x, y, init, 8 * |x|), lo, 8 * |x|);
    BitsMakeBytes(x, init, |x|);
    BitsMakeBytes(y, init, |y|);
    assert x[..|x|] == x && y[..|y|] == y;
    XorFacts(Calc(x, init), Calc(y, init));
  }

  // In particular every error in two adjacent bytes.
  lemma DetectsTwoBytes(x: seq<byte>, y: seq<byte>, init: bv16, k: nat)
    requires |x| == |y| && x != y && forall i :: 0 <= i < |x| && x[i] != y[i] ==> k <= i <= k + 1
    ensures Calc(x, init) != Calc(y, init)
  {
    forall i | 0 <= i < 8 * |x| && BitAt(x, i) != BitAt(y, i)
      ensures 8 * k <= i < 8 * k + 16
    {
      assert x[i / 8] != y[i / 8];
    }
    DetectsBursts(x, y, init, 8 * k);
  }

  // ----- the two implementations -----

  method CalcByTable(data: array<byte>, length: nat, init: bv16) returns (crc: bv16)
    requires length <= data.Length
    ensures crc == Calc(data[..length], init)
  {
    hide Update;
    crc := init;
    var i := 0;
    while i < length
      invariant 0 <= i <= length && crc == Calc(data[..i], init)
    {
      assert data[..i + 1][..i] == data[..i];
      crc := Update(crc, data[i]);
      i := i + 1;
    }
  }

  method CalcBitwise(data: array<byte>, length: nat, init: bv16) returns (crc: bv16)
    requires length <= data.Length
    ensures crc == Calc(data[..length], init)
  {
    hide Update, Widen;
    crc := init;
    var i := 0;
    while i < length
      invariant 0 <= i <= length && crc == Calc(data[..i], init)
    {
      assert data[..i + 1][..i] == data[..i];
      var b := data[i];
      TableIsBitwise(crc, b);
      ghost var whole := Update(crc, b);
      var bits := 8;
      while bits > 0
        invariant 0 <= bits <= 8 && BitSteps(crc, b, bits) == whole
      {
        if (Widen(b) & 1) ^ (crc & 1) == 1 {
          crc := (crc >> 1) ^ POLYNOM;
        } else {
          crc := crc >> 1;
        }
        b := b >> 1;
        bits := bits - 1;
      }
      i := i + 1;
    }
  }
}
