/**
 CRC-16-ARC: the table-driven octet step, its bit-serial meaning, and the errors it is sure to
 notice.
 */
module Crc16Arc {
  import opened Octets

  /** The lookup table, sixteen entries to a row: entry 16*r + c is CRC16_TABLE[r][c]. */
  const CRC16_TABLE: seq<seq<bv16>> := [
    [0x0000, 0xc0c1, 0xc181, 0x0140, 0xc301, 0x03c0, 0x0280, 0xc241,
     0xc601, 0x06c0, 0x0780, 0xc741, 0x0500, 0xc5c1, 0xc481, 0x0440],
    [0xcc01, 0x0cc0, 0x0d80, 0xcd41, 0x0f00, 0xcfc1, 0xce81, 0x0e40,
     0x0a00, 0xcac1, 0xcb81, 0x0b40, 0xc901, 0x09c0, 0x0880, 0xc841],
    [0xd801, 0x18c0, 0x1980, 0xd941, 0x1b00, 0xdbc1, 0xda81, 0x1a40,
     0x1e00, 0xdec1, 0xdf81, 0x1f40, 0xdd01, 0x1dc0, 0x1c80, 0xdc41],
    [0x1400, 0xd4c1, 0xd581, 0x1540, 0xd701, 0x17c0, 0x1680, 0xd641,
     0xd201, 0x12c0, 0x1380, 0xd341, 0x1100, 0xd1c1, 0xd081, 0x1040],
    [0xf001, 0x30c0, 0x3180, 0xf141, 0x3300, 0xf3c1, 0xf281, 0x3240,
     0x3600, 0xf6c1, 0xf781, 0x3740, 0xf501, 0x35c0, 0x3480, 0xf441],
    [0x3c00, 0xfcc1, 0xfd81, 0x3d40, 0xff01, 0x3fc0, 0x3e80, 0xfe41,
     0xfa01, 0x3ac0, 0x3b80, 0xfb41, 0x3900, 0xf9c1, 0xf881, 0x3840],
    [0x2800, 0xe8c1, 0xe981, 0x2940, 0xeb01, 0x2bc0, 0x2a80, 0xea41,
     0xee01, 0x2ec0, 0x2f80, 0xef41, 0x2d00, 0xedc1, 0xec81, 0x2c40],
    [0xe401, 0x24c0, 0x2580, 0xe541, 0x2700, 0xe7c1, 0xe681, 0x2640,
     0x2200, 0xe2c1, 0xe381, 0x2340, 0xe101, 0x21c0, 0x2080, 0xe041],
    [0xa001, 0x60c0, 0x6180, 0xa141, 0x6300, 0xa3c1, 0xa281, 0x6240,
     0x6600, 0xa6c1, 0xa781, 0x6740, 0xa501, 0x65c0, 0x6480, 0xa441],
    [0x6c00, 0xacc1, 0xad81, 0x6d40, 0xaf01, 0x6fc0, 0x6e80, 0xae41,
     0xaa01, 0x6ac0, 0x6b80, 0xab41, 0x6900, 0xa9c1, 0xa881, 0x6840],
    [0x7800, 0xb8c1, 0xb981, 0x7940, 0xbb01, 0x7bc0, 0x7a80, 0xba41,
     0xbe01, 0x7ec0, 0x7f80, 0xbf41, 0x7d00, 0xbdc1, 0xbc81, 0x7c40],
    [0xb401, 0x74c0, 0x7580, 0xb541, 0x7700, 0xb7c1, 0xb681, 0x7640,
     0x7200, 0xb2c1, 0xb381, 0x7340, 0xb101, 0x71c0, 0x7080, 0xb041],
    [0x5000, 0x90c1, 0x9181, 0x5140, 0x9301, 0x53c0, 0x5280, 0x9241,
     0x9601, 0x56c0, 0x5780, 0x9741, 0x5500, 0x95c1, 0x9481, 0x5440],
    [0x9c01, 0x5cc0, 0x5d80, 0x9d41, 0x5f00, 0x9fc1, 0x9e81, 0x5e40,
     0x5a00, 0x9ac1, 0x9b81, 0x5b40, 0x9901, 0x59c0, 0x5880, 0x9841],
    [0x8801, 0x48c0, 0x4980, 0x8941, 0x4b00, 0x8bc1, 0x8a81, 0x4a40,
     0x4e00, 0x8ec1, 0x8f81, 0x4f40, 0x8d01, 0x4dc0, 0x4c80, 0x8c41],
    [0x4400, 0x84c1, 0x8581, 0x4540, 0x8701, 0x47c0, 0x4680, 0x8641,
     0x8201, 0x42c0, 0x4380, 0x8341, 0x4100, 0x81c1, 0x8081, 0x4040]
  ]

  lemma TableShape()
    ensures |CRC16_TABLE| == 16
    ensures forall r :: 0 <= r < 16 ==> |CRC16_TABLE[r]| == 16
  {
  }

  function TableEntry(i: bv8): bv16 {
    TableShape();
    CRC16_TABLE[(i >> 4) as nat][(i & 15) as nat]
  }

  function Xor(a: bv16, b: bv16): bv16 {
    a ^ b
  }

  function LowOctet(c: bv16): bv8 {
    (c & 0xff) as bv8
  }

  function HighOctet(c: bv16): bv8 {
    (c >> 8) as bv8
  }

  function Word(o: bv8): bv16 {
    o as bv16
  }

  function Byte(d: octet): bv8 {
    d as bv8
  }

  /** One octet of input, as the library computes it. */
  function CrcOctet(crc: bv16, data: bv8): bv16 {
    Xor(Word(HighOctet(crc)), TableEntry(LowOctet(Xor(crc, Word(data)))))
  }

  function Crc(crc: bv16, message: seq<octet>): bv16
    decreases |message|
  {
    if message == [] then crc else Crc(CrcOctet(crc, Byte(message[0])), message[1..])
  }

  /* ---------- The bit-serial definition ---------- */

  /** Shift one bit out of the reflected register; 0xa001 is the polynomial 0x8005 reflected. */
  function Shift(crc: bv16): bv16 {
    if crc & 1 == 1 then (crc >> 1) ^ 0xa001 else crc >> 1
  }

  /** The register with the next input bit mixed in. */
  function MixBit(c: bv16, b: bool): bv16 {
    if b then Xor(c, 1) else c
  }

  function CrcBit(crc: bv16, bit: bool): bv16 {
    Shift(MixBit(crc, bit))
  }

  function CrcBits(crc: bv16, bits: seq<bool>): bv16
    decreases |bits|
  {
    if bits == [] then crc else CrcBits(CrcBit(crc, bits[0]), bits[1..])
  }

  /** The low n bits of w in transmission order, least significant first. */
  function LowBits(w: bv16, n: nat): (bits: seq<bool>)
    ensures |bits| == n
    decreases n
  {
    if n == 0 then [] else [w & 1 == 1] + LowBits(w >> 1, n - 1)
  }

  function OctetBits(d: bv8): (bits: seq<bool>)
    ensures |bits| == 8
  {
    LowBits(Word(d), 8)
  }

  function Bits(message: seq<octet>): (bits: seq<bool>)
    ensures |bits| == 8 * |message|
  {
    if message == [] then [] else OctetBits(Byte(message[0])) + Bits(message[1..])
  }

  /* ---------- The register is linear ---------- */

  lemma XorParts(c: bv16, d: bv16)
    ensures (c ^ d) & 1 == (c & 1) ^ (d & 1)
    ensures (c ^ d) >> 1 == (c >> 1) ^ (d >> 1)
  {
  }

  lemma LowBit(c: bv16)
    ensures c & 1 == 0 || c & 1 == 1
  {
  }

  lemma XorRegroup(a: bv16, b: bv16, k: bv16)
    ensures (a ^ k) ^ b == (a ^ b) ^ k && (a ^ k) ^ (b ^ k) == a ^ b && a ^ (b ^ k) == (a ^ b) ^ k
  {
  }

  lemma ShiftXor(c: bv16, d: bv16)
    ensures Shift(Xor(c, d)) == Xor(Shift(c), Shift(d))
  {
    XorParts(c, d);
    LowBit(c);
    LowBit(d);
    XorRegroup(c >> 1, d >> 1, 0xa001);
  }

  function Shift8(crc: bv16): bv16 {
    Shift(Shift(Shift(Shift(Shift(Shift(Shift(Shift(crc))))))))
  }

  lemma Shift8Xor(c: bv16, d: bv16)
    ensures Shift8(Xor(c, d)) == Xor(Shift8(c), Shift8(d))
  {
    hide Shift, Xor;
    var c1, d1 := Shift(c), Shift(d);
    var c2, d2 := Shift(c1), Shift(d1);
    var c3, d3 := Shift(c2), Shift(d2);
    var c4, d4 := Shift(c3), Shift(d3);
    var c5, d5 := Shift(c4), Shift(d4);
    var c6, d6 := Shift(c5), Shift(d5);
    var c7, d7 := Shift(c6), Shift(d6);
    ShiftXor(c, d);
    ShiftXor(c1, d1);
    ShiftXor(c2, d2);
    ShiftXor(c3, d3);
    ShiftXor(c4, d4);
    ShiftXor(c5, d5);
    ShiftXor(c6, d6);
    ShiftXor(c7, d7);
  }

  /** Eight zero bits in the low half leave by plain shifting. */
  lemma Shift8High(c: bv16)
    ensures Shift8(c & 0xff00) == Word(HighOctet(c))
  {
    var x := c & 0xff00;
    assert x & 1 == 0 && Shift(x) == x >> 1;
    assert Shift(x >> 1) == x >> 2;
    assert Shift(x >> 2) == x >> 3;
    assert Shift(x >> 3) == x >> 4;
    assert Shift(x >> 4) == x >> 5;
    assert Shift(x >> 5) == x >> 6;
    assert Shift(x >> 6) == x >> 7;
    assert Shift(x >> 7) == x >> 8;
    assert x >> 8 == c >> 8;
  }

  /* ---------- The table is the bit-serial register ---------- */

  function MapRow<T>(f: T -> T, row: seq<T>): seq<T>
    requires |row| == 16
  {
    [f(row[0]), f(row[1]), f(row[2]), f(row[3]), f(row[4]), f(row[5]), f(row[6]), f(row[7]),
     f(row[8]), f(row[9]), f(row[10]), f(row[11]), f(row[12]), f(row[13]), f(row[14]), f(row[15])]
  }

  lemma MapRowAt<T>(f: T -> T, row: seq<T>, c: nat)
    requires |row| == 16 && c < 16
    ensures MapRow(f, row)[c] == f(row[c])
  {
  }

  function XorWith(x: bv16): bv16 -> bv16 {
    y => Xor(x, y)
  }

  predicate RowIsShifted(r: nat)
    requires r < 16
  {
    TableShape();
    CRC16_TABLE[r] == MapRow(XorWith(CRC16_TABLE[r][0]), CRC16_TABLE[0])
  }

  lemma Rows0And1()
    ensures RowIsShifted(0) && RowIsShifted(1)
  {
  }

  lemma Rows2And3()
    ensures RowIsShifted(2) && RowIsShifted(3)
  {
  }

  lemma Rows4And5()
    ensures RowIsShifted(4) && RowIsShifted(5)
  {
  }

  lemma Rows6And7()
    ensures RowIsShifted(6) && RowIsShifted(7)
  {
  }

  lemma Rows8And9()
    ensures RowIsShifted(8) && RowIsShifted(9)
  {
  }

  lemma Rows10And11()
    ensures RowIsShifted(10) && RowIsShifted(11)
  {
  }

  lemma Rows12And13()
    ensures RowIsShifted(12) && RowIsShifted(13)
  {
  }

  lemma Rows14And15()
    ensures RowIsShifted(14) && RowIsShifted(15)
  {
  }

  lemma EveryRow(r: nat)
    requires r < 16
    ensures RowIsShifted(r)
  {
    hide RowIsShifted;
    Rows0And1();
    Rows2And3();
    Rows4And5();
    Rows6And7();
    Rows8And9();
    Rows10And11();
    Rows12And13();
    Rows14And15();
  }

  lemma TableXor(r: nat, c: nat)
    requires r < 16 && c < 16
    ensures |CRC16_TABLE[r]| == 16 && |CRC16_TABLE[0]| == 16
    ensures CRC16_TABLE[r][c] == Xor(CRC16_TABLE[r][0], CRC16_TABLE[0][c])
  {
    hide CRC16_TABLE, Xor, MapRow;
    TableShape();
    EveryRow(r);
    MapRowAt(XorWith(CRC16_TABLE[r][0]), CRC16_TABLE[0], c);
  }

  lemma Column0And1()
    ensures TableEntry(0) == Shift8(0) && TableEntry(16) == Shift8(16)
    ensures TableEntry(0) == Shift8(0) && TableEntry(1) == Shift8(1)
  {
  }

  lemma Column2And3()
    ensures TableEntry(32) == Shift8(32) && TableEntry(48) == Shift8(48)
    ensures TableEntry(2) == Shift8(2) && TableEntry(3) == Shift8(3)
  {
  }

  lemma Column4And5()
    ensures TableEntry(64) == Shift8(64) && TableEntry(80) == Shift8(80)
    ensures TableEntry(4) == Shift8(4) && TableEntry(5) == Shift8(5)
  {
  }

  lemma Column6And7()
    ensures TableEntry(96) == Shift8(96) && TableEntry(112) == Shift8(112)
    ensures TableEntry(6) == Shift8(6) && TableEntry(7) == Shift8(7)
  {
  }

  lemma Column8And9()
    ensures TableEntry(128) == Shift8(128) && TableEntry(144) == Shift8(144)
    ensures TableEntry(8) == Shift8(8) && TableEntry(9) == Shift8(9)
  {
  }

  lemma Column10And11()
    ensures TableEntry(160) == Shift8(160) && TableEntry(176) == Shift8(176)
    ensures TableEntry(10) == Shift8(10) && TableEntry(11) == Shift8(11)
  {
  }

  lemma Column12And13()
    ensures TableEntry(192) == Shift8(192) && TableEntry(208) == Shift8(208)
    ensures TableEntry(12) == Shift8(12) && TableEntry(13) == Shift8(13)
  {
  }

  lemma Column14And15()
    ensures TableEntry(224) == Shift8(224) && TableEntry(240) == Shift8(240)
    ensures TableEntry(14) == Shift8(14) && TableEntry(15) == Shift8(15)
  {
  }

  /** An octet is its high half mixed with its low half. */
  lemma Halves(i: bv8)
    ensures (i & 0xf0) >> 4 == i >> 4 && (i & 0xf0) & 15 == 0
    ensures (i & 15) >> 4 == 0 && (i & 15) & 15 == i & 15
    ensures (i >> 4) << 4 == i & 0xf0 && i >> 4 < 16 && i & 15 < 16
    ensures Xor((i & 0xf0) as bv16, (i & 15) as bv16) == i as bv16
  {
  }

  lemma TableEntryIsShift8(i: bv8)
    ensures TableEntry(i) == Shift8(Word(i))
  {
    hide CRC16_TABLE, Shift8, Xor;
    Halves(i);
    TableXor((i >> 4) as nat, (i & 15) as nat);
    Column(i >> 4);
    Column(i & 15);
    Shift8Xor((i & 0xf0) as bv16, (i & 15) as bv16);
  }

  /** The first column and the first row of the table, each at index q. */
  lemma Column(q: bv8)
    requires q < 16
    ensures TableEntry(q << 4) == Shift8((q << 4) as bv16)
    ensures TableEntry(q) == Shift8(q as bv16)
  {
    hide TableEntry, Shift8;
    Column0And1();
    Column2And3();
    Column4And5();
    Column6And7();
    Column8And9();
    Column10And11();
    Column12And13();
    Column14And15();
  }

  lemma WordHalves(x: bv16)
    ensures Xor(x & 0xff00, Word(LowOctet(x))) == x
  {
  }

  lemma HighOctetUntouched(crc: bv16, d: bv8)
    ensures HighOctet(Xor(crc, Word(d))) == HighOctet(crc)
  {
    assert (crc ^ (d as bv16)) >> 8 == crc >> 8;
  }

  /** The table step is eight bit-serial steps on the register mixed with the octet. */
  lemma CrcOctetIsShift8(crc: bv16, d: bv8)
    ensures CrcOctet(crc, d) == Shift8(Xor(crc, Word(d)))
  {
    hide TableEntry, Shift8, Xor, LowOctet, HighOctet, Word;
    var x := Xor(crc, Word(d));
    WordHalves(x);
    HighOctetUntouched(crc, d);
    TableEntryIsShift8(LowOctet(x));
    Shift8High(x);
    Shift8Xor(x & 0xff00, Word(LowOctet(x)));
  }

  /* ---------- Table form and bit-serial form agree ---------- */

  /** Mixing in a whole word at once lets its bits arrive one shift at a time. */
  lemma Inject(c: bv16, w: bv16)
    ensures Shift(Xor(c, w)) == Xor(CrcBit(c, w & 1 == 1), w >> 1)
  {
    hide Shift, Xor;
    InjectLow(c, w);
    ShiftXor(MixBit(c, w & 1 == 1), w & 0xfffe);
    ShiftEven(w);
  }

  /** A word is its low bit mixed into the rest. */
  lemma InjectLow(c: bv16, w: bv16)
    ensures Xor(c, w) == Xor(MixBit(c, w & 1 == 1), w & 0xfffe)
  {
    LowBit(w);
    if w & 1 == 1 {
      OddApart(w, c);
    } else {
      EvenApart(w);
    }
  }

  lemma OddApart(w: bv16, c: bv16)
    requires w & 1 == 1
    ensures c ^ w == (c ^ 1) ^ (w & 0xfffe)
  {
  }

  lemma EvenApart(w: bv16)
    requires w & 1 == 0
    ensures w & 0xfffe == w
  {
  }

  lemma XorZero(c: bv16)
    ensures Xor(c, 0) == c
  {
  }

  lemma ShiftEven(w: bv16)
    ensures Shift(w & 0xfffe) == w >> 1
  {
  }

  function ShiftMany(c: bv16, n: nat): bv16
    decreases n
  {
    if n == 0 then c else ShiftMany(Shift(c), n - 1)
  }

  function DropBits(w: bv16, n: nat): bv16
    decreases n
  {
    if n == 0 then w else DropBits(w >> 1, n - 1)
  }

  lemma {:induction false} InjectMany(c: bv16, w: bv16, n: nat)
    ensures ShiftMany(Xor(c, w), n) == Xor(CrcBits(c, LowBits(w, n)), DropBits(w, n))
    decreases n
  {
    hide Shift, CrcBit, Xor;
    if n > 0 {
      Inject(c, w);
      InjectMany(CrcBit(c, w & 1 == 1), w >> 1, n - 1);
      assert LowBits(w, n)[1..] == LowBits(w >> 1, n - 1);
    }
  }

  lemma Shift8IsShiftMany(c: bv16)
    ensures Shift8(c) == ShiftMany(c, 8)
  {
    hide Shift;
    var c4 := Shift(Shift(Shift(Shift(c))));
    assert ShiftMany(c4, 4) == Shift(Shift(Shift(Shift(c4))));
    assert ShiftMany(c, 8) == ShiftMany(c4, 4);
  }

  lemma DropOctet(d: bv8)
    ensures DropBits(Word(d), 8) == 0
  {
    var w := Word(d);
    assert DropBits(w, 8) == DropBits((((w >> 1) >> 1) >> 1) >> 1, 4);
    assert ((((((((w >> 1) >> 1) >> 1) >> 1) >> 1) >> 1) >> 1) >> 1) == 0;
  }

  lemma CrcOctetIsSerial(crc: bv16, d: bv8)
    ensures CrcOctet(crc, d) == CrcBits(crc, OctetBits(d))
  {
    hide CrcOctet, CrcBit, Shift, Shift8, Xor, Word, CrcBits, LowBits;
    CrcOctetIsShift8(crc, d);
    Shift8IsShiftMany(Xor(crc, Word(d)));
    InjectMany(crc, Word(d), 8);
    DropOctet(d);
    XorZero(CrcBits(crc, OctetBits(d)));
  }

  lemma {:induction false} CrcBitsConcat(crc: bv16, a: seq<bool>, b: seq<bool>)
    ensures CrcBits(crc, a + b) == CrcBits(CrcBits(crc, a), b)
    decreases |a|
  {
    if a == [] {
      assert a + b == b;
    } else {
      assert (a + b)[1..] == a[1..] + b;
      CrcBitsConcat(CrcBit(crc, a[0]), a[1..], b);
    }
  }

  /** The table-driven checksum is the bit-serial one, on every message. */
  lemma {:induction false} CrcIsSerial(crc: bv16, message: seq<octet>)
    ensures Crc(crc, message) == CrcBits(crc, Bits(message))
    decreases |message|
  {
    if message != [] {
      CrcBitsConcat(crc, OctetBits(Byte(message[0])), Bits(message[1..]));
      CrcOctetIsSerial(crc, Byte(message[0]));
      CrcIsSerial(CrcOctet(crc, Byte(message[0])), message[1..]);
    }
  }

  /** Checksumming in parts is checksumming the whole. */
  lemma {:induction false} CrcConcat(crc: bv16, a: seq<octet>, b: seq<octet>)
    ensures Crc(crc, a + b) == Crc(Crc(crc, a), b)
    decreases |a|
  {
    if a == [] {
      assert a + b == b;
    } else {
      assert (a + b)[1..] == a[1..] + b;
      CrcConcat(CrcOctet(crc, Byte(a[0])), a[1..], b);
    }
  }

  /* ---------- Errors that cannot pass unnoticed ---------- */

  /** n halvings leave something of t. */
  predicate Lasts(t: bv16, n: nat) {
    if n == 0 then t != 0 else Lasts(t >> 1, n - 1)
  }

  lemma {:induction false} LastsLess(t: bv16, n: nat)
    requires Lasts(t, n + 1)
    ensures Lasts(t, n)
    decreases n
  {
    if n == 0 {
      assert t >> 1 != 0;
    } else {
      LastsLess(t >> 1, n - 1);
    }
  }

  lemma {:induction false} TopBitLasts(n: nat)
    requires n < 16
    ensures Lasts(0x8000, n)
    decreases 16 - n
  {
    if n < 15 {
      TopBitLasts(n + 1);
      LastsLess(0x8000, n);
    } else {
      assert Lasts(0x1, 0) && Lasts(0x2, 1) && Lasts(0x4, 2) && Lasts(0x8, 3);
      assert Lasts(0x10, 4) && Lasts(0x20, 5) && Lasts(0x40, 6) && Lasts(0x80, 7);
      assert Lasts(0x100, 8) && Lasts(0x200, 9) && Lasts(0x400, 10) && Lasts(0x800, 11);
      assert Lasts(0x1000, 12) && Lasts(0x2000, 13) && Lasts(0x4000, 14);
    }
  }

  lemma {:induction false} MaskLasts(x: bv16, m: bv16, n: nat)
    requires x & m == m && Lasts(m, n)
    ensures Lasts(x, n)
    decreases n
  {
    if n > 0 {
      MaskHalves(x, m);
      MaskLasts(x >> 1, m >> 1, n - 1);
    }
  }

  lemma MaskHalves(x: bv16, m: bv16)
    requires x & m == m
    ensures (x >> 1) & (m >> 1) == m >> 1
  {
    AndHalves(x, m);
  }

  lemma AndHalves(x: bv16, m: bv16)
    ensures (x >> 1) & (m >> 1) == (x & m) >> 1
  {
  }

  lemma MixBitKeepsHalf(c: bv16, b: bool)
    ensures MixBit(c, b) >> 1 == c >> 1
  {
  }

  lemma OddShiftSetsTop(c: bv16)
    requires c & 1 == 1
    ensures Shift(c) & 0x8000 == 0x8000
  {
  }

  /** Shifting costs a difference at most one halving. */
  lemma LastsShift(x: bv16, b: bool, n: nat)
    requires Lasts(x, n + 1) && n < 16
    ensures Lasts(Shift(MixBit(x, b)), n)
  {
    hide MixBit;
    var y := MixBit(x, b);
    MixBitKeepsHalf(x, b);
    if y & 1 == 1 {
      hide Shift;
      OddShiftSetsTop(y);
      TopBitLasts(n);
      MaskLasts(Shift(y), 0x8000, n);
    }
  }

  lemma ShiftKeepsNonZero(c: bv16)
    requires c != 0
    ensures Shift(c) != 0
  {
  }

  lemma XorLeft(a: bv16, b: bv16, k: bv16)
    ensures Xor(Xor(a, k), b) == Xor(Xor(a, b), k)
  {
    XorRegroup(a, b, k);
  }

  lemma XorRight(a: bv16, b: bv16, k: bv16)
    ensures Xor(a, Xor(b, k)) == Xor(Xor(a, b), k)
  {
    XorRegroup(a, b, k);
  }

  lemma XorTwice(x: bv16, k: bv16)
    ensures Xor(Xor(x, k), k) == x
  {
    assert (x ^ k) ^ k == x;
  }

  lemma XorBoth(a: bv16, b: bv16, k: bv16)
    ensures Xor(Xor(a, k), Xor(b, k)) == Xor(a, b)
  {
    hide Xor;
    XorRight(Xor(a, k), b, k);
    XorLeft(a, b, k);
    XorTwice(Xor(a, b), k);
  }

  lemma MixedDifference(c: bv16, c': bv16, b: bool, b': bool)
    ensures Xor(MixBit(c, b), MixBit(c', b')) == MixBit(Xor(c, c'), b != b')
  {
    hide Xor;
    XorLeft(c, c', 1);
    XorBoth(c, c', 1);
    XorRight(c, c', 1);
  }

  /** Two registers fed two bits differ by the shifted difference. */
  lemma CrcBitDifference(c: bv16, c': bv16, b: bool, b': bool)
    ensures Xor(CrcBit(c, b), CrcBit(c', b')) == Shift(MixBit(Xor(c, c'), b != b'))
  {
    hide Shift, Xor, MixBit;
    MixedDifference(c, c', b, b');
    ShiftXor(MixBit(c, b), MixBit(c', b'));
  }

  lemma XorSame(c: bv16, c': bv16)
    ensures Xor(c, c') == 0 <==> c == c'
  {
    hide Xor;
    XorTwice(c, c');
    ZeroXor(c');
  }

  lemma ZeroXor(c: bv16)
    ensures Xor(0, c) == c && Xor(c, c) == 0
  {
  }

  /** A difference in the register survives any further equal input. */
  lemma {:induction false} DifferenceSurvives(c: bv16, c': bv16, v: seq<bool>)
    requires c != c'
    ensures CrcBits(c, v) != CrcBits(c', v)
    decreases |v|
  {
    hide Shift, CrcBit, Xor;
    if v != [] {
      XorSame(c, c');
      CrcBitDifference(c, c', v[0], v[0]);
      ShiftKeepsNonZero(Xor(c, c'));
      XorSame(CrcBit(c, v[0]), CrcBit(c', v[0]));
      DifferenceSurvives(CrcBit(c, v[0]), CrcBit(c', v[0]), v[1..]);
    }
  }

  /** A difference cannot be cancelled while it outlasts the bits still to come, whatever they are. */
  lemma {:induction false} DifferenceOutlasts(c: bv16, c': bv16, w: seq<bool>, w': seq<bool>)
    requires |w| == |w'| < 16
    requires Lasts(Xor(c, c'), |w|)
    ensures CrcBits(c, w) != CrcBits(c', w')
    decreases |w|
  {
    hide Shift, CrcBit, Xor, MixBit;
    if w == [] {
      XorSame(c, c');
    } else {
      CrcBitDifference(c, c', w[0], w'[0]);
      LastsShift(Xor(c, c'), w[0] != w'[0], |w| - 1);
      DifferenceOutlasts(CrcBit(c, w[0]), CrcBit(c', w'[0]), w[1..], w'[1..]);
    }
  }

  /** Two bit streams that first differ in one bit and agree again at most sixteen bits later. */
  lemma BurstChangesRegister(crc: bv16, p: seq<bool>, b: bool, w: seq<bool>, w': seq<bool>, v: seq<bool>)
    requires |w| == |w'| < 16
    ensures CrcBits(crc, p + [b] + w + v) != CrcBits(crc, p + [!b] + w' + v)
  {
    hide Shift, CrcBit, Xor, CrcBits;
    var c := CrcBits(crc, p);
    FirstDifference(c, b, |w|);
    var d, d' := CrcBits(c, [b]), CrcBits(c, [!b]);
    DifferenceOutlasts(d, d', w, w');
    DifferenceSurvives(CrcBits(d, w), CrcBits(d', w'), v);
    CrcBitsConcat(crc, p, [b]);
    CrcBitsConcat(crc, p + [b], w);
    CrcBitsConcat(crc, p + [b] + w, v);
    CrcBitsConcat(crc, p, [!b]);
    CrcBitsConcat(crc, p + [!b], w');
    CrcBitsConcat(crc, p + [!b] + w', v);
  }

  lemma FirstShift()
    ensures Shift(MixBit(0, true)) == 0xa001
  {
  }

  lemma FirstDifference(c: bv16, b: bool, n: nat)
    requires n < 16
    ensures Lasts(Xor(CrcBits(c, [b]), CrcBits(c, [!b])), n)
  {
    hide CrcBit, Xor;
    CrcBitDifference(c, c, b, !b);
    XorSame(c, c);
    FirstShift();
    TopBitLasts(n);
    MaskLasts(0xa001, 0x8000, n);
  }

  /* ---------- Messages ---------- */

  lemma {:induction false} LowBitsInjective(w: bv16, w': bv16, n: nat)
    requires LowBits(w, n) == LowBits(w', n) && DropBits(w, n) == DropBits(w', n)
    ensures w == w'
    decreases n
  {
    if n > 0 {
      var bits, bits' := LowBits(w, n), LowBits(w', n);
      assert bits[0] == bits'[0] && bits[1..] == bits'[1..];
      LowBitsInjective(w >> 1, w' >> 1, n - 1);
      LowBit(w);
      LowBit(w');
      WordFromParts(w);
      WordFromParts(w');
    }
  }

  lemma WordFromParts(w: bv16)
    ensures w == ((w >> 1) << 1) | (w & 1)
  {
  }

  lemma {:induction false} BitsInjective(m: seq<octet>, m': seq<octet>)
    requires |m| == |m'| && Bits(m) == Bits(m')
    ensures m == m'
    decreases |m|
  {
    if m != [] {
      var bits, bits' := Bits(m), Bits(m');
      assert OctetBits(Byte(m[0])) == bits[..8] && OctetBits(Byte(m'[0])) == bits'[..8];
      assert Bits(m[1..]) == bits[8..] && Bits(m'[1..]) == bits'[8..];
      DropOctet(Byte(m[0]));
      DropOctet(Byte(m'[0]));
      LowBitsInjective(Word(Byte(m[0])), Word(Byte(m'[0])), 8);
      WordInjective(Byte(m[0]), Byte(m'[0]));
      ByteInjective(m[0], m'[0]);
      BitsInjective(m[1..], m'[1..]);
    }
  }

  lemma WordInjective(d: bv8, d': bv8)
    requires Word(d) == Word(d')
    ensures d == d'
  {
    assert LowOctet(Word(d)) == d && LowOctet(Word(d')) == d';
  }

  lemma ByteInjective(d: octet, d': octet)
    requires Byte(d) == Byte(d')
    ensures d == d'
  {
    OctetFitsByte(d);
    OctetFitsByte(d');
  }

  /** The first place where two different sequences of one length differ. */
  function FirstDifferenceAt<T(==)>(a: seq<T>, b: seq<T>): (i: nat)
    requires |a| == |b| && a != b
    ensures i < |a| && a[i] != b[i] && a[..i] == b[..i]
  {
    if a[0] != b[0] then 0
    else
      assert a[1..] != b[1..] by { assert a == [a[0]] + a[1..] && b == [b[0]] + b[1..]; }
      1 + FirstDifferenceAt(a[1..], b[1..])
  }

  /** Messages of one length that differ, but only within sixteen consecutive transmitted bits. */
  ghost predicate BurstApart(m: seq<octet>, m': seq<octet>, k: nat) {
    && |m| == |m'| && m != m'
    && forall i :: 0 <= i < 8 * |m| && !(k <= i < k + 16) ==> Bits(m)[i] == Bits(m')[i]
  }

  lemma SplitAround(s: seq<bool>, i: nat, e: nat)
    requires i < e <= |s|
    ensures s == s[..i] + [s[i]] + s[i + 1..e] + s[e..]
  {
  }

  /** No burst of up to sixteen bits goes unnoticed, whatever surrounds it and wherever it falls. */
  lemma BurstDetected(crc: bv16, m: seq<octet>, m': seq<octet>, k: nat)
    requires BurstApart(m, m', k)
    ensures Crc(crc, m) != Crc(crc, m')
  {
    hide Crc, CrcBits, Bits;
    var a, b := Bits(m), Bits(m');
    if a == b {
      BitsInjective(m, m');
    }
    var i := FirstDifferenceAt(a, b);
    var e := if k + 16 < |a| then k + 16 else |a|;
    var p, w, w', v := a[..i], a[i + 1..e], b[i + 1..e], a[e..];
    SplitAround(a, i, e);
    SplitAround(b, i, e);
    assert b[..i] == p && b[i] == !a[i];
    assert b[e..] == v;
    BurstChangesRegister(crc, p, a[i], w, w', v);
    CrcIsSerial(crc, m);
    CrcIsSerial(crc, m');
  }

  lemma {:induction false} BitsConcat(a: seq<octet>, b: seq<octet>)
    ensures Bits(a + b) == Bits(a) + Bits(b)
    decreases |a|
  {
    if a == [] {
      assert a + b == b;
    } else {
      assert (a + b)[1..] == a[1..] + b;
      BitsConcat(a[1..], b);
    }
  }

  /** Messages that differ only within two adjacent octets have different checksums. */
  lemma AdjacentOctetsDetected(crc: bv16, u: seq<octet>, x: seq<octet>, x': seq<octet>, v: seq<octet>)
    requires |x| == |x'| <= 2 && x != x'
    ensures Crc(crc, u + x + v) != Crc(crc, u + x' + v)
  {
    hide Crc, Bits;
    var m, m' := u + x + v, u + x' + v;
    assert m != m' by {
      assert m[|u|..|u| + |x|] == x && m'[|u|..|u| + |x|] == x';
    }
    BitsConcat(u, x);
    BitsConcat(u + x, v);
    BitsConcat(u, x');
    BitsConcat(u + x', v);
    assert BurstApart(m, m', 8 * |u|);
    BurstDetected(crc, m, m', 8 * |u|);
  }

  /** Replacing any one octet of a message by a different one changes its checksum. */
  lemma OctetDetected(crc: bv16, m: seq<octet>, i: nat, d: octet)
    requires i < |m| && d != m[i]
    ensures Crc(crc, m) != Crc(crc, m[i := d])
  {
    assert m == m[..i] + [m[i]] + m[i + 1..];
    assert m[i := d] == m[..i] + [d] + m[i + 1..];
    AdjacentOctetsDetected(crc, m[..i], [m[i]], [d], m[i + 1..]);
  }

  /* ---------- Parity ---------- */

  /** Is the number of ones among the low n bits odd? */
  predicate Odd(c: bv16, n: nat) {
    n > 0 && (c & 1 == 1) != Odd(c >> 1, n - 1)
  }

  /** Is the number of ones in a register odd? */
  predicate Parity(c: bv16) {
    Odd(c, 16)
  }

  lemma {:induction false} OddXor(c: bv16, d: bv16, n: nat)
    ensures Odd(Xor(c, d), n) == (Odd(c, n) != Odd(d, n))
    decreases n
  {
    hide Xor;
    if n > 0 {
      XorHead(c, d);
      OddXor(c >> 1, d >> 1, n - 1);
    }
  }

  lemma XorHead(c: bv16, d: bv16)
    ensures Xor(c, d) & 1 == 1 <==> (c & 1 == 1) != (d & 1 == 1)
    ensures Xor(c, d) >> 1 == Xor(c >> 1, d >> 1)
  {
    XorParts(c, d);
    LowBit(c);
    LowBit(d);
    OneBit(c & 1, d & 1);
  }

  lemma OneBit(a: bv16, b: bv16)
    requires (a == 0 || a == 1) && (b == 0 || b == 1)
    ensures a ^ b == 1 <==> a != b
  {
  }

  /** Bits behind the last of a register do not count. */
  lemma {:induction false} OddStops(c: bv16, n: nat)
    requires !Lasts(c, n)
    ensures Odd(c, n + 1) == Odd(c, n)
    decreases n
  {
    if n > 0 {
      OddStops(c >> 1, n - 1);
    }
  }

  lemma NothingLasts(c: bv16)
    ensures !Lasts(c, 16)
  {
    OnesEnd();
    if Lasts(c, 16) {
      AllMask(c);
      MaskLasts(0xffff, c, 16);
    }
  }

  lemma OnesEnd()
    ensures !Lasts(0xffff, 16)
  {
    assert !Lasts(0x1, 1) && !Lasts(0x3, 2) && !Lasts(0x7, 3) && !Lasts(0xf, 4) && !Lasts(0x1f, 5) && !Lasts(0x3f, 6);
    assert !Lasts(0x7f, 7) && !Lasts(0xff, 8) && !Lasts(0x1ff, 9) && !Lasts(0x3ff, 10) && !Lasts(0x7ff, 11);
    assert !Lasts(0xfff, 12) && !Lasts(0x1fff, 13) && !Lasts(0x3fff, 14) && !Lasts(0x7fff, 15);
  }

  lemma AllMask(c: bv16)
    ensures 0xffff & c == c
  {
  }

  lemma HalfParity(c: bv16)
    ensures Parity(c >> 1) == (Parity(c) != (c & 1 == 1))
  {
    NothingLasts(c);
    OddStops(c >> 1, 15);
  }

  lemma PolynomialParity()
    ensures Parity(0xa001) && Parity(1)
  {
    OddZero(15);
    assert Odd(0x1, 1) && Odd(0x2, 2) && !Odd(0x5, 3) && !Odd(0xa, 4) && !Odd(0x14, 5) && !Odd(0x28, 6);
    assert !Odd(0x50, 7) && !Odd(0xa0, 8) && !Odd(0x140, 9) && !Odd(0x280, 10) && !Odd(0x500, 11);
    assert !Odd(0xa00, 12) && !Odd(0x1400, 13) && !Odd(0x2800, 14) && !Odd(0x5000, 15);
  }

  lemma {:induction false} OddZero(n: nat)
    ensures !Odd(0, n)
  {
    if n > 0 {
      OddZero(n - 1);
    }
  }

  /** The polynomial has an odd number of ones below its highest, so that a shift keeps parity. */
  lemma ShiftKeepsParity(c: bv16)
    ensures Parity(Shift(c)) == Parity(c)
  {
    hide Odd;
    HalfParity(c);
    PolynomialParity();
    OddXor(c >> 1, 0xa001, 16);
  }

  lemma MixingParity(c: bv16, b: bool)
    ensures Parity(MixBit(c, b)) == (Parity(c) != b)
  {
    hide Odd;
    PolynomialParity();
    OddXor(c, 1, 16);
  }

  /** Is the number of ones in a sequence of bits odd? */
  function OddOnes(bits: seq<bool>): bool {
    bits != [] && bits[0] != OddOnes(bits[1..])
  }

  lemma {:induction false} CrcBitsParity(crc: bv16, bits: seq<bool>)
    ensures Parity(CrcBits(crc, bits)) == (Parity(crc) != OddOnes(bits))
    decreases |bits|
  {
    hide Parity, Shift, MixBit;
    if bits != [] {
      MixingParity(crc, bits[0]);
      ShiftKeepsParity(MixBit(crc, bits[0]));
      CrcBitsParity(CrcBit(crc, bits[0]), bits[1..]);
    }
  }

  /** The number of places where two sequences of bits differ. */
  function Inversions(a: seq<bool>, b: seq<bool>): nat
    requires |a| == |b|
  {
    if a == [] then 0 else (if a[0] != b[0] then 1 else 0) + Inversions(a[1..], b[1..])
  }

  lemma {:induction false} InversionsParity(a: seq<bool>, b: seq<bool>)
    requires |a| == |b|
    ensures Inversions(a, b) % 2 == 1 <==> OddOnes(a) != OddOnes(b)
  {
    if a != [] {
      InversionsParity(a[1..], b[1..]);
    }
  }

  /** No odd number of inverted bits goes unnoticed, wherever they are. */
  lemma OddInversionsDetected(crc: bv16, m: seq<octet>, m': seq<octet>)
    requires |m| == |m'| && Inversions(Bits(m), Bits(m')) % 2 == 1
    ensures Crc(crc, m) != Crc(crc, m')
  {
    hide Crc, CrcBits, Bits, Parity, OddOnes, Inversions;
    CrcIsSerial(crc, m);
    CrcIsSerial(crc, m');
    CrcBitsParity(crc, Bits(m));
    CrcBitsParity(crc, Bits(m'));
    InversionsParity(Bits(m), Bits(m'));
  }

  /* ---------- The library's entry points ---------- */

  /** The checksum of a message that continues from an earlier one. */
  function Checksum(initial: word, message: seq<octet>): word {
    Crc(initial as bv16, message) as word
  }

  /** Checksumming in parts, each continuing from the last, is checksumming the whole. */
  lemma ChecksumConcat(initial: word, a: seq<octet>, b: seq<octet>)
    ensures Checksum(initial, a + b) == Checksum(Checksum(initial, a), b)
  {
    CrcConcat(initial as bv16, a, b);
    RegisterAndBack(Crc(initial as bv16, a));
  }

  lemma ChecksumOfNothing(initial: word)
    ensures Checksum(initial, []) == initial
  {
    WordFitsRegister(initial);
  }

  lemma ChecksumDetectsBurst(initial: word, m: seq<octet>, m': seq<octet>, k: nat)
    requires BurstApart(m, m', k)
    ensures Checksum(initial, m) != Checksum(initial, m')
  {
    hide Crc, BurstApart;
    BurstDetected(initial as bv16, m, m', k);
    RegisterAndBack(Crc(initial as bv16, m));
    RegisterAndBack(Crc(initial as bv16, m'));
  }

  lemma ChecksumDetectsOddInversions(initial: word, m: seq<octet>, m': seq<octet>)
    requires |m| == |m'| && Inversions(Bits(m), Bits(m')) % 2 == 1
    ensures Checksum(initial, m) != Checksum(initial, m')
  {
    hide Crc, Bits, Inversions;
    OddInversionsDetected(initial as bv16, m, m');
    RegisterAndBack(Crc(initial as bv16, m));
    RegisterAndBack(Crc(initial as bv16, m'));
  }

  lemma ChecksumDetectsOctet(initial: word, m: seq<octet>, i: nat, d: octet)
    requires i < |m| && d != m[i]
    ensures Checksum(initial, m) != Checksum(initial, m[i := d])
  {
    hide Crc;
    OctetDetected(initial as bv16, m, i, d);
    RegisterAndBack(Crc(initial as bv16, m));
    RegisterAndBack(Crc(initial as bv16, m[i := d]));
  }

  /** Update a checksum with a buffer of octets. */
  method UpdateCrc(initial: bv16, buffer: seq<octet>) returns (crc: bv16)
    ensures crc == Crc(initial, buffer)
  {
    hide CrcOctet;
    crc := initial;
    var src, n := 0, |buffer|;
    while n > 0
      invariant 0 <= src && 0 <= n && src + n == |buffer|
      invariant Crc(crc, buffer[src..]) == Crc(initial, buffer)
    {
      assert buffer[src..][1..] == buffer[src + 1..];
      crc := CrcOctet(crc, Byte(buffer[src]));
      src := src + 1;
      n := n - 1;
    }
  }

  /** The octets that 16-bit words occupy in the memory of a host of either byte order. */
  function MemoryImage(words: seq<word>, bigEndianHost: bool): (image: seq<octet>)
    ensures |image| == 2 * |words|
  {
    if words == [] then []
    else
      var low, high := (words[0] % 256) as octet, (words[0] / 256) as octet;
      (if bigEndianHost then [high, low] else [low, high]) + MemoryImage(words[1..], bigEndianHost)
  }

  /** Update a checksum with a buffer of 16-bit words: the same as over their memory image. */
  method UpdateCrcWords(initial: bv16, buffer: seq<word>, bigEndianHost: bool) returns (crc: bv16)
    ensures crc == Crc(initial, MemoryImage(buffer, bigEndianHost))
  {
    hide CrcOctet;
    crc := initial;
    var i, n := 0, |buffer|;
    while n > 0
      invariant 0 <= i && 0 <= n && i + n == |buffer|
      invariant Crc(crc, MemoryImage(buffer[i..], bigEndianHost)) == Crc(initial, MemoryImage(buffer, bigEndianHost))
    {
      var low, high := (buffer[i] % 256) as octet, (buffer[i] / 256) as octet;
      var first, second := if bigEndianHost then high else low, if bigEndianHost then low else high;
      assert buffer[i..][1..] == buffer[i + 1..];
      CrcConcat(crc, [first, second], MemoryImage(buffer[i + 1..], bigEndianHost));
      PairOfOctets(crc, first, second);
      crc := CrcOctet(crc, Byte(first));
      crc := CrcOctet(crc, Byte(second));
      i := i + 1;
      n := n - 1;
    }
  }

  lemma PairOfOctets(crc: bv16, a: octet, b: octet)
    ensures Crc(crc, [a, b]) == CrcOctet(CrcOctet(crc, Byte(a)), Byte(b))
  {
    hide CrcOctet;
    assert [a, b][1..] == [b];
    assert Crc(CrcOctet(crc, Byte(a)), [b]) == CrcOctet(CrcOctet(crc, Byte(a)), Byte(b));
  }
}
