/**
 The table-driven CRC of crc16.cpp. The reference it is proved against is
 bit-serial division by x^16 + x^12 + x^5 + 1 with nothing reflected and a zero
 start value, the algorithm called CRC-16/XMODEM.
 */
module PolynomialDivision {
  /** One step of the division: shift, and subtract the polynomial as often as a bit is carried out. */
  function DivideBit(crc: bv16): bv16 {
    (crc << 1) ^ (0x1021 * (crc >> 15))
  }

  function DivideBits(crc: bv16, n: nat): bv16
    decreases n
  {
    if n == 0 then crc else DivideBits(DivideBit(crc), n - 1)
  }

  function DivideByte(crc: bv16): bv16 {
    DivideBits(crc, 8)
  }

  function Xor(x: bv16, y: bv16): bv16 {
    x ^ y
  }

  lemma BitLinear(x: bv16, y: bv16)
    ensures DivideBit(x ^ y) == DivideBit(x) ^ DivideBit(y)
  {}

  lemma XorIs(x: bv16, y: bv16)
    ensures Xor(x, y) == x ^ y
  {}

  lemma BitHomomorphic(x: bv16, y: bv16)
    ensures DivideBit(Xor(x, y)) == Xor(DivideBit(x), DivideBit(y))
  {
    hide *;
    XorIs(x, y);
    XorIs(DivideBit(x), DivideBit(y));
    BitLinear(x, y);
  }

  function Iterate<T>(f: T -> T, x: T, n: nat): T
    decreases n
  {
    if n == 0 then x else Iterate(f, f(x), n - 1)
  }

  lemma {:induction false} IterateHomomorphic<T(!new)>(f: T -> T, op: (T, T) -> T, x: T, y: T, n: nat)
    requires forall a, b :: f(op(a, b)) == op(f(a), f(b))
    ensures Iterate(f, op(x, y), n) == op(Iterate(f, x, n), Iterate(f, y, n))
    decreases n
  {
    if n > 0 {
      IterateHomomorphic(f, op, f(x), f(y), n - 1);
    }
  }

  lemma {:induction false} BitsAreIterated(x: bv16, n: nat)
    ensures DivideBits(x, n) == Iterate(DivideBit, x, n)
    decreases n
  {
    if n > 0 {
      BitsAreIterated(DivideBit(x), n - 1);
    }
  }

  lemma BitsHomomorphic(x: bv16, y: bv16, n: nat)
    ensures DivideBits(Xor(x, y), n) == Xor(DivideBits(x, n), DivideBits(y, n))
  {
    hide Xor;
    hide DivideBit;
    hide DivideBits;
    hide Iterate;
    forall a: bv16, b: bv16
      ensures DivideBit(Xor(a, b)) == Xor(DivideBit(a), DivideBit(b))
    {
      BitHomomorphic(a, b);
    }
    IterateHomomorphic(DivideBit, Xor, x, y, n);
    BitsAreIterated(x, n);
    BitsAreIterated(y, n);
    BitsAreIterated(Xor(x, y), n);
  }

  /** Division is linear over exclusive or. */
  lemma BitsLinear(x: bv16, y: bv16, n: nat)
    ensures DivideBits(x ^ y, n) == DivideBits(x, n) ^ DivideBits(y, n)
  {
    hide DivideBit;
    hide DivideBits;
    BitsHomomorphic(x, y, n);
  }

  /** The low byte has no carry to offer: dividing it out only shifts it up. */
  lemma LowByteShifts(crc: bv16)
    ensures DivideByte(crc & 0x00FF) == crc << 8
  {
    assert DivideBit(crc & 0x00FF) == (crc & 0x00FF) << 1;
    assert DivideBit((crc & 0x00FF) << 1) == (crc & 0x00FF) << 2;
    assert DivideBit((crc & 0x00FF) << 2) == (crc & 0x00FF) << 3;
    assert DivideBit((crc & 0x00FF) << 3) == (crc & 0x00FF) << 4;
    assert DivideBit((crc & 0x00FF) << 4) == (crc & 0x00FF) << 5;
    assert DivideBit((crc & 0x00FF) << 5) == (crc & 0x00FF) << 6;
    assert DivideBit((crc & 0x00FF) << 6) == (crc & 0x00FF) << 7;
    assert DivideBit((crc & 0x00FF) << 7) == (crc & 0x00FF) << 8;
  }

  lemma SplitRegister(crc: bv16, b: bv16)
    ensures ((crc >> 8) ^ b) & 0x00FF < 0x100
    ensures crc ^ (b << 8) == (crc & 0x00FF) ^ ((((crc >> 8) ^ b) & 0x00FF) << 8)
  {}
}

module Crc16 {
  import opened Bytes
  import opened PolynomialDivision

  const ROW_0: seq<bv16> := [
    0x0000, 0x1021, 0x2042, 0x3063, 0x4084, 0x50a5, 0x60c6, 0x70e7,
    0x8108, 0x9129, 0xa14a, 0xb16b, 0xc18c, 0xd1ad, 0xe1ce, 0xf1ef
  ]
  const ROW_1: seq<bv16> := [
    0x1231, 0x0210, 0x3273, 0x2252, 0x52b5, 0x4294, 0x72f7, 0x62d6,
    0x9339, 0x8318, 0xb37b, 0xa35a, 0xd3bd, 0xc39c, 0xf3ff, 0xe3de
  ]
  const ROW_2: seq<bv16> := [
    0x2462, 0x3443, 0x0420, 0x1401, 0x64e6, 0x74c7, 0x44a4, 0x5485,
    0xa56a, 0xb54b, 0x8528, 0x9509, 0xe5ee, 0xf5cf, 0xc5ac, 0xd58d
  ]
  const ROW_3: seq<bv16> := [
    0x3653, 0x2672, 0x1611, 0x0630, 0x76d7, 0x66f6, 0x5695, 0x46b4,
    0xb75b, 0xa77a, 0x9719, 0x8738, 0xf7df, 0xe7fe, 0xd79d, 0xc7bc
  ]
  const ROW_4: seq<bv16> := [
    0x48c4, 0x58e5, 0x6886, 0x78a7, 0x0840, 0x1861, 0x2802, 0x3823,
    0xc9cc, 0xd9ed, 0xe98e, 0xf9af, 0x8948, 0x9969, 0xa90a, 0xb92b
  ]
  const ROW_5: seq<bv16> := [
    0x5af5, 0x4ad4, 0x7ab7, 0x6a96, 0x1a71, 0x0a50, 0x3a33, 0x2a12,
    0xdbfd, 0xcbdc, 0xfbbf, 0xeb9e, 0x9b79, 0x8b58, 0xbb3b, 0xab1a
  ]
  const ROW_6: seq<bv16> := [
    0x6ca6, 0x7c87, 0x4ce4, 0x5cc5, 0x2c22, 0x3c03, 0x0c60, 0x1c41,
    0xedae, 0xfd8f, 0xcdec, 0xddcd, 0xad2a, 0xbd0b, 0x8d68, 0x9d49
  ]
  const ROW_7: seq<bv16> := [
    0x7e97, 0x6eb6, 0x5ed5, 0x4ef4, 0x3e13, 0x2e32, 0x1e51, 0x0e70,
    0xff9f, 0xefbe, 0xdfdd, 0xcffc, 0xbf1b, 0xaf3a, 0x9f59, 0x8f78
  ]
  const ROW_8: seq<bv16> := [
    0x9188, 0x81a9, 0xb1ca, 0xa1eb, 0xd10c, 0xc12d, 0xf14e, 0xe16f,
    0x1080, 0x00a1, 0x30c2, 0x20e3, 0x5004, 0x4025, 0x7046, 0x6067
  ]
  const ROW_9: seq<bv16> := [
    0x83b9, 0x9398, 0xa3fb, 0xb3da, 0xc33d, 0xd31c, 0xe37f, 0xf35e,
    0x02b1, 0x1290, 0x22f3, 0x32d2, 0x4235, 0x5214, 0x6277, 0x7256
  ]
  const ROW_A: seq<bv16> := [
    0xb5ea, 0xa5cb, 0x95a8, 0x8589, 0xf56e, 0xe54f, 0xd52c, 0xc50d,
    0x34e2, 0x24c3, 0x14a0, 0x0481, 0x7466, 0x6447, 0x5424, 0x4405
  ]
  const ROW_B: seq<bv16> := [
    0xa7db, 0xb7fa, 0x8799, 0x97b8, 0xe75f, 0xf77e, 0xc71d, 0xd73c,
    0x26d3, 0x36f2, 0x0691, 0x16b0, 0x6657, 0x7676, 0x4615, 0x5634
  ]
  const ROW_C: seq<bv16> := [
    0xd94c, 0xc96d, 0xf90e, 0xe92f, 0x99c8, 0x89e9, 0xb98a, 0xa9ab,
    0x5844, 0x4865, 0x7806, 0x6827, 0x18c0, 0x08e1, 0x3882, 0x28a3
  ]
  const ROW_D: seq<bv16> := [
    0xcb7d, 0xdb5c, 0xeb3f, 0xfb1e, 0x8bf9, 0x9bd8, 0xabbb, 0xbb9a,
    0x4a75, 0x5a54, 0x6a37, 0x7a16, 0x0af1, 0x1ad0, 0x2ab3, 0x3a92
  ]
  const ROW_E: seq<bv16> := [
    0xfd2e, 0xed0f, 0xdd6c, 0xcd4d, 0xbdaa, 0xad8b, 0x9de8, 0x8dc9,
    0x7c26, 0x6c07, 0x5c64, 0x4c45, 0x3ca2, 0x2c83, 0x1ce0, 0x0cc1
  ]
  const ROW_F: seq<bv16> := [
    0xef1f, 0xff3e, 0xcf5d, 0xdf7c, 0xaf9b, 0xbfba, 0x8fd9, 0x9ff8,
    0x6e17, 0x7e36, 0x4e55, 0x5e74, 0x2e93, 0x3eb2, 0x0ed1, 0x1ef0
  ]

  /** The sixteen entries that share the high half of the index. */
  function Row(i: bv16): (row: seq<bv16>)
    requires i < 0x100
    ensures |row| == 16
  {
    if i < 0x10 then ROW_0
    else if i < 0x20 then ROW_1
    else if i < 0x30 then ROW_2
    else if i < 0x40 then ROW_3
    else if i < 0x50 then ROW_4
    else if i < 0x60 then ROW_5
    else if i < 0x70 then ROW_6
    else if i < 0x80 then ROW_7
    else if i < 0x90 then ROW_8
    else if i < 0xA0 then ROW_9
    else if i < 0xB0 then ROW_A
    else if i < 0xC0 then ROW_B
    else if i < 0xD0 then ROW_C
    else if i < 0xE0 then ROW_D
    else if i < 0xF0 then ROW_E
    else ROW_F
  }

  function Low(i: bv16): (k: nat)
    ensures k < 16 && k as bv16 == i & 15
  {
    var l := i & 15;
    if l == 0 then 0 else if l == 1 then 1 else if l == 2 then 2 else if l == 3 then 3
    else if l == 4 then 4 else if l == 5 then 5 else if l == 6 then 6 else if l == 7 then 7
    else if l == 8 then 8 else if l == 9 then 9 else if l == 10 then 10 else if l == 11 then 11
    else if l == 12 then 12 else if l == 13 then 13 else if l == 14 then 14 else 15
  }

  /** Entry `i` of the 256-entry table, which is held here as sixteen rows. */
  function Table(i: bv16): bv16
    requires i < 0x100
  {
    Row(i)[Low(i)]
  }

  predicate RowOk(row: seq<bv16>, first: bv16) {
    |row| == 16 &&
    row[0] == DivideByte(first + 0x000) && row[1] == DivideByte(first + 0x100) && row[2] == DivideByte(first + 0x200) && row[3] == DivideByte(first + 0x300) &&
    row[4] == DivideByte(first + 0x400) && row[5] == DivideByte(first + 0x500) && row[6] == DivideByte(first + 0x600) && row[7] == DivideByte(first + 0x700) &&
    row[8] == DivideByte(first + 0x800) && row[9] == DivideByte(first + 0x900) && row[10] == DivideByte(first + 0xA00) && row[11] == DivideByte(first + 0xB00) &&
    row[12] == DivideByte(first + 0xC00) && row[13] == DivideByte(first + 0xD00) && row[14] == DivideByte(first + 0xE00) && row[15] == DivideByte(first + 0xF00)
  }

  /** The first row, bit by bit. */
  lemma FirstRow()
    ensures RowOk(ROW_0, 0x0000)
  {}

  /** Division being linear, every other row is its first entry plus the first row. */
  predicate Shifted(row: seq<bv16>, base: seq<bv16>) {
    |row| == |base| == 16 &&
    row[1] == Xor(row[0], base[1]) && row[2] == Xor(row[0], base[2]) && row[3] == Xor(row[0], base[3]) &&
    row[4] == Xor(row[0], base[4]) && row[5] == Xor(row[0], base[5]) && row[6] == Xor(row[0], base[6]) &&
    row[7] == Xor(row[0], base[7]) && row[8] == Xor(row[0], base[8]) && row[9] == Xor(row[0], base[9]) &&
    row[10] == Xor(row[0], base[10]) && row[11] == Xor(row[0], base[11]) && row[12] == Xor(row[0], base[12]) &&
    row[13] == Xor(row[0], base[13]) && row[14] == Xor(row[0], base[14]) && row[15] == Xor(row[0], base[15])
  }

  lemma NoOverlap(first: bv16, entry: bv16)
    requires first & 0x0F00 == 0 && entry & 0xF0FF == 0
    ensures first + entry == first ^ entry
  {}

  lemma Plus(first: bv16, entry: bv16)
    requires first & 0x0F00 == 0 && entry & 0xF0FF == 0
    ensures DivideByte(first + entry) == Xor(DivideByte(first), DivideByte(entry))
  {
    hide DivideBits;
    NoOverlap(first, entry);
    BitsLinear(first, entry, 8);
  }

  lemma RowFrom(base: seq<bv16>, row: seq<bv16>, first: bv16)
    requires first & 0x0F00 == 0 && RowOk(base, 0x0000) && Shifted(row, base) && row[0] == DivideByte(first)
    ensures RowOk(row, first)
  {
    hide DivideByte;
    hide Xor;
    Plus(first, 0x100);
    Plus(first, 0x200);
    Plus(first, 0x300);
    Plus(first, 0x400);
    Plus(first, 0x500);
    Plus(first, 0x600);
    Plus(first, 0x700);
    Plus(first, 0x800);
    Plus(first, 0x900);
    Plus(first, 0xA00);
    Plus(first, 0xB00);
    Plus(first, 0xC00);
    Plus(first, 0xD00);
    Plus(first, 0xE00);
    Plus(first, 0xF00);
  }

  lemma IndexSplits(i: bv16, first: bv16)
    requires i < 0x100 && (i << 8) & 0xF000 == first
    ensures i << 8 == first + ((i & 15) << 8)
  {}

  lemma RowEntryLow(row: seq<bv16>, i: bv16, first: bv16)
    requires RowOk(row, first) && i & 15 < 8
    ensures row[Low(i)] == DivideByte(first + ((i & 15) << 8))
  {
    hide DivideByte;
  }

  lemma RowEntryHigh(row: seq<bv16>, i: bv16, first: bv16)
    requires RowOk(row, first) && i & 15 >= 8
    ensures row[Low(i)] == DivideByte(first + ((i & 15) << 8))
  {
    hide DivideByte;
  }

  lemma RowEntry(row: seq<bv16>, i: bv16, first: bv16)
    requires RowOk(row, first)
    ensures row[Low(i)] == DivideByte(first + ((i & 15) << 8))
  {
    hide DivideByte;
    hide RowOk;
    hide Low;
    RowSized(row, first);
    if i & 15 < 8 {
      RowEntryLow(row, i, first);
    } else {
      RowEntryHigh(row, i, first);
    }
  }

  lemma RowIndex(row: seq<bv16>, i: bv16, first: bv16)
    requires i < 0x100 && (i << 8) & 0xF000 == first && RowOk(row, first)
    ensures row[Low(i)] == DivideByte(i << 8)
  {
    hide RowOk;
    hide DivideByte;
    hide Low;
    RowSized(row, first);
    IndexSplits(i, first);
    RowEntry(row, i, first);
  }

  lemma RowSized(row: seq<bv16>, first: bv16)
    requires RowOk(row, first)
    ensures |row| == 16
  {
    hide DivideByte;
  }

  lemma Row0(i: bv16)
    requires i < 0x10
    ensures Table(i) == DivideByte(i << 8)
  {
    FirstRow();
    RowIndex(ROW_0, i, 0x0000);
  }

  lemma Row1(i: bv16)
    requires 0x10 <= i < 0x20
    ensures Table(i) == DivideByte(i << 8)
  {
    assert ROW_1[0] == DivideByte(0x1000);
    hide DivideByte;
    assert Shifted(ROW_1, ROW_0);
    FirstRow();
    RowFrom(ROW_0, ROW_1, 0x1000);
    RowIndex(ROW_1, i, 0x1000);
  }

  lemma Row2(i: bv16)
    requires 0x20 <= i < 0x30
    ensures Table(i) == DivideByte(i << 8)
  {
    assert ROW_2[0] == DivideByte(0x2000);
    hide DivideByte;
    assert Shifted(ROW_2, ROW_0);
    FirstRow();
    RowFrom(ROW_0, ROW_2, 0x2000);
    RowIndex(ROW_2, i, 0x2000);
  }

  lemma Row3(i: bv16)
    requires 0x30 <= i < 0x40
    ensures Table(i) == DivideByte(i << 8)
  {
    assert ROW_3[0] == DivideByte(0x3000);
    hide DivideByte;
    assert Shifted(ROW_3, ROW_0);
    FirstRow();
    RowFrom(ROW_0, ROW_3, 0x3000);
    RowIndex(ROW_3, i, 0x3000);
  }

  lemma Row4(i: bv16)
    requires 0x40 <= i < 0x50
    ensures Table(i) == DivideByte(i << 8)
  {
    assert ROW_4[0] == DivideByte(0x4000);
    hide DivideByte;
    assert Shifted(ROW_4, ROW_0);
    FirstRow();
    RowFrom(ROW_0, ROW_4, 0x4000);
    RowIndex(ROW_4, i, 0x4000);
  }

  lemma Row5(i: bv16)
    requires 0x50 <= i < 0x60
    ensures Table(i) == DivideByte(i << 8)
  {
    assert ROW_5[0] == DivideByte(0x5000);
    hide DivideByte;
    assert Shifted(ROW_5, ROW_0);
    FirstRow();
    RowFrom(ROW_0, ROW_5, 0x5000);
    RowIndex(ROW_5, i, 0x5000);
  }

  lemma Row6(i: bv16)
    requires 0x60 <= i < 0x70
    ensures Table(i) == DivideByte(i << 8)
  {
    assert ROW_6[0] == DivideByte(0x6000);
    hide DivideByte;
    assert Shifted(ROW_6, ROW_0);
    FirstRow();
    RowFrom(ROW_0, ROW_6, 0x6000);
    RowIndex(ROW_6, i, 0x6000);
  }

  lemma Row7(i: bv16)
    requires 0x70 <= i < 0x80
    ensures Table(i) == DivideByte(i << 8)
  {
    assert ROW_7[0] == DivideByte(0x7000);
    hide DivideByte;
    assert Shifted(ROW_7, ROW_0);
    FirstRow();
    RowFrom(ROW_0, ROW_7, 0x7000);
    RowIndex(ROW_7, i, 0x7000);
  }

  lemma Row8(i: bv16)
    requires 0x80 <= i < 0x90
    ensures Table(i) == DivideByte(i << 8)
  {
    assert ROW_8[0] == DivideByte(0x8000);
    hide DivideByte;
    assert Shifted(ROW_8, ROW_0);
    FirstRow();
    RowFrom(ROW_0, ROW_8, 0x8000);
    RowIndex(ROW_8, i, 0x8000);
  }

  lemma Row9(i: bv16)
    requires 0x90 <= i < 0xA0
    ensures Table(i) == DivideByte(i << 8)
  {
    assert ROW_9[0] == DivideByte(0x9000);
    hide DivideByte;
    assert Shifted(ROW_9, ROW_0);
    FirstRow();
    RowFrom(ROW_0, ROW_9, 0x9000);
    RowIndex(ROW_9, i, 0x9000);
  }

  lemma RowA(i: bv16)
    requires 0xA0 <= i < 0xB0
    ensures Table(i) == DivideByte(i << 8)
  {
    assert ROW_A[0] == DivideByte(0xA000);
    hide DivideByte;
    assert Shifted(ROW_A, ROW_0);
    FirstRow();
    RowFrom(ROW_0, ROW_A, 0xA000);
    RowIndex(ROW_A, i, 0xA000);
  }

  lemma RowB(i: bv16)
    requires 0xB0 <= i < 0xC0
    ensures Table(i) == DivideByte(i << 8)
  {
    assert ROW_B[0] == DivideByte(0xB000);
    hide DivideByte;
    assert Shifted(ROW_B, ROW_0);
    FirstRow();
    RowFrom(ROW_0, ROW_B, 0xB000);
    RowIndex(ROW_B, i, 0xB000);
  }

  lemma RowC(i: bv16)
    requires 0xC0 <= i < 0xD0
    ensures Table(i) == DivideByte(i << 8)
  {
    assert ROW_C[0] == DivideByte(0xC000);
    hide DivideByte;
    assert Shifted(ROW_C, ROW_0);
    FirstRow();
    RowFrom(ROW_0, ROW_C, 0xC000);
    RowIndex(ROW_C, i, 0xC000);
  }

  lemma RowD(i: bv16)
    requires 0xD0 <= i < 0xE0
    ensures Table(i) == DivideByte(i << 8)
  {
    assert ROW_D[0] == DivideByte(0xD000);
    hide DivideByte;
    assert Shifted(ROW_D, ROW_0);
    FirstRow();
    RowFrom(ROW_0, ROW_D, 0xD000);
    RowIndex(ROW_D, i, 0xD000);
  }

  lemma RowE(i: bv16)
    requires 0xE0 <= i < 0xF0
    ensures Table(i) == DivideByte(i << 8)
  {
    assert ROW_E[0] == DivideByte(0xE000);
    hide DivideByte;
    assert Shifted(ROW_E, ROW_0);
    FirstRow();
    RowFrom(ROW_0, ROW_E, 0xE000);
    RowIndex(ROW_E, i, 0xE000);
  }

  lemma RowF(i: bv16)
    requires 0xF0 <= i < 0x100
    ensures Table(i) == DivideByte(i << 8)
  {
    assert ROW_F[0] == DivideByte(0xF000);
    hide DivideByte;
    assert Shifted(ROW_F, ROW_0);
    FirstRow();
    RowFrom(ROW_0, ROW_F, 0xF000);
    RowIndex(ROW_F, i, 0xF000);
  }

  lemma TableIsRemainder(i: bv16)
    requires i < 0x100
    ensures Table(i) == DivideByte(i << 8)
  {
    hide Table;
    hide DivideByte;
    if i < 0x10 { Row0(i); }
    else if i < 0x20 { Row1(i); }
    else if i < 0x30 { Row2(i); }
    else if i < 0x40 { Row3(i); }
    else if i < 0x50 { Row4(i); }
    else if i < 0x60 { Row5(i); }
    else if i < 0x70 { Row6(i); }
    else if i < 0x80 { Row7(i); }
    else if i < 0x90 { Row8(i); }
    else if i < 0xA0 { Row9(i); }
    else if i < 0xB0 { RowA(i); }
    else if i < 0xC0 { RowB(i); }
    else if i < 0xD0 { RowC(i); }
    else if i < 0xE0 { RowD(i); }
    else if i < 0xF0 { RowE(i); }
    else if i < 0x100 { RowF(i); }
  }

  /** Bit-serial CRC: each byte enters at the top and is divided out bit by bit. */
  function SerialFrom(crc: bv16, s: seq<byte>): bv16
    decreases |s|
  {
    if s == [] then crc else SerialFrom(Enter(crc, s[0]), s[1..])
  }

  function SerialCrc(s: seq<byte>): bv16 {
    SerialFrom(0, s)
  }

  /** So the table step, which looks up the high byte and shifts the low one, is the division. */
  lemma TableStep(crc: bv16, b: bv16)
    ensures ((crc >> 8) ^ b) & 0x00FF < 0x100
    ensures (crc << 8) ^ Table(((crc >> 8) ^ b) & 0x00FF) == DivideByte(crc ^ (b << 8))
  {
    SplitRegister(crc, b);
    var high := ((crc >> 8) ^ b) & 0x00FF;
    TableIsRemainder(high);
    LowByteShifts(crc);
    BitsLinear(crc & 0x00FF, high << 8, 8);
  }

  function Enter(crc: bv16, c: byte): bv16 {
    DivideByte(crc ^ (c as bv16 << 8))
  }

  lemma {:induction false} SerialSnoc(crc: bv16, s: seq<byte>, c: byte)
    ensures SerialFrom(crc, s + [c]) == Enter(SerialFrom(crc, s), c)
    decreases |s|
  {
    if s == [] {
      assert SerialFrom(Enter(crc, c), [c][1..]) == Enter(crc, c);
    } else {
      assert (s + [c])[1..] == s[1..] + [c];
      SerialSnoc(Enter(crc, s[0]), s[1..], c);
    }
  }

  method Crc(buf: seq<byte>) returns (crc: bv16)
    ensures crc == SerialCrc(buf)
  {
    crc := 0;
    var counter := 0;
    while counter < |buf|
      invariant 0 <= counter <= |buf|
      invariant crc == SerialCrc(buf[..counter])
    {
      var b := buf[counter] as bv16;
      SerialSnoc(0, buf[..counter], buf[counter]);
      assert buf[..counter + 1] == buf[..counter] + [buf[counter]];
      TableStep(crc, b);
      crc := (crc << 8) ^ Table(((crc >> 8) ^ b) & 0x00FF);
      counter := counter + 1;
    }
    assert buf[..counter] == buf;
  }
}
