/**
 The two 256-entry tables of crc/crc16.cpp, printed sixteen entries a row, and the proof
 that every entry is what eight shifts of the register make of its own index.
 */
module CrcTables {
  import opened Bytes
  import opened CrcTheory

  const CRC_HI_0: seq<byte> :=
    [0x00, 0xC1, 0x81, 0x40, 0x01, 0xC0, 0x80, 0x41, 0x01, 0xC0, 0x80, 0x41, 0x00, 0xC1, 0x81, 0x40]
  const CRC_HI_1: seq<byte> :=
    [0x01, 0xC0, 0x80, 0x41, 0x00, 0xC1, 0x81, 0x40, 0x00, 0xC1, 0x81, 0x40, 0x01, 0xC0, 0x80, 0x41]
  const CRC_HI_2: seq<byte> :=
    [0x01, 0xC0, 0x80, 0x41, 0x00, 0xC1, 0x81, 0x40, 0x00, 0xC1, 0x81, 0x40, 0x01, 0xC0, 0x80, 0x41]
  const CRC_HI_3: seq<byte> :=
    [0x00, 0xC1, 0x81, 0x40, 0x01, 0xC0, 0x80, 0x41, 0x01, 0xC0, 0x80, 0x41, 0x00, 0xC1, 0x81, 0x40]
  const CRC_HI_4: seq<byte> :=
    [0x01, 0xC0, 0x80, 0x41, 0x00, 0xC1, 0x81, 0x40, 0x00, 0xC1, 0x81, 0x40, 0x01, 0xC0, 0x80, 0x41]
  const CRC_HI_5: seq<byte> :=
    [0x00, 0xC1, 0x81, 0x40, 0x01, 0xC0, 0x80, 0x41, 0x01, 0xC0, 0x80, 0x41, 0x00, 0xC1, 0x81, 0x40]
  const CRC_HI_6: seq<byte> :=
    [0x00, 0xC1, 0x81, 0x40, 0x01, 0xC0, 0x80, 0x41, 0x01, 0xC0, 0x80, 0x41, 0x00, 0xC1, 0x81, 0x40]
  const CRC_HI_7: seq<byte> :=
    [0x01, 0xC0, 0x80, 0x41, 0x00, 0xC1, 0x81, 0x40, 0x00, 0xC1, 0x81, 0x40, 0x01, 0xC0, 0x80, 0x41]
  const CRC_HI_8: seq<byte> :=
    [0x01, 0xC0, 0x80, 0x41, 0x00, 0xC1, 0x81, 0x40, 0x00, 0xC1, 0x81, 0x40, 0x01, 0xC0, 0x80, 0x41]
  const CRC_HI_9: seq<byte> :=
    [0x00, 0xC1, 0x81, 0x40, 0x01, 0xC0, 0x80, 0x41, 0x01, 0xC0, 0x80, 0x41, 0x00, 0xC1, 0x81, 0x40]
  const CRC_HI_A: seq<byte> :=
    [0x00, 0xC1, 0x81, 0x40, 0x01, 0xC0, 0x80, 0x41, 0x01, 0xC0, 0x80, 0x41, 0x00, 0xC1, 0x81, 0x40]
  const CRC_HI_B: seq<byte> :=
    [0x01, 0xC0, 0x80, 0x41, 0x00, 0xC1, 0x81, 0x40, 0x00, 0xC1, 0x81, 0x40, 0x01, 0xC0, 0x80, 0x41]
  const CRC_HI_C: seq<byte> :=
    [0x00, 0xC1, 0x81, 0x40, 0x01, 0xC0, 0x80, 0x41, 0x01, 0xC0, 0x80, 0x41, 0x00, 0xC1, 0x81, 0x40]
  const CRC_HI_D: seq<byte> :=
    [0x01, 0xC0, 0x80, 0x41, 0x00, 0xC1, 0x81, 0x40, 0x00, 0xC1, 0x81, 0x40, 0x01, 0xC0, 0x80, 0x41]
  const CRC_HI_E: seq<byte> :=
    [0x01, 0xC0, 0x80, 0x41, 0x00, 0xC1, 0x81, 0x40, 0x00, 0xC1, 0x81, 0x40, 0x01, 0xC0, 0x80, 0x41]
  const CRC_HI_F: seq<byte> :=
    [0x00, 0xC1, 0x81, 0x40, 0x01, 0xC0, 0x80, 0x41, 0x01, 0xC0, 0x80, 0x41, 0x00, 0xC1, 0x81, 0x40]

  /** The table of high bytes. */
  function AuchCRCHi(row: nat): seq<byte>
    requires row < 16
  {
    match row
    case 0x0 => CRC_HI_0
    case 0x1 => CRC_HI_1
    case 0x2 => CRC_HI_2
    case 0x3 => CRC_HI_3
    case 0x4 => CRC_HI_4
    case 0x5 => CRC_HI_5
    case 0x6 => CRC_HI_6
    case 0x7 => CRC_HI_7
    case 0x8 => CRC_HI_8
    case 0x9 => CRC_HI_9
    case 0xA => CRC_HI_A
    case 0xB => CRC_HI_B
    case 0xC => CRC_HI_C
    case 0xD => CRC_HI_D
    case 0xE => CRC_HI_E
    case 0xF => CRC_HI_F
  }

  const CRC_LO_0: seq<byte> :=
    [0x00, 0xC0, 0xC1, 0x01, 0xC3, 0x03, 0x02, 0xC2, 0xC6, 0x06, 0x07, 0xC7, 0x05, 0xC5, 0xC4, 0x04]
  const CRC_LO_1: seq<byte> :=
    [0xCC, 0x0C, 0x0D, 0xCD, 0x0F, 0xCF, 0xCE, 0x0E, 0x0A, 0xCA, 0xCB, 0x0B, 0xC9, 0x09, 0x08, 0xC8]
  const CRC_LO_2: seq<byte> :=
    [0xD8, 0x18, 0x19, 0xD9, 0x1B, 0xDB, 0xDA, 0x1A, 0x1E, 0xDE, 0xDF, 0x1F, 0xDD, 0x1D, 0x1C, 0xDC]
  const CRC_LO_3: seq<byte> :=
    [0x14, 0xD4, 0xD5, 0x15, 0xD7, 0x17, 0x16, 0xD6, 0xD2, 0x12, 0x13, 0xD3, 0x11, 0xD1, 0xD0, 0x10]
  const CRC_LO_4: seq<byte> :=
    [0xF0, 0x30, 0x31, 0xF1, 0x33, 0xF3, 0xF2, 0x32, 0x36, 0xF6, 0xF7, 0x37, 0xF5, 0x35, 0x34, 0xF4]
  const CRC_LO_5: seq<byte> :=
    [0x3C, 0xFC, 0xFD, 0x3D, 0xFF, 0x3F, 0x3E, 0xFE, 0xFA, 0x3A, 0x3B, 0xFB, 0x39, 0xF9, 0xF8, 0x38]
  const CRC_LO_6: seq<byte> :=
    [0x28, 0xE8, 0xE9, 0x29, 0xEB, 0x2B, 0x2A, 0xEA, 0xEE, 0x2E, 0x2F, 0xEF, 0x2D, 0xED, 0xEC, 0x2C]
  const CRC_LO_7: seq<byte> :=
    [0xE4, 0x24, 0x25, 0xE5, 0x27, 0xE7, 0xE6, 0x26, 0x22, 0xE2, 0xE3, 0x23, 0xE1, 0x21, 0x20, 0xE0]
  const CRC_LO_8: seq<byte> :=
    [0xA0, 0x60, 0x61, 0xA1, 0x63, 0xA3, 0xA2, 0x62, 0x66, 0xA6, 0xA7, 0x67, 0xA5, 0x65, 0x64, 0xA4]
  const CRC_LO_9: seq<byte> :=
    [0x6C, 0xAC, 0xAD, 0x6D, 0xAF, 0x6F, 0x6E, 0xAE, 0xAA, 0x6A, 0x6B, 0xAB, 0x69, 0xA9, 0xA8, 0x68]
  const CRC_LO_A: seq<byte> :=
    [0x78, 0xB8, 0xB9, 0x79, 0xBB, 0x7B, 0x7A, 0xBA, 0xBE, 0x7E, 0x7F, 0xBF, 0x7D, 0xBD, 0xBC, 0x7C]
  const CRC_LO_B: seq<byte> :=
    [0xB4, 0x74, 0x75, 0xB5, 0x77, 0xB7, 0xB6, 0x76, 0x72, 0xB2, 0xB3, 0x73, 0xB1, 0x71, 0x70, 0xB0]
  const CRC_LO_C: seq<byte> :=
    [0x50, 0x90, 0x91, 0x51, 0x93, 0x53, 0x52, 0x92, 0x96, 0x56, 0x57, 0x97, 0x55, 0x95, 0x94, 0x54]
  const CRC_LO_D: seq<byte> :=
    [0x9C, 0x5C, 0x5D, 0x9D, 0x5F, 0x9F, 0x9E, 0x5E, 0x5A, 0x9A, 0x9B, 0x5B, 0x99, 0x59, 0x58, 0x98]
  const CRC_LO_E: seq<byte> :=
    [0x88, 0x48, 0x49, 0x89, 0x4B, 0x8B, 0x8A, 0x4A, 0x4E, 0x8E, 0x8F, 0x4F, 0x8D, 0x4D, 0x4C, 0x8C]
  const CRC_LO_F: seq<byte> :=
    [0x44, 0x84, 0x85, 0x45, 0x87, 0x47, 0x46, 0x86, 0x82, 0x42, 0x43, 0x83, 0x41, 0x81, 0x80, 0x40]

  /** The table of low bytes. */
  function AuchCRCLo(row: nat): seq<byte>
    requires row < 16
  {
    match row
    case 0x0 => CRC_LO_0
    case 0x1 => CRC_LO_1
    case 0x2 => CRC_LO_2
    case 0x3 => CRC_LO_3
    case 0x4 => CRC_LO_4
    case 0x5 => CRC_LO_5
    case 0x6 => CRC_LO_6
    case 0x7 => CRC_LO_7
    case 0x8 => CRC_LO_8
    case 0x9 => CRC_LO_9
    case 0xA => CRC_LO_A
    case 0xB => CRC_LO_B
    case 0xC => CRC_LO_C
    case 0xD => CRC_LO_D
    case 0xE => CRC_LO_E
    case 0xF => CRC_LO_F
  }
  // ---------------------------------------------------------------- eight shifts in closed form

  /** One shift, written out. */
  lemma ShiftWritten(r: Bits)
    requires |r| == 16
    ensures Shift(r) == [r[1] != r[0], r[2], r[3], r[4], r[5], r[6], r[7], r[8],
                         r[9], r[10], r[11], r[12], r[13], r[14] != r[0], r[15], r[0]]
  {
    var s := Shift(r);
    forall i | 0 <= i < 16
      ensures s[i] == ((i < 15 && r[i + 1]) != (r[0] && InPoly(i)))
    {
      ShiftAt(r, i);
    }
    Listed(s);
  }

  /** Sixteen bits, one by one. */
  lemma Listed(s: Bits)
    requires |s| == 16
    ensures s == [s[0], s[1], s[2], s[3], s[4], s[5], s[6], s[7],
                  s[8], s[9], s[10], s[11], s[12], s[13], s[14], s[15]]
  {
  }

  lemma TwoShifts(r: Bits)
    requires |r| == 16
    ensures Shifts(r, 2) ==
            var a, b := r[0], r[1] != r[0];
            [r[2] != b, r[3], r[4], r[5], r[6], r[7], r[8], r[9],
             r[10], r[11], r[12], r[13], r[14] != a, r[15] != b, a, b]
  {
    ShiftWritten(r);
    ShiftWritten(Shift(r));
    assert Shifts(r, 2) == Shifts(Shift(r), 1) == Shift(Shift(r));
  }

  lemma {:induction false} ShiftsConcat(r: Bits, m: nat, n: nat)
    requires |r| == 16
    ensures Shifts(r, m + n) == Shifts(Shifts(r, m), n)
    decreases m
  {
    if m == 0 {
    } else {
      ShiftsConcat(Shift(r), m - 1, n);
    }
  }

  lemma FourShifts(r: Bits)
    requires |r| == 16
    ensures Shifts(r, 4) ==
            var a, b := r[0], r[1] != r[0];
            var c := r[2] != b;
            var d := r[3] != c;
            [r[4] != d, r[5], r[6], r[7], r[8], r[9], r[10], r[11],
             r[12], r[13], r[14] != a, r[15] != b, a != c, b != d, c, d]
  {
    TwoShifts(r);
    TwoShifts(Shifts(r, 2));
    ShiftsConcat(r, 2, 2);
  }

  /** What eight shifts make of a byte, by the running sums of its bits. */
  function Folded(x: Bits): Bits
    requires |x| == 8
  {
    var a := x[0];
    var b := x[1] != a;
    var c := x[2] != b;
    var d := x[3] != c;
    var e := x[4] != d;
    var f := x[5] != e;
    var g := x[6] != f;
    var p := x[7] != g;
    [p, false, false, false, false, false, a, b, a != c, b != d, c != e, d != f, e != g, f != p, g, p]
  }

  lemma EightShifts(x: Bits)
    requires |x| == 8
    ensures Shifts(x + ZERO8, BYTE) == Folded(x)
  {
    HalfFolded(x);
    FourShifts(Shifts(x + ZERO8, 4));
    ShiftsConcat(x + ZERO8, 4, 4);
  }

  lemma HalfFolded(x: Bits)
    requires |x| == 8
    ensures Shifts(x + ZERO8, 4) ==
            var a, b := x[0], x[1] != x[0];
            var c := x[2] != b;
            var d := x[3] != c;
            [x[4] != d, x[5], x[6], x[7], false, false, false, false,
             false, false, a, b, a != c, b != d, c, d]
  {
    FourShifts(x + ZERO8);
  }

  // ---------------------------------------------------------------- the tables, entry by entry

  function If(b: bool, n: int): int {
    if b then n else 0
  }

  /** The two table bytes of an index, from the bits of the index. */
  ghost predicate IsEntry(x0: bool, x1: bool, x2: bool, x3: bool, x4: bool, x5: bool, x6: bool, x7: bool,
                          hi: byte, lo: byte)
  {
    var p := (((((((x0 != x1) != x2) != x3) != x4) != x5) != x6) != x7);
    && hi == If(p, 1) + If(x0, 64) + If(x0 != x1, 128)
    && lo == If(x1 != x2, 1) + If(x2 != x3, 2) + If(x3 != x4, 4) + If(x4 != x5, 8)
             + If(x5 != x6, 16) + If(x6 != x7, 32) + If(x7 != p, 64) + If(p, 128)
  }

  /** One row of the tables, whose indices share their upper four bits. */
  ghost predicate IsRow(x4: bool, x5: bool, x6: bool, x7: bool, hi: seq<byte>, lo: seq<byte>) {
    && |hi| == |lo| == 16
    && IsEntry(false, false, false, false, x4, x5, x6, x7, hi[0], lo[0])
    && IsEntry(true, false, false, false, x4, x5, x6, x7, hi[1], lo[1])
    && IsEntry(false, true, false, false, x4, x5, x6, x7, hi[2], lo[2])
    && IsEntry(true, true, false, false, x4, x5, x6, x7, hi[3], lo[3])
    && IsEntry(false, false, true, false, x4, x5, x6, x7, hi[4], lo[4])
    && IsEntry(true, false, true, false, x4, x5, x6, x7, hi[5], lo[5])
    && IsEntry(false, true, true, false, x4, x5, x6, x7, hi[6], lo[6])
    && IsEntry(true, true, true, false, x4, x5, x6, x7, hi[7], lo[7])
    && IsEntry(false, false, false, true, x4, x5, x6, x7, hi[8], lo[8])
    && IsEntry(true, false, false, true, x4, x5, x6, x7, hi[9], lo[9])
    && IsEntry(false, true, false, true, x4, x5, x6, x7, hi[10], lo[10])
    && IsEntry(true, true, false, true, x4, x5, x6, x7, hi[11], lo[11])
    && IsEntry(false, false, true, true, x4, x5, x6, x7, hi[12], lo[12])
    && IsEntry(true, false, true, true, x4, x5, x6, x7, hi[13], lo[13])
    && IsEntry(false, true, true, true, x4, x5, x6, x7, hi[14], lo[14])
    && IsEntry(true, true, true, true, x4, x5, x6, x7, hi[15], lo[15])
  }

  lemma Row0()
    ensures IsRow(false, false, false, false, CRC_HI_0, CRC_LO_0)
  {
  }

  lemma Row1()
    ensures IsRow(true, false, false, false, CRC_HI_1, CRC_LO_1)
  {
  }

  lemma Row2()
    ensures IsRow(false, true, false, false, CRC_HI_2, CRC_LO_2)
  {
  }

  lemma Row3()
    ensures IsRow(true, true, false, false, CRC_HI_3, CRC_LO_3)
  {
  }

  lemma Row4()
    ensures IsRow(false, false, true, false, CRC_HI_4, CRC_LO_4)
  {
  }

  lemma Row5()
    ensures IsRow(true, false, true, false, CRC_HI_5, CRC_LO_5)
  {
  }

  lemma Row6()
    ensures IsRow(false, true, true, false, CRC_HI_6, CRC_LO_6)
  {
  }

  lemma Row7()
    ensures IsRow(true, true, true, false, CRC_HI_7, CRC_LO_7)
  {
  }

  lemma Row8()
    ensures IsRow(false, false, false, true, CRC_HI_8, CRC_LO_8)
  {
  }

  lemma Row9()
    ensures IsRow(true, false, false, true, CRC_HI_9, CRC_LO_9)
  {
  }

  lemma RowA()
    ensures IsRow(false, true, false, true, CRC_HI_A, CRC_LO_A)
  {
  }

  lemma RowB()
    ensures IsRow(true, true, false, true, CRC_HI_B, CRC_LO_B)
  {
  }

  lemma RowC()
    ensures IsRow(false, false, true, true, CRC_HI_C, CRC_LO_C)
  {
  }

  lemma RowD()
    ensures IsRow(true, false, true, true, CRC_HI_D, CRC_LO_D)
  {
  }

  lemma RowE()
    ensures IsRow(false, true, true, true, CRC_HI_E, CRC_LO_E)
  {
  }

  lemma RowF()
    ensures IsRow(true, true, true, true, CRC_HI_F, CRC_LO_F)
  {
  }

  lemma RowAt(x: Bits, hi: seq<byte>, lo: seq<byte>, j: nat)
    requires |x| == 8 && IsRow(x[4], x[5], x[6], x[7], hi, lo)
    requires j == If(x[0], 1) + If(x[1], 2) + If(x[2], 4) + If(x[3], 8)
    ensures IsEntry(x[0], x[1], x[2], x[3], x[4], x[5], x[6], x[7], hi[j], lo[j])
  {
  }

  lemma Rows0(x4: bool, x5: bool, r: nat)
    requires r == 0 + If(x4, 1) + If(x5, 2)
    ensures IsRow(x4, x5, false, false, AuchCRCHi(r), AuchCRCLo(r))
  {
    match (x4, x5)
    case (false, false) => Row0();
    case (true, false) => Row1();
    case (false, true) => Row2();
    case (true, true) => Row3();
  }

  lemma Rows4(x4: bool, x5: bool, r: nat)
    requires r == 4 + If(x4, 1) + If(x5, 2)
    ensures IsRow(x4, x5, true, false, AuchCRCHi(r), AuchCRCLo(r))
  {
    match (x4, x5)
    case (false, false) => Row4();
    case (true, false) => Row5();
    case (false, true) => Row6();
    case (true, true) => Row7();
  }

  lemma Rows8(x4: bool, x5: bool, r: nat)
    requires r == 8 + If(x4, 1) + If(x5, 2)
    ensures IsRow(x4, x5, false, true, AuchCRCHi(r), AuchCRCLo(r))
  {
    match (x4, x5)
    case (false, false) => Row8();
    case (true, false) => Row9();
    case (false, true) => RowA();
    case (true, true) => RowB();
  }

  lemma RowsC(x4: bool, x5: bool, r: nat)
    requires r == 12 + If(x4, 1) + If(x5, 2)
    ensures IsRow(x4, x5, true, true, AuchCRCHi(r), AuchCRCLo(r))
  {
    match (x4, x5)
    case (false, false) => RowC();
    case (true, false) => RowD();
    case (false, true) => RowE();
    case (true, true) => RowF();
  }

  lemma Rows(x4: bool, x5: bool, x6: bool, x7: bool, r: nat)
    requires r == If(x4, 1) + If(x5, 2) + If(x6, 4) + If(x7, 8)
    ensures IsRow(x4, x5, x6, x7, AuchCRCHi(r), AuchCRCLo(r))
  {
    match (x6, x7)
    case (false, false) => Rows0(x4, x5, r);
    case (true, false) => Rows4(x4, x5, r);
    case (false, true) => Rows8(x4, x5, r);
    case (true, true) => RowsC(x4, x5, r);
  }

  lemma FromTwo(x: Bits)
    requires |x| >= 2
    ensures FromBits(x) == If(x[0], 1) + If(x[1], 2) + 4 * FromBits(x[2..])
  {
    assert x[1..][1..] == x[2..];
  }

  lemma From8(x: Bits)
    requires |x| == 8
    ensures FromBits(x) == If(x[0], 1) + If(x[1], 2) + If(x[2], 4) + If(x[3], 8)
                           + If(x[4], 16) + If(x[5], 32) + If(x[6], 64) + If(x[7], 128)
  {
    var y, z, w := x[2..], x[4..], x[6..];
    FromTwo(x);
    FromTwo(y);
    FromTwo(z);
    FromTwo(w);
    assert y[2..] == z && z[2..] == w && w[2..] == [];
  }

  lemma EntryHigh(x: Bits, hi: byte, lo: byte)
    requires |x| == 8 && IsEntry(x[0], x[1], x[2], x[3], x[4], x[5], x[6], x[7], hi, lo)
    ensures Bits8(hi) == Folded(x)[..8]
  {
    SumIsFolded(x);
    HighByte(Folded(x)[0], x[0], x[0] != x[1], hi);
    FoldedLow(x);
  }

  lemma SumIsFolded(x: Bits)
    requires |x| == 8
    ensures Folded(x)[0] == (((((((x[0] != x[1]) != x[2]) != x[3]) != x[4]) != x[5]) != x[6]) != x[7])
  {
  }

  lemma HighByte(p: bool, u: bool, v: bool, hi: byte)
    requires hi == If(p, 1) + If(u, 64) + If(v, 128)
    ensures Bits8(hi) == [p, false, false, false, false, false, u, v]
  {
    var f := [p, false, false, false, false, false, u, v];
    From8(f);
    ToFromBits(f);
  }

  lemma EntryLow(x: Bits, hi: byte, lo: byte)
    requires |x| == 8 && IsEntry(x[0], x[1], x[2], x[3], x[4], x[5], x[6], x[7], hi, lo)
    ensures Bits8(lo) == Folded(x)[8..]
  {
    var p := Folded(x)[0];
    SumIsFolded(x);
    LowByte([x[1] != x[2], x[2] != x[3], x[3] != x[4], x[4] != x[5], x[5] != x[6], x[6] != x[7], x[7] != p, p], lo);
    FoldedHigh(x);
  }

  lemma LowByte(f: Bits, lo: byte)
    requires |f| == 8
    requires lo == If(f[0], 1) + If(f[1], 2) + If(f[2], 4) + If(f[3], 8)
                   + If(f[4], 16) + If(f[5], 32) + If(f[6], 64) + If(f[7], 128)
    ensures Bits8(lo) == f
  {
    From8(f);
    ToFromBits(f);
  }

  lemma EntryShifts(x: Bits, hi: byte, lo: byte)
    requires |x| == 8 && IsEntry(x[0], x[1], x[2], x[3], x[4], x[5], x[6], x[7], hi, lo)
    ensures Shifts(x + ZERO8, BYTE) == Bits8(hi) + Bits8(lo)
  {
    EntryHigh(x, hi, lo);
    EntryLow(x, hi, lo);
    Halves(x, Bits8(hi), Bits8(lo));
  }

  lemma Halves(x: Bits, u: Bits, v: Bits)
    requires |x| == 8 && u == Folded(x)[..8] && v == Folded(x)[8..]
    ensures Shifts(x + ZERO8, BYTE) == u + v
  {
    EightShifts(x);
  }

  lemma FoldedLow(b: Bits)
    requires |b| == 8
    ensures Folded(b)[..8] == [Folded(b)[0], false, false, false, false, false, b[0], b[0] != b[1]]
  {
  }

  lemma FoldedHigh(b: Bits)
    requires |b| == 8
    ensures Folded(b)[8..] == [b[1] != b[2], b[2] != b[3], b[3] != b[4], b[4] != b[5],
                               b[5] != b[6], b[6] != b[7], b[7] != Folded(b)[0], Folded(b)[0]]
  {
    var f := Folded(b);
    assert f[8] == (b[1] != b[2]);
    assert f[9] == (b[2] != b[3]);
    assert f[10] == (b[3] != b[4]);
    assert f[11] == (b[4] != b[5]);
    assert f[12] == (b[5] != b[6]);
    assert f[13] == (b[6] != b[7]);
  }

  lemma Nibbles(i: byte)
    ensures var x := Bits8(i);
            && i % 16 == If(x[0], 1) + If(x[1], 2) + If(x[2], 4) + If(x[3], 8)
            && i / 16 == If(x[4], 1) + If(x[5], 2) + If(x[6], 4) + If(x[7], 8)
  {
    var x := Bits8(i);
    Pow2Of8();
    FromToBits(i, BYTE);
    From8(x);
    Split16(i, If(x[0], 1) + If(x[1], 2) + If(x[2], 4) + If(x[3], 8),
            If(x[4], 1) + If(x[5], 2) + If(x[6], 4) + If(x[7], 8));
  }

  lemma Split16(n: int, l: int, h: int)
    requires n == l + 16 * h && 0 <= l < 16
    ensures n % 16 == l && n / 16 == h
  {
  }

  lemma EntryOfRow(x: Bits, hi: seq<byte>, lo: seq<byte>, j: nat)
    requires |x| == 8 && IsRow(x[4], x[5], x[6], x[7], hi, lo)
    requires j == If(x[0], 1) + If(x[1], 2) + If(x[2], 4) + If(x[3], 8)
    ensures Shifts(x + ZERO8, BYTE) == Bits8(hi[j]) + Bits8(lo[j])
  {
    RowAt(x, hi, lo, j);
    EntryShifts(x, hi[j], lo[j]);
  }

  // Induction on the bits, which Dafny would try, leads nowhere here.
  lemma {:induction false} EntryAt(x: Bits, r: nat, j: nat)
    requires |x| == 8
    requires j == If(x[0], 1) + If(x[1], 2) + If(x[2], 4) + If(x[3], 8)
    requires r == If(x[4], 1) + If(x[5], 2) + If(x[6], 4) + If(x[7], 8)
    ensures |AuchCRCHi(r)| == |AuchCRCLo(r)| == 16
    ensures Shifts(x + ZERO8, BYTE) == Bits8(AuchCRCHi(r)[j]) + Bits8(AuchCRCLo(r)[j])
  {
    Rows(x[4], x[5], x[6], x[7], r);
    EntryOfRow(x, AuchCRCHi(r), AuchCRCLo(r), j);
  }

  /** Every pair of table entries is the register after eight shifts of its own index. */
  lemma TableEntry(i: byte)
    ensures |AuchCRCHi(i / 16)| == |AuchCRCLo(i / 16)| == 16
    ensures Shifts(Bits8(i) + ZERO8, BYTE) == Bits8(AuchCRCHi(i / 16)[i % 16]) + Bits8(AuchCRCLo(i / 16)[i % 16])
  {
    Nibbles(i);
    EntryAt(Bits8(i), i / 16, i % 16);
  }
}
