/**
 The CRC in numbers: the constants of the MODBUS over Serial Line Specification and Implementation
 Guide V1.02, section 6.2.2, and the message that the guide works out.
 */
module CrcValues {
  import opened Bytes
  import opened Words
  import opened CrcTheory
  import opened CrcTables
  import opened Crc16

  // ---------------------------------------------------------------- bits by division

  lemma {:induction false} BitAt(n: nat, k: nat, i: nat)
    requires i < k
    ensures 0 < Pow2(i) && (ToBits(n, k)[i] <==> n / Pow2(i) % 2 == 1)
    decreases i
  {
    if i == 0 {
    } else {
      BitAt(n / 2, k - 1, i - 1);
      DivTwice(n, Pow2(i - 1));
    }
  }
  // ---------------------------------------------------------------- one turn of the loop, in numbers

  lemma BitsWritten(n: byte)
    ensures var x := Bits8(n);
            && x[0] == (n % 2 == 1) && x[1] == (n / 2 % 2 == 1) && x[2] == (n / 4 % 2 == 1) && x[3] == (n / 8 % 2 == 1)
            && x[4] == (n / 16 % 2 == 1) && x[5] == (n / 32 % 2 == 1) && x[6] == (n / 64 % 2 == 1)
            && x[7] == (n / 128 % 2 == 1)
  {
    BitAt(n, BYTE, 0);
    BitAt(n, BYTE, 1);
    BitAt(n, BYTE, 2);
    BitAt(n, BYTE, 3);
    BitAt(n, BYTE, 4);
    BitAt(n, BYTE, 5);
    BitAt(n, BYTE, 6);
    BitAt(n, BYTE, 7);
    assert Pow2(3) == 8 && Pow2(5) == 32 && Pow2(7) == 128;
    assert Pow2(1) == 2 && Pow2(2) == 4 && Pow2(4) == 16 && Pow2(6) == 64;
  }

  /** Exclusive or of two bytes, written out. */
  function Differ(a: byte, b: byte): int {
    If(a % 2 != b % 2, 1) + If(a / 2 % 2 != b / 2 % 2, 2) + If(a / 4 % 2 != b / 4 % 2, 4)
    + If(a / 8 % 2 != b / 8 % 2, 8) + If(a / 16 % 2 != b / 16 % 2, 16) + If(a / 32 % 2 != b / 32 % 2, 32)
    + If(a / 64 % 2 != b / 64 % 2, 64) + If(a / 128 % 2 != b / 128 % 2, 128)
  }

  lemma XorWritten(a: byte, b: byte)
    ensures XorByte(a, b) == Differ(a, b)
  {
    BitsWritten(a);
    BitsWritten(b);
    From8(Xor(Bits8(a), Bits8(b)));
  }

  lemma TurnOfTable(hi: byte, lo: byte, b: byte, i: byte)
    requires XorByte(lo, b) == i
    ensures Register(AuchCRCLo(i / 16)[i % 16], XorByte(hi, AuchCRCHi(i / 16)[i % 16]))
            == Shifts(Absorb(Register(hi, lo), Bits8(b)), BYTE)
  {
    TableEntry(i);
    TableStep(hi, lo, b, AuchCRCHi(i / 16)[i % 16], AuchCRCLo(i / 16)[i % 16]);
  }

  /** From one register a message leads to another; named so that a proof passes it on as one fact. */
  ghost predicate LeadsTo(hi: byte, lo: byte, m: seq<byte>, w: nat) {
    var leads := FromBits(Crc(Register(hi, lo), m)) == w;
    leads
  }

  /**
   One turn of the table loop, in numbers: i is the index looked up, tHi and tLo what is found there.
   Named so that a proof passes it on as one fact.
   */
  ghost predicate IsTurn(hi: byte, lo: byte, b: byte, i: byte, tHi: byte, tLo: byte, lo': byte) {
    var turn :=
      && Differ(lo, b) == i && AuchCRCHi(i / 16)[i % 16] == tHi && AuchCRCLo(i / 16)[i % 16] == tLo
      && Differ(hi, tHi) == lo';
    turn
  }

  lemma TurnIs(hi: byte, lo: byte, b: byte, i: byte, tHi: byte, tLo: byte, lo': byte)
    requires IsTurn(hi, lo, b, i, tHi, tLo, lo')
    ensures Register(tLo, lo') == Shifts(Absorb(Register(hi, lo), Bits8(b)), BYTE)
  {
    XorWritten(lo, b);
    XorWritten(hi, tHi);
    TurnOfTable(hi, lo, b, i);
  }

  lemma NextByte(hi: byte, lo: byte, m: seq<byte>, i: byte, tHi: byte, tLo: byte, lo': byte, w: nat)
    requires m != [] && IsTurn(hi, lo, m[0], i, tHi, tLo, lo') && LeadsTo(tLo, lo', m[1..], w)
    ensures LeadsTo(hi, lo, m, w)
  {
    TurnIs(hi, lo, m[0], i, tHi, tLo, lo');
    assert m == [m[0]] + m[1..];
    CrcCons(Register(hi, lo), m[0], m[1..]);
  }

  lemma AtEnd(hi: byte, lo: byte, m: seq<byte>)
    requires m == []
    ensures LeadsTo(hi, lo, m, 256 * hi + lo)
  {
    RegisterValue(hi, lo);
  }

  lemma First(m: seq<byte>, w: nat)
    requires LeadsTo(0xFF, 0xFF, m, w)
    ensures CrcWord(m) == w
  {
    InitialRegister();
  }

  // ---------------------------------------------------------------- the constants

  lemma RegisterOf(hi: byte, lo: byte, x: Bits, y: Bits)
    requires |x| == |y| == 8 && FromBits(x) == lo && FromBits(y) == hi
    ensures Register(hi, lo) == x + y && FromBits(x + y) == 256 * hi + lo
  {
    ToFromBits(x);
    ToFromBits(y);
    RegisterValue(hi, lo);
  }

  /** The register starts as 0xFFFF, and the polynomial is 0xA001, bit 15 of each being the last one here. */
  lemma Constants()
    ensures |ONES16| == |POLY| == 16 && FromBits(ONES16) == 0xFFFF && FromBits(POLY) == 0xA001
  {
    AllOnes();
    Polynomial();
  }

  lemma AllOnes()
    ensures FromBits(ONES16) == 0xFFFF
  {
    var ones := [true, true, true, true, true, true, true, true];
    From8(ones);
    RegisterOf(0xFF, 0xFF, ones, ones);
    assert ONES16 == ones + ones;
  }

  lemma Polynomial()
    ensures FromBits(POLY) == 0xA001
  {
    var low, high := [true] + ZERO8[1..], [false] + [false, false, false, false, true, false, true];
    From8(low);
    From8(high);
    RegisterOf(0xA0, 0x01, low, high);
    assert POLY == low + high;
  }

  /** The CRC of no bytes is what the register starts with. */
  lemma EmptyMessage(m: seq<byte>)
    requires m == []
    ensures CrcWord(m) == 0xFFFF
  {
    Constants();
  }

  // ---------------------------------------------------------------- messages worked out

  lemma GuideFirst()
    ensures IsTurn(0xFF, 0xFF, 0x02, 0xFD, 0xC1, 0x81, 0x3E)
  {
    assert Differ(0xFF, 0x02) == 0xFD && Differ(0xFF, 0xC1) == 0x3E;
    assert AuchCRCHi(15)[13] == 0xC1 && AuchCRCLo(15)[13] == 0x81;
  }

  lemma GuideSecond()
    ensures IsTurn(0x81, 0x3E, 0x07, 0x39, 0xC0, 0x12, 0x41)
  {
    assert Differ(0x3E, 0x07) == 0x39 && Differ(0x81, 0xC0) == 0x41;
    assert AuchCRCHi(3)[9] == 0xC0 && AuchCRCLo(3)[9] == 0x12;
  }

  /** The guide's example: the CRC of 02 07 is 0x1241. */
  lemma GuideExample(m: seq<byte>)
    requires m == [0x02, 0x07]
    ensures CrcWord(m) == 0x1241
  {
    var w := 0x1241;
    AtEnd(0x12, 0x41, m[2..]);
    GuideSecond();
    assert m[1..][1..] == m[2..];
    NextByte(0x81, 0x3E, m[1..], 0x39, 0xC0, 0x12, 0x41, w);
    GuideFirst();
    NextByte(0xFF, 0xFF, m, 0xFD, 0xC1, 0x81, 0x3E, w);
    First(m, w);
  }
}
