/**
 The table-driven loop of crc/crc16.cpp, proved to compute the bit-serial CRC of CrcTheory,
 and the detection theorems restated for messages of bytes.
 */
module Crc16 {
  import opened Bytes
  import opened CrcTheory
  import opened CrcTables

  /** The register whose high and low bytes are given. */
  function Register(hi: byte, lo: byte): (r: Bits)
    ensures |r| == 16
  {
    Bits8(lo) + Bits8(hi)
  }

  /** The CRC of a message: exclusive-or each byte into the low half, then shift eight times. */
  function Crc(r: Bits, m: seq<byte>): (s: Bits)
    requires |r| == 16
    ensures |s| == 16
    decreases |m|
  {
    if m == [] then r else Crc(Shifts(Absorb(r, Bits8(m[0])), BYTE), m[1..])
  }

  /** The CRC of a message as a 16-bit number: the bits of the final register. */
  function CrcWord(m: seq<byte>): (w: nat)
    ensures w < 0x10000
  {
    var r := Crc(ONES16, m);
    RegisterBound(r);
    FromBits(r)
  }

  lemma RegisterBound(r: Bits)
    requires |r| == 16
    ensures FromBits(r) < 0x10000
  {
    FromBitsBound(r);
    assert Pow2(8) == 256;
    assert Pow2(12) == 16 * Pow2(8);
    assert Pow2(16) == 16 * Pow2(12);
  }

  // ---------------------------------------------------------------- the loop

  /** The loop body: three statements that replace eight shifts of the register. */
  method Update(crcHi: byte, crcLo: byte, b: byte) returns (uchCRCHi: byte, uchCRCLo: byte)
    ensures Register(uchCRCHi, uchCRCLo) == Shifts(Absorb(Register(crcHi, crcLo), Bits8(b)), BYTE)
  {
    var uIndex := XorByte(crcLo, b);
    TableEntry(uIndex);
    TableStep(crcHi, crcLo, b, AuchCRCHi(uIndex / 16)[uIndex % 16], AuchCRCLo(uIndex / 16)[uIndex % 16]);
    uchCRCLo := XorByte(crcHi, AuchCRCHi(uIndex / 16)[uIndex % 16]);
    uchCRCHi := AuchCRCLo(uIndex / 16)[uIndex % 16];
  }

  /** The table-driven byte loop returns the bit-serial CRC of the first usDataLen bytes. */
  method CRC16(puchMsg: array<byte>, usDataLen: int) returns (crc: int)
    requires 0 <= usDataLen <= puchMsg.Length
    ensures crc == CrcWord(puchMsg[..usDataLen])
  {
    var uchCRCHi: byte, uchCRCLo: byte := 0xFF, 0xFF;
    var next, left := 0, usDataLen;
    ghost var msg := puchMsg[..usDataLen];
    InitialRegister();
    while left != 0
      invariant 0 <= next && 0 <= left && next + left == usDataLen
      invariant Crc(Register(uchCRCHi, uchCRCLo), msg[next..]) == Crc(ONES16, msg)
    {
      CrcNext(Register(uchCRCHi, uchCRCLo), msg, next);
      uchCRCHi, uchCRCLo := Update(uchCRCHi, uchCRCLo, puchMsg[next]);
      next, left := next + 1, left - 1;
    }
    crc := uchCRCHi * 256 + uchCRCLo;
    RegisterValue(uchCRCHi, uchCRCLo);
  }

  lemma CrcNext(r: Bits, m: seq<byte>, next: nat)
    requires |r| == 16 && next < |m|
    ensures Crc(r, m[next..]) == Crc(Shifts(Absorb(r, Bits8(m[next])), BYTE), m[next + 1..])
  {
    assert m[next..] == [m[next]] + m[next + 1..];
    CrcCons(r, m[next], m[next + 1..]);
  }

  lemma RegisterValue(hi: byte, lo: byte)
    ensures FromBits(Register(hi, lo)) == hi * 256 + lo
  {
    FromBitsConcat(Bits8(lo), Bits8(hi));
    DoubledByte(hi);
    Pow2Of8();
    FromToBits(lo, BYTE);
    FromToBits(hi, BYTE);
  }

  lemma InitialRegister()
    ensures Register(0xFF, 0xFF) == ONES16
  {
    ToFromBits([true, true, true, true, true, true, true, true]);
    From8([true, true, true, true, true, true, true, true]);
  }

  lemma CrcCons(r: Bits, b: byte, rest: seq<byte>)
    requires |r| == 16
    ensures Crc(r, [b] + rest) == Crc(Shifts(Absorb(r, Bits8(b)), BYTE), rest)
  {
    assert ([b] + rest)[1..] == rest;
  }

  /** One turn of the table loop, in terms of the two entries it looks up, is one byte of the CRC. */
  lemma TableStep(hi: byte, lo: byte, b: byte, tableHi: byte, tableLo: byte)
    requires Shifts(Bits8(XorByte(lo, b)) + ZERO8, BYTE) == Register(tableLo, tableHi)
    ensures Register(tableLo, XorByte(hi, tableHi)) == Shifts(Absorb(Register(hi, lo), Bits8(b)), BYTE)
  {
    ByteStep(Bits8(hi), Bits8(lo), Bits8(b), Bits8(tableHi), Bits8(tableLo));
  }

  lemma ByteStep(hi: Bits, lo: Bits, b: Bits, tableHi: Bits, tableLo: Bits)
    requires |hi| == |lo| == |b| == |tableHi| == |tableLo| == 8
    requires Shifts(Xor(lo, b) + ZERO8, BYTE) == tableHi + tableLo
    ensures Xor(hi, tableHi) + tableLo == Shifts(Absorb(lo + hi, b), BYTE)
  {
    AbsorbSplit(hi, lo, b);
    ShiftsLinear(ZERO8 + hi, Xor(lo, b) + ZERO8, BYTE);
    ShiftsDown(ZERO8, hi);
    XorSplit(hi, tableHi, tableLo);
  }

  lemma AbsorbSplit(hi: Bits, lo: Bits, b: Bits)
    requires |hi| == |lo| == |b| == 8
    ensures Absorb(lo + hi, b) == Xor(ZERO8 + hi, Xor(lo, b) + ZERO8)
  {
    assert (lo + hi)[..8] == lo && (lo + hi)[8..] == hi;
  }

  lemma XorSplit(hi: Bits, tableHi: Bits, tableLo: Bits)
    requires |hi| == |tableHi| == |tableLo| == 8
    ensures Xor(hi + ZERO8, tableHi + tableLo) == Xor(hi, tableHi) + tableLo
  {
  }

  // ---------------------------------------------------------------- the message as a bit stream

  function Stream(m: seq<byte>): (x: Bits)
    ensures |x| == 8 * |m|
  {
    if m == [] then [] else Bits8(m[0]) + Stream(m[1..])
  }

  /** Byte by byte or bit by bit, the register ends up the same. */
  lemma {:induction false} CrcIsRun(r: Bits, m: seq<byte>)
    requires |r| == 16
    ensures Crc(r, m) == Run(r, Stream(m))
    decreases |m|
  {
    if m == [] {
    } else {
      AbsorbThenShift(r, Bits8(m[0]));
      RunConcat(r, Bits8(m[0]), Stream(m[1..]));
      CrcIsRun(Shifts(Absorb(r, Bits8(m[0])), BYTE), m[1..]);
    }
  }

  /** So the CRC of a message is the register after its bits, read as a number. */
  lemma WordOfStream(m: seq<byte>)
    ensures CrcWord(m) == FromBits(Run(ONES16, Stream(m)))
  {
    CrcIsRun(ONES16, m);
  }

  lemma {:induction false} StreamConcat(m: seq<byte>, n: seq<byte>)
    ensures Stream(m + n) == Stream(m) + Stream(n)
  {
    if m == [] {
      assert m + n == n;
    } else {
      assert (m + n)[1..] == m[1..] + n;
      StreamConcat(m[1..], n);
    }
  }

  /** The bit stream determines the message. */
  lemma {:induction false} StreamInjective(m: seq<byte>, n: seq<byte>)
    requires |m| == |n| && Stream(m) == Stream(n)
    ensures m == n
  {
    if m == [] {
    } else {
      assert Bits8(m[0]) == Stream(m)[..8] && Stream(m[1..]) == Stream(m)[8..];
      assert Bits8(n[0]) == Stream(n)[..8] && Stream(n[1..]) == Stream(n)[8..];
      ByteInjective(m[0], n[0]);
      StreamInjective(m[1..], n[1..]);
    }
  }

  // ---------------------------------------------------------------- what the CRC detects

  /** The number and the register it is read from determine each other. */
  lemma WordIsRegister(m: seq<byte>, n: seq<byte>)
    ensures CrcWord(m) == CrcWord(n) <==> Crc(ONES16, m) == Crc(ONES16, n)
  {
    SameValue(Crc(ONES16, m), Crc(ONES16, n));
  }

  lemma SameValue(r: Bits, s: Bits)
    requires |r| == |s|
    ensures FromBits(r) == FromBits(s) <==> r == s
  {
    ToFromBits(r);
    ToFromBits(s);
  }

  /** Two messages of one length whose bits differ only inside some window of sixteen never share a CRC. */
  lemma BurstErrorsDetected(m: seq<byte>, n: seq<byte>, p: nat)
    requires |m| == |n| && WithinBurst(Stream(m), Stream(n), p)
    ensures CrcWord(m) == CrcWord(n) <==> m == n
  {
    CrcIsRun(ONES16, m);
    CrcIsRun(ONES16, n);
    BurstDetected(ONES16, Stream(m), Stream(n), p);
    WordIsRegister(m, n);
    if CrcWord(m) == CrcWord(n) {
      StreamInjective(m, n);
    }
  }

  /** In particular, damage confined to two adjacent bytes is always noticed. */
  lemma AdjacentBytesDetected(before: seq<byte>, u: seq<byte>, v: seq<byte>, after: seq<byte>)
    requires |u| == |v| <= 2
    ensures CrcWord(before + (u + after)) == CrcWord(before + (v + after)) <==> u == v
  {
    WordIsRegister(before + (u + after), before + (v + after));
    Parts(ONES16, before, u, after);
    Parts(ONES16, before, v, after);
    if CrcWord(before + (u + after)) == CrcWord(before + (v + after)) {
      StreamWindow(ONES16, Stream(before), u, v, Stream(after));
    }
  }

  lemma StreamWindow(r: Bits, before: Bits, u: seq<byte>, v: seq<byte>, after: Bits)
    requires |r| == 16 && |u| == |v| <= 2
    requires Run(r, before + (Stream(u) + after)) == Run(r, before + (Stream(v) + after))
    ensures u == v
  {
    WindowDetected(r, before, Stream(u), Stream(v), after);
    StreamInjective(u, v);
  }

  lemma Parts(r: Bits, before: seq<byte>, u: seq<byte>, after: seq<byte>)
    requires |r| == 16
    ensures Crc(r, before + (u + after)) == Run(r, Stream(before) + (Stream(u) + Stream(after)))
  {
    CrcIsRun(r, before + (u + after));
    StreamConcat(before, u + after);
    StreamConcat(u, after);
  }

  /** An odd number of flipped bits anywhere in a message always changes its CRC. */
  lemma OddBitErrorsDetected(m: seq<byte>, n: seq<byte>)
    requires |m| == |n| && Distance(Stream(m), Stream(n)) % 2 == 1
    ensures CrcWord(m) != CrcWord(n)
  {
    CrcIsRun(ONES16, m);
    CrcIsRun(ONES16, n);
    OddErrorsDetected(ONES16, Stream(m), Stream(n));
    WordIsRegister(m, n);
  }

  /** A message followed by two more bytes clears the register exactly when they are what was in it. */
  lemma TrailerClears(r: Bits, m: seq<byte>, a: byte, b: byte)
    requires |r| == 16
    ensures IsZero(Crc(r, m + [a, b])) <==> Register(b, a) == Crc(r, m)
  {
    CrcIsRun(r, m + [a, b]);
    CrcIsRun(r, m);
    StreamConcat(m, [a, b]);
    StreamPair(a, b);
    RunConcat(r, Stream(m), Register(b, a));
    Residue(Crc(r, m), Register(b, a));
  }

  /**
   A message followed by two more bytes has CRC zero exactly when they are the low and then
   the high byte of the message's own CRC.
   */
  lemma TrailerChecks(m: seq<byte>, a: byte, b: byte)
    ensures CrcWord(m + [a, b]) == 0 <==> a == CrcWord(m) % 256 && b == CrcWord(m) / 256
  {
    TrailerClears(ONES16, m, a, b);
    ZeroRegister(Crc(ONES16, m + [a, b]));
    RegisterValue(b, a);
    SameValue(Register(b, a), Crc(ONES16, m));
    HalvesOf(CrcWord(m), b, a);
  }

  lemma HalvesOf(w: nat, hi: byte, lo: byte)
    ensures w == hi * 256 + lo <==> lo == w % 256 && hi == w / 256
  {
  }

  /** Reading a register as a number gives zero exactly when no bit of it is set. */
  lemma ZeroRegister(r: Bits)
    ensures FromBits(r) == 0 <==> IsZero(r)
  {
    if r == [] {
      assert IsZero(r);
    } else {
      ZeroRegister(r[1..]);
      assert r == [r[0]] + r[1..];
    }
  }

  lemma StreamPair(a: byte, b: byte)
    ensures Stream([a, b]) == Register(b, a)
  {
    assert [a, b][1..] == [b] && [b][1..] == [];
    assert Stream([b]) == Bits8(b) + [];
  }
}
