/** Bytes, and the bits they are made of. */
module Bytes {
  type byte = x: int | 0 <= x < 256

  type Bits = seq<bool>

  // The width of a byte.
  const BYTE: nat := 8

  /** The low k bits of a number, least significant first. */
  function ToBits(n: nat, k: nat): (x: Bits)
    ensures |x| == k
    decreases k
  {
    if k == 0 then [] else [n % 2 == 1] + ToBits(n / 2, k - 1)
  }

  function FromBits(x: Bits): nat {
    if x == [] then 0 else (if x[0] then 1 else 0) + 2 * FromBits(x[1..])
  }

  function Pow2(k: nat): nat {
    if k == 0 then 1 else 2 * Pow2(k - 1)
  }

  lemma {:induction false} FromBitsBound(x: Bits)
    ensures FromBits(x) < Pow2(|x|)
  {
    if x == [] {
    } else {
      FromBitsBound(x[1..]);
    }
  }

  /** Reading back the bits of a number, and rebuilding a number from its bits, are inverse. */
  lemma {:induction false} ToFromBits(x: Bits)
    ensures ToBits(FromBits(x), |x|) == x
  {
    if x == [] {
    } else {
      ToFromBits(x[1..]);
      assert FromBits(x) / 2 == FromBits(x[1..]);
    }
  }

  lemma {:induction false} FromToBits(n: nat, k: nat)
    requires n < Pow2(k)
    ensures FromBits(ToBits(n, k)) == n
    decreases k
  {
    if k == 0 {
    } else {
      FromToBits(n / 2, k - 1);
      assert ToBits(n, k)[1..] == ToBits(n / 2, k - 1);
    }
  }

  function Doubled(n: nat, k: nat): nat
    decreases k
  {
    if k == 0 then n else 2 * Doubled(n, k - 1)
  }

  lemma {:induction false} FromBitsConcat(x: Bits, y: Bits)
    ensures FromBits(x + y) == FromBits(x) + Doubled(FromBits(y), |x|)
  {
    if x == [] {
      assert x + y == y;
    } else {
      assert (x + y)[1..] == x[1..] + y;
      FromBitsConcat(x[1..], y);
    }
  }

  lemma DoubledByte(n: nat)
    ensures Doubled(n, BYTE) == 256 * n
  {
    assert Doubled(n, 8) == 256 * n;
  }

  function Xor(a: Bits, b: Bits): (c: Bits)
    requires |a| == |b|
    ensures |c| == |a| && forall i :: 0 <= i < |a| ==> c[i] == (a[i] != b[i])
  {
    seq(|a|, i requires 0 <= i < |a| => a[i] != b[i])
  }

  function Bits8(b: byte): (x: Bits)
    ensures |x| == 8
  {
    ToBits(b, BYTE)
  }

  lemma Pow2Of8()
    ensures Pow2(BYTE) == 256
  {
    assert Pow2(8) == 256;
  }

  /** Bitwise exclusive or of two bytes. */
  function XorByte(a: byte, b: byte): (c: byte)
    ensures Bits8(c) == Xor(Bits8(a), Bits8(b))
  {
    var x := Xor(Bits8(a), Bits8(b));
    FromBitsBound(x);
    Pow2Of8();
    ToFromBits(x);
    FromBits(x)
  }

  lemma ByteInjective(a: byte, b: byte)
    requires Bits8(a) == Bits8(b)
    ensures a == b
  {
    Pow2Of8();
    FromToBits(a, BYTE);
    FromToBits(b, BYTE);
  }
}
