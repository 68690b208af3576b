/**
 The CRC-16/MODBUS register as sixteen bits, least significant first, and what the bit-serial
 rule (MODBUS over Serial Line Specification and Implementation Guide V1.02, section 6.2.2)
 makes of a bit stream of any length: linearity, reversibility, and which errors it detects.
 */
module CrcTheory {
  import opened Bytes

  const ZERO8: Bits := [false, false, false, false, false, false, false, false]
  // The initial register 0xFFFF.
  const ONES16: Bits := [true, true, true, true, true, true, true, true, true, true, true, true, true, true, true, true]
  // The reflected polynomial 0xA001.
  const POLY: Bits := [true] + ZERO8 + [false, false, false, false, true, false, true]

  /** One shift of the register: the bit that falls out selects the polynomial. */
  function Shift(r: Bits): (s: Bits)
    requires |r| == 16
    ensures |s| == 16
  {
    if r[0] then Xor(r[1..] + [false], POLY) else r[1..] + [false]
  }

  function Shifts(r: Bits, n: nat): (s: Bits)
    requires |r| == 16
    ensures |s| == 16
    decreases n
  {
    if n == 0 then r else Shifts(Shift(r), n - 1)
  }

  /** Exclusive-or a few bits into the low end of the register. */
  function Absorb(r: Bits, x: Bits): (s: Bits)
    requires |r| == 16 && |x| <= 16
    ensures |s| == 16
  {
    Xor(r[..|x|], x) + r[|x|..]
  }

  /** The register after a bit stream: one bit in, one shift. */
  function Run(r: Bits, x: Bits): (s: Bits)
    requires |r| == 16
    ensures |s| == 16
    decreases |x|
  {
    if x == [] then r else Run(Shift(Absorb(r, [x[0]])), x[1..])
  }

  // ---------------------------------------------------------------- the shift, bit by bit

  predicate InPoly(i: nat) {
    i == 0 || i == 13 || i == 15
  }

  lemma ShiftAt(r: Bits, i: nat)
    requires |r| == 16 && i < 16
    ensures Shift(r)[i] == ((i < 15 && r[i + 1]) != (r[0] && InPoly(i)))
  {
    assert POLY[i] == InPoly(i);
  }

  lemma AbsorbAt(r: Bits, x: Bits, i: nat)
    requires |r| == 16 && |x| <= 16 && i < 16
    ensures Absorb(r, x)[i] == (r[i] != (i < |x| && x[i]))
  {
  }

  lemma ShiftLinear(r: Bits, s: Bits)
    requires |r| == 16 && |s| == 16
    ensures Shift(Xor(r, s)) == Xor(Shift(r), Shift(s))
  {
    forall i | 0 <= i < 16
      ensures Shift(Xor(r, s))[i] == Xor(Shift(r), Shift(s))[i]
    {
      ShiftAt(r, i);
      ShiftAt(s, i);
      ShiftAt(Xor(r, s), i);
    }
  }

  lemma {:induction false} ShiftsLinear(r: Bits, s: Bits, n: nat)
    requires |r| == 16 && |s| == 16
    ensures Shifts(Xor(r, s), n) == Xor(Shifts(r, n), Shifts(s, n))
    decreases n
  {
    if n == 0 {
    } else {
      ShiftLinear(r, s);
      ShiftsLinear(Shift(r), Shift(s), n - 1);
    }
  }

  lemma {:induction false} ShiftsDown(low: Bits, high: Bits)
    requires |low| + |high| == 16 && forall i :: 0 <= i < |low| ==> !low[i]
    ensures Shifts(low + high, |low|) == high + low
  {
    if low == [] {
      assert low + high == high + low;
    } else {
      var high' := high + [false];
      assert Shift(low + high) == low[1..] + high';
      ShiftsDown(low[1..], high');
      assert high' + low[1..] == high + low;
    }
  }

  // ---------------------------------------------------------------- bits one at a time or all at once

  /** Absorbing up to sixteen bits at once and then shifting is the same as feeding them one by one. */
  lemma {:induction false} AbsorbThenShift(r: Bits, x: Bits)
    requires |r| == 16 && |x| <= 16
    ensures Shifts(Absorb(r, x), |x|) == Run(r, x)
    decreases |x|
  {
    if x == [] {
      assert Absorb(r, x) == r;
    } else {
      var first := Absorb(r, [x[0]]);
      forall i | 0 <= i < 16
        ensures Shift(Absorb(r, x))[i] == Absorb(Shift(first), x[1..])[i]
      {
        ShiftAt(Absorb(r, x), i);
        ShiftAt(first, i);
        AbsorbAt(Shift(first), x[1..], i);
        AbsorbAt(r, x, 0);
        AbsorbAt(r, [x[0]], 0);
        if i < 15 {
          AbsorbAt(r, x, i + 1);
          AbsorbAt(r, [x[0]], i + 1);
        }
      }
      assert Shift(Absorb(r, x)) == Absorb(Shift(first), x[1..]);
      AbsorbThenShift(Shift(first), x[1..]);
    }
  }

  lemma {:induction false} RunConcat(r: Bits, x: Bits, y: Bits)
    requires |r| == 16
    ensures Run(r, x + y) == Run(Run(r, x), y)
    decreases |x|
  {
    if x == [] {
      assert x + y == y;
    } else {
      assert (x + y)[1..] == x[1..] + y;
      RunConcat(Shift(Absorb(r, [x[0]])), x[1..], y);
    }
  }

  // ---------------------------------------------------------------- linearity and reversibility

  /** The difference of two runs is the run of the differences. */
  lemma {:induction false} RunLinear(r: Bits, s: Bits, x: Bits, y: Bits)
    requires |r| == 16 && |s| == 16 && |x| == |y|
    ensures Run(Xor(r, s), Xor(x, y)) == Xor(Run(r, x), Run(s, y))
    decreases |x|
  {
    if x == [] {
    } else {
      var r', s' := Absorb(r, [x[0]]), Absorb(s, [y[0]]);
      assert Absorb(Xor(r, s), [Xor(x, y)[0]]) == Xor(r', s');
      assert Xor(x, y)[1..] == Xor(x[1..], y[1..]);
      ShiftLinear(r', s');
      RunLinear(Shift(r'), Shift(s'), x[1..], y[1..]);
    }
  }

  /**
   Two runs of the same length, at most sixteen bits, that meet in one register must have started
   exactly as far apart as their bits differ.
   */
  lemma {:induction false} ShortRunsMeet(r: Bits, s: Bits, x: Bits, y: Bits)
    requires |r| == 16 && |s| == 16 && |x| == |y| <= 16
    requires Run(r, x) == Run(s, y)
    ensures forall i :: 0 <= i < 16 ==> ((r[i] != s[i]) <==> (i < |x| && x[i] != y[i]))
    decreases |x|
  {
    if x == [] {
    } else {
      var r', s' := Absorb(r, [x[0]]), Absorb(s, [y[0]]);
      var x', y' := x[1..], y[1..];
      ShortRunsMeet(Shift(r'), Shift(s'), x', y');
      ShiftsApart(r', s');
      forall i | 1 <= i < 16
        ensures (r[i] != s[i]) <==> (i < |x| && x[i] != y[i])
      {
        assert (Shift(r')[i - 1] != Shift(s')[i - 1]) <==> (i - 1 < |x'| && x'[i - 1] != y'[i - 1]);
      }
    }
  }

  /** Two shifted registers that agree at the top had the same bit fall out, and differ where the registers did. */
  lemma ShiftsApart(r: Bits, s: Bits)
    requires |r| == 16 && |s| == 16 && Shift(r)[15] == Shift(s)[15]
    ensures r[0] == s[0]
    ensures forall i :: 1 <= i < 16 ==> ((r[i] != s[i]) <==> (Shift(r)[i - 1] != Shift(s)[i - 1]))
  {
    ShiftAt(r, 15);
    ShiftAt(s, 15);
    forall i | 1 <= i < 16
      ensures (r[i] != s[i]) <==> (Shift(r)[i - 1] != Shift(s)[i - 1])
    {
      ShiftAt(r, i - 1);
      ShiftAt(s, i - 1);
    }
  }

  /** A run never forgets where it started: for any stream, different registers stay different. */
  lemma {:induction false} RunInjective(r: Bits, s: Bits, x: Bits)
    requires |r| == 16 && |s| == 16
    requires Run(r, x) == Run(s, x)
    ensures r == s
    decreases |x|
  {
    if x == [] {
    } else {
      var r', s' := Absorb(r, [x[0]]), Absorb(s, [x[0]]);
      RunInjective(Shift(r'), Shift(s'), x[1..]);
      ShortRunsMeet(r, s, [x[0]], [x[0]]);
    }
  }

  // ---------------------------------------------------------------- error detection

  /** Streams of one length that differ, if at all, only inside a window of sixteen bits. */
  ghost predicate WithinBurst(x: Bits, y: Bits, p: nat) {
    && |x| == |y| && p <= |x|
    && forall i :: 0 <= i < |x| && x[i] != y[i] ==> p <= i < p + 16
  }

  /** No burst error of at most sixteen bits goes unnoticed, in a stream of any length. */
  lemma BurstDetected(r: Bits, x: Bits, y: Bits, p: nat)
    requires |r| == 16 && WithinBurst(x, y, p)
    ensures Run(r, x) == Run(r, y) <==> x == y
  {
    if Run(r, x) == Run(r, y) {
      var q := if p + 16 <= |x| then p + 16 else |x|;
      assert x[..p] == y[..p] && x[q..] == y[q..];
      Split(x, p, q);
      Split(y, p, q);
      WindowDetected(r, x[..p], x[p..q], y[p..q], x[q..]);
    }
  }

  lemma Split(x: Bits, p: nat, q: nat)
    requires p <= q <= |x|
    ensures x == x[..p] + (x[p..q] + x[q..])
  {
  }

  lemma WindowDetected(r: Bits, before: Bits, u: Bits, v: Bits, after: Bits)
    requires |r| == 16 && |u| == |v| <= 16
    requires Run(r, before + (u + after)) == Run(r, before + (v + after))
    ensures u == v
  {
    var c := Run(r, before);
    RunConcat(r, before, u + after);
    RunConcat(r, before, v + after);
    RunConcat(c, u, after);
    RunConcat(c, v, after);
    RunInjective(Run(c, u), Run(c, v), after);
    ShortRunsDiffer(c, u, v);
  }

  lemma ShortRunsDiffer(c: Bits, u: Bits, v: Bits)
    requires |c| == 16 && |u| == |v| <= 16 && Run(c, u) == Run(c, v)
    ensures u == v
  {
    ShortRunsMeet(c, c, u, v);
    assert forall i :: 0 <= i < |u| ==> c[i] == c[i] && u[i] == v[i];
  }

  function Parity(x: Bits): bool {
    if x == [] then false else x[0] != Parity(x[1..])
  }

  function Distance(x: Bits, y: Bits): nat
    requires |x| == |y|
  {
    if x == [] then 0 else (if x[0] != y[0] then 1 else 0) + Distance(x[1..], y[1..])
  }

  lemma {:induction false} ParityXor(x: Bits, y: Bits)
    requires |x| == |y|
    ensures Parity(Xor(x, y)) == (Parity(x) != Parity(y)) == (Distance(x, y) % 2 == 1)
  {
    if x == [] {
    } else {
      assert Xor(x, y)[1..] == Xor(x[1..], y[1..]);
      ParityXor(x[1..], y[1..]);
    }
  }

  lemma {:induction false} ParityConcat(x: Bits, y: Bits)
    ensures Parity(x + y) == (Parity(x) != Parity(y))
  {
    if x == [] {
      assert x + y == y;
    } else {
      assert (x + y)[1..] == x[1..] + y;
      ParityConcat(x[1..], y);
    }
  }

  lemma ParityShift(r: Bits)
    requires |r| == 16
    ensures Parity(Shift(r)) == Parity(r)
  {
    ParityConcat(r[1..], [false]);
    if r[0] {
      ParityFlips(r[1..] + [false]);
    }
  }

  lemma ParityFlips(s: Bits)
    requires |s| == 16
    ensures Parity(Xor(s, POLY)) == !Parity(s)
  {
    ParityXor(s, POLY);
    ParityPoly();
  }

  lemma ParityPoly()
    ensures Parity(POLY)
  {
    ParityConcat([true], ZERO8 + [false, false, false, false, true, false, true]);
    assert POLY == [true] + (ZERO8 + [false, false, false, false, true, false, true]);
    ParityConcat(ZERO8, [false, false, false, false, true, false, true]);
    assert !Parity(ZERO8);
    assert !Parity([false, false, false, false, true, false, true]);
  }

  /** The parity of the register counts the parity of everything it has been fed. */
  lemma {:induction false} ParityRun(r: Bits, x: Bits)
    requires |r| == 16
    ensures Parity(Run(r, x)) == (Parity(r) != Parity(x))
    decreases |x|
  {
    if x == [] {
    } else {
      var r' := Absorb(r, [x[0]]);
      assert r' == [r[0] != x[0]] + r[1..];
      ParityShift(r');
      ParityRun(Shift(r'), x[1..]);
    }
  }

  /** An odd number of flipped bits, anywhere in a stream of any length, changes the register. */
  lemma OddErrorsDetected(r: Bits, x: Bits, y: Bits)
    requires |r| == 16 && |x| == |y| && Distance(x, y) % 2 == 1
    ensures Run(r, x) != Run(r, y)
  {
    ParityXor(x, y);
    ParityRun(r, x);
    ParityRun(r, y);
  }

  /** Sixteen further bits bring the register to zero exactly when they are the register itself. */
  lemma Residue(r: Bits, x: Bits)
    requires |r| == 16 && |x| == 16
    ensures IsZero(Run(r, x)) <==> x == r
  {
    var zero := Xor(r, r);
    AbsorbThenShift(zero, zero);
    ZeroShifts(Absorb(zero, zero), 16);
    if IsZero(Run(r, x)) {
      assert Run(r, x) == Run(zero, zero);
      ShortRunsMeet(r, zero, x, zero);
    }
    if x == r {
      AbsorbThenShift(r, x);
      assert Absorb(r, x) == Absorb(zero, zero);
    }
  }

  ghost predicate IsZero(r: Bits) {
    forall i :: 0 <= i < |r| ==> !r[i]
  }

  lemma {:induction false} ZeroShifts(r: Bits, n: nat)
    requires |r| == 16 && IsZero(r)
    ensures IsZero(Shifts(r, n))
    decreases n
  {
    if n == 0 {
    } else {
      ZeroShifts(Shift(r), n - 1);
    }
  }
}
