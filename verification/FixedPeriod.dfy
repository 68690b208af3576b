/**
 Timers that all repeat after one fixed period, such as the test timer of gw/gw.cpp: the queue
 keeps time for ever exactly when its first and last delay lie at most a period apart.
 */
module FixedPeriod {
  import opened Scheduler

  /** A sorted queue of timers with one period. */
  ghost predicate Shared(s: Sys, period: nat) {
    && s.queue != [] && 0 < period
    && (forall i :: 0 <= i < |s.queue| ==> s.queue[i].kind == Plain(period))
    && (forall i, j :: 0 <= i <= j < |s.queue| ==> s.queue[i].delay <= s.queue[j].delay)
  }

  /** The n-th firing is a step of the absolute scheduler: nobody's due time has moved. */
  ghost predicate Punctual(s: Sys, period: nat, n: nat) {
    var u := Ticks(s, n);
    u.queue != [] && Agenda(Tick(u)) == Rescheduled(Agenda(u), Plain(period))
  }

  /** Pushing a fired timer to the back of the queue is right exactly when the spread is at most a period. */
  lemma PunctualIffSpreadFits(s: Sys, period: nat)
    requires Shared(s, period)
    ensures (forall n: nat :: Punctual(s, period, n)) <==> s.queue[|s.queue| - 1].delay - s.queue[0].delay <= period
  {
    if s.queue[|s.queue| - 1].delay - s.queue[0].delay <= period {
      forall n: nat
        ensures Punctual(s, period, n)
      {
        TicksInv(s, Plain(period), n);
        TickOnTime(Ticks(s, n), Plain(period));
      }
    } else {
      SpreadTooWide(s, period);
    }
  }

  /** An agenda after its first n entries have fired once and gone to the back. */
  function RotatedBy(a: seq<Firing>, period: nat, n: nat): (b: seq<Firing>)
    requires n <= |a|
    ensures |b| == |a|
  {
    a[n..] + seq(n, i requires 0 <= i < n => Firing(a[i].id, a[i].time + period))
  }

  lemma RotatedOnce(a: seq<Firing>, period: nat, n: nat)
    requires n < |a|
    ensures Rescheduled(RotatedBy(a, period, n), Plain(period)) == RotatedBy(a, period, n + 1)
  {
    assert RotatedBy(a, period, n)[0] == a[n];
  }

  lemma RotatedStep(s: Sys, a: seq<Firing>, period: nat, n: nat)
    requires Punctual(s, period, n) && n < |a| && Agenda(Ticks(s, n)) == RotatedBy(a, period, n)
    ensures Agenda(Ticks(s, n + 1)) == RotatedBy(a, period, n + 1)
  {
    RotatedOnce(a, period, n);
  }

  /** As long as the firings are punctual the agenda is the first one, rotated. */
  lemma {:induction false} RotatedAgenda(s: Sys, period: nat, n: nat)
    requires Shared(s, period) && n < |s.queue|
    requires forall k: nat :: k < n ==> Punctual(s, period, k)
    ensures Agenda(Ticks(s, n)) == RotatedBy(Agenda(s), period, n)
    decreases n
  {
    if n == 0 {
      assert RotatedBy(Agenda(s), period, 0) == Agenda(s);
    } else {
      RotatedAgenda(s, period, n - 1);
      RotatedStep(s, Agenda(s), period, n - 1);
    }
  }

  /** Too wide a spread makes some firing of the first round displace the timer that fired first. */
  lemma SpreadTooWide(s: Sys, period: nat)
    requires Shared(s, period) && s.queue[|s.queue| - 1].delay - s.queue[0].delay > period
    ensures exists n: nat :: n < |s.queue| && !Punctual(s, period, n)
  {
    var last: nat := |s.queue| - 1;
    if forall k: nat :: k < last ==> Punctual(s, period, k) {
      RotatedAgenda(s, period, last);
      var a, u := Agenda(s), Ticks(s, last);
      assert Agenda(u)[0] == a[last] && Agenda(u)[1] == Firing(a[0].id, a[0].time + period);
      assert Due(u, 0) == a[last].time && Due(u, 1) == a[0].time + period;
      ClampMoves(u, period);
      assert !Punctual(s, period, last);
    } else {
      var k: nat :| k < last && !Punctual(s, period, k);
    }
  }

  /** A timer due before the one that fires ahead of it is moved by the clamp. */
  lemma ClampMoves(u: Sys, period: nat)
    requires 2 <= |u.queue| && Due(u, 1) < Due(u, 0)
    ensures Agenda(Tick(u)) != Rescheduled(Agenda(u), Plain(period))
  {
    assert u.queue[1..][0] == u.queue[1];
    assert Tick(u).queue[0].delay == 0 && Tick(u).now == Due(u, 0);
    assert Agenda(Tick(u))[0].time == Due(u, 0);
    assert Rescheduled(Agenda(u), Plain(period))[0] == Agenda(u)[1];
  }
}
