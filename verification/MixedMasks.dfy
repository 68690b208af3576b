/**
 Timers of one list that do not share their mask, as when a heartbeat's plan list is added to a list
 that has not been started yet: what a firing then does to the other timers' due times, and a start
 that loses an occurrence.
 */
module MixedMasks {
  import opened Bytes
  import opened Words
  import opened Calendar
  import opened Scheduler

  /** What an absolute scheduler makes of one firing, whatever the kinds of the timers. */
  function Expected(u: Sys): seq<Firing>
    requires u.queue != []
  {
    var kind, due := u.queue[0].kind, Due(u, 0);
    Agenda(u)[1..] + if Period(kind, due) > 0 then [Firing(u.queue[0].id, Next(kind, due))] else []
  }

  /** A firing moves nobody's due time if and only if nobody is due before the head. */
  lemma PunctualIffHeadIsFirst(u: Sys)
    requires u.queue != []
    ensures Agenda(Tick(u)) == Expected(u) <==> forall i :: 0 <= i < |u.queue| ==> Due(u, 0) <= Due(u, i)
  {
    var n := |u.queue| - 1;
    TickLengths(u);
    forall i | 0 <= i < n
      ensures Agenda(Tick(u))[i] == Expected(u)[i] <==> Due(u, 0) <= Due(u, i + 1)
    {
      TickDue(u, i);
    }
    if Agenda(Tick(u)) == Expected(u) {
      forall i | 0 <= i < |u.queue|
        ensures Due(u, 0) <= Due(u, i)
      {
        assert 0 < i ==> Agenda(Tick(u))[i - 1] == Expected(u)[i - 1];
      }
    }
  }

  lemma TickLengths(u: Sys)
    requires u.queue != []
    ensures Tick(u).now == Due(u, 0) && |Tick(u).queue| == |Expected(u)| >= |u.queue| - 1
    ensures |Tick(u).queue| == |u.queue| ==> Agenda(Tick(u))[|u.queue| - 1] == Expected(u)[|u.queue| - 1]
  {
  }

  /** A timer behind the head keeps its due time, or is moved up to the head's. */
  lemma TickDue(u: Sys, i: nat)
    requires i < |u.queue| - 1
    ensures i < |Tick(u).queue|
    ensures Agenda(Tick(u))[i] ==
            Firing(u.queue[i + 1].id, if Due(u, i + 1) < Due(u, 0) then Due(u, 0) else Due(u, i + 1))
    ensures Expected(u)[i] == Firing(u.queue[i + 1].id, Due(u, i + 1))
  {
    TickLengths(u);
    assert u.queue[1..][i] == u.queue[i + 1];
  }

  // ---------------------------------------------------------------- whole runs

  /** When a timer due at an instant is due for the k-th time after that. */
  function DueAgain(kind: Kind, due: nat, k: nat): nat {
    if k == 0 then due else Next(kind, DueAgain(kind, due, k - 1))
  }

  /** All timers of the queue repeat. */
  ghost predicate AllRepeat(s: Sys) {
    s.queue != [] && forall i :: 0 <= i < |s.queue| && s.queue[i].kind.Plain? ==> 0 < s.queue[i].kind.period
  }

  /** When it is somebody's turn for the n-th time, if the timers take turns in the order of the queue. */
  function Turn(s: Sys, n: nat): nat
    requires s.queue != []
  {
    var i := n % |s.queue|;
    DueAgain(s.queue[i].kind, Due(s, i), n / |s.queue|)
  }

  /** The n-th firing keeps everybody's due time. */
  ghost predicate OnTime(s: Sys, n: nat) {
    var u := Ticks(s, n);
    u.queue != [] && Agenda(Tick(u)) == Expected(u)
  }

  /** The queue in which the n-th turn is the next. */
  ghost predicate AtTurn(s: Sys, u: Sys, n: nat)
    requires s.queue != []
  {
    && |u.queue| == |s.queue|
    && forall i :: 0 <= i < |u.queue| ==> u.queue[i].kind == KindAt(s, n + i) && Due(u, i) == Turn(s, n + i)
  }

  function KindAt(s: Sys, n: nat): Kind
    requires s.queue != []
  {
    s.queue[n % |s.queue|].kind
  }

  lemma TurnRound(s: Sys, n: nat)
    requires s.queue != []
    ensures KindAt(s, n + |s.queue|) == KindAt(s, n)
    ensures Turn(s, n + |s.queue|) == Next(KindAt(s, n), Turn(s, n))
  {
    var size := |s.queue|;
    RoundLater(n, size);
  }

  lemma RoundLater(n: nat, size: nat)
    requires 0 < size
    ensures (n + size) % size == n % size && (n + size) / size == n / size + 1
  {
    var q := n / size;
    assert n == q * size + n % size;
    assert (q + 1) * size == q * size + size;
    ModUnique(n + size, size, q + 1, n % size);
  }

  lemma StartAtTurn(s: Sys)
    requires s.queue != []
    ensures AtTurn(s, s, 0)
  {
    forall i | 0 <= i < |s.queue|
      ensures s.queue[i].kind == KindAt(s, i) && Due(s, i) == Turn(s, i)
    {
      ModUnique(i, |s.queue|, 0, i);
    }
  }

  lemma KindRepeats(s: Sys, n: nat, t: nat)
    requires AllRepeat(s)
    ensures Period(KindAt(s, n), t) > 0
  {
    assert KindAt(s, n) == s.queue[n % |s.queue|].kind;
  }

  /** A firing on time passes the turn on. */
  lemma TurnPasses(s: Sys, u: Sys, n: nat)
    requires AllRepeat(s) && AtTurn(s, u, n) && Agenda(Tick(u)) == Expected(u)
    ensures AtTurn(s, Tick(u), n + 1)
  {
    var v, size := Tick(u), |s.queue|;
    KindRepeats(s, n, Due(u, 0));
    TickLengths(u);
    TurnRound(s, n);
    KindsAfter(u);
    forall i | 0 <= i < size
      ensures v.queue[i].kind == KindAt(s, n + 1 + i) && Due(v, i) == Turn(s, n + 1 + i)
    {
      assert Agenda(v)[i] == Expected(u)[i];
      if i < size - 1 {
        TickDue(u, i);
        assert n + (i + 1) == n + 1 + i;
      }
    }
  }

  lemma KindsAfter(u: Sys)
    requires u.queue != [] && Period(u.queue[0].kind, Due(u, 0)) > 0
    ensures var n := |u.queue| - 1;
            && |Tick(u).queue| == n + 1 && Tick(u).queue[n].kind == u.queue[0].kind
            && forall i :: 0 <= i < n ==> Tick(u).queue[i].kind == u.queue[i + 1].kind
  {
    forall i | 0 <= i < |u.queue| - 1
      ensures Tick(u).queue[i].kind == u.queue[i + 1].kind
    {
      assert u.queue[1..][i] == u.queue[i + 1];
    }
  }

  /** As long as firings are on time, the turns go round. */
  lemma {:induction false} TurnsGoRound(s: Sys, n: nat)
    requires AllRepeat(s) && forall k: nat :: k < n ==> OnTime(s, k)
    ensures AtTurn(s, Ticks(s, n), n)
    decreases n
  {
    if n == 0 {
      StartAtTurn(s);
    } else {
      TurnsGoRound(s, n - 1);
      assert OnTime(s, n - 1);
      TurnPasses(s, Ticks(s, n - 1), n - 1);
    }
  }

  /** With the turns in order up to then, the n-th firing is on time. */
  lemma {:induction false} OnTimeInOrder(s: Sys, n: nat)
    requires AllRepeat(s) && forall k: nat :: Turn(s, k) <= Turn(s, k + 1)
    ensures OnTime(s, n)
    decreases n
  {
    forall k: nat | k < n
      ensures OnTime(s, k)
    {
      OnTimeInOrder(s, k);
    }
    TurnsGoRound(s, n);
    var u := Ticks(s, n);
    forall i | 0 <= i < |u.queue|
      ensures Due(u, 0) <= Due(u, i)
    {
      TurnsGrow(s, n, i);
      assert Due(u, 0) == Turn(s, n + 0);
    }
    PunctualIffHeadIsFirst(u);
  }

  lemma {:induction false} TurnsGrow(s: Sys, n: nat, i: nat)
    requires s.queue != [] && forall k: nat :: Turn(s, k) <= Turn(s, k + 1)
    ensures Turn(s, n) <= Turn(s, n + i)
    decreases i
  {
    if i == 0 {
    } else {
      TurnsGrow(s, n, i - 1);
      assert Turn(s, n + i - 1) <= Turn(s, n + i - 1 + 1);
    }
  }

  /** A firing on time means that the next turn comes no earlier. */
  lemma InOrderOnTime(s: Sys, n: nat)
    requires AllRepeat(s) && forall k: nat :: k <= n ==> OnTime(s, k)
    ensures Turn(s, n) <= Turn(s, n + 1)
  {
    var u := Ticks(s, n);
    TurnsGoRound(s, n);
    assert OnTime(s, n);
    PunctualIffHeadIsFirst(u);
    assert Due(u, 0) == Turn(s, n + 0);
    if |u.queue| == 1 {
      TurnRound(s, n);
    } else {
      assert Due(u, 1) == Turn(s, n + 1);
    }
  }

  /**
   A list of repeating timers of any kinds keeps time for ever if and only if their turns, in the
   order of the list, never go back. The turns follow from the kinds and the first delays alone.
   */
  lemma KeepsTimeIffTurnsInOrder(s: Sys)
    requires AllRepeat(s)
    ensures (forall n: nat :: OnTime(s, n)) <==> (forall n: nat :: Turn(s, n) <= Turn(s, n + 1))
  {
    if forall n: nat :: OnTime(s, n) {
      forall n: nat
        ensures Turn(s, n) <= Turn(s, n + 1)
      {
        InOrderOnTime(s, n);
      }
    }
    if forall n: nat :: Turn(s, n) <= Turn(s, n + 1) {
      forall n: nat
        ensures OnTime(s, n)
      {
        OnTimeInOrder(s, n);
      }
    }
  }

  // ---------------------------------------------------------------- a short period beside a weekly one

  lemma {:induction false} PlainTurns(p: nat, due: nat, k: nat)
    ensures DueAgain(Plain(p), due, k) == due + k * p
  {
    if k == 0 {
    } else {
      PlainTurns(p, due, k - 1);
      assert k * p == (k - 1) * p + p;
    }
  }

  lemma {:induction false} WeeklyTurns(m: mask, due: nat, k: nat)
    ensures DueAgain(Weekly(m), due, k) >= due + Days(k)
  {
    if k == 0 {
    } else {
      WeeklyTurns(m, due, k - 1);
    }
  }

  lemma TurnOf(s: Sys, i: nat, k: nat)
    requires i < |s.queue|
    ensures Turn(s, k * |s.queue| + i) == DueAgain(s.queue[i].kind, Due(s, i), k)
  {
    ModUnique(k * |s.queue| + i, |s.queue|, k, i);
  }

  /**
   A list that holds a timer with a period shorter than a day beside a weekly one never keeps time,
   whatever the delays. The ten-second timer of a test build beside a server's plans is such a list.
   */
  lemma ShortPeriodNeverKeepsTime(s: Sys, a: nat, b: nat)
    requires AllRepeat(s) && a < |s.queue| && b < |s.queue|
    requires s.queue[a].kind.Plain? && s.queue[a].kind.period < 86400 && s.queue[b].kind.Weekly?
    ensures exists n: nat :: !OnTime(s, n)
  {
    if forall n: nat :: OnTime(s, n) {
      KeepsTimeIffTurnsInOrder(s);
      var p, due, size := s.queue[a].kind.period, Due(s, a), |s.queue|;
      var k := due + p + 1;
      assert k * size + b <= (k + 1) * size + a by {
        assert (k + 1) * size == k * size + size;
      }
      TurnsGrow(s, k * size + b, (k + 1) * size + a - (k * size + b));
      TurnOf(s, b, k);
      TurnOf(s, a, k + 1);
      PlainTurns(p, due, k + 1);
      WeeklyTurns(s.queue[b].kind.m, Due(s, b), k);
      ShortFallsBehind(p, due, k);
      assert false;
    }
  }

  lemma ShortFallsBehind(p: nat, due: nat, k: nat)
    requires p < 86400 && k == due + p + 1
    ensures due + (k + 1) * p < Days(k)
  {
    assert (k + 1) * p == k * p + p;
    assert k * p <= k * 86399 by {
      assert k * (86399 - p) >= 0;
    }
  }

  // ---------------------------------------------------------------- two masks

  const MONDAYS: mask := 1
  const DAILY: mask := 127

  lemma {:induction false} NoBits(i: nat)
    ensures !BitOf(0, i)
  {
    if i == 0 {
    } else {
      NoBits(i - 1);
    }
  }

  lemma {:induction false} AllBits(n: nat, k: nat, i: nat)
    requires n + 1 == Pow2(k) && i < k
    ensures BitOf(n, i)
    decreases i
  {
    if i == 0 {
    } else {
      assert n / 2 + 1 == Pow2(k - 1);
      AllBits(n / 2, k - 1, i - 1);
    }
  }

  lemma OnlyMondays(day: nat)
    ensures CollectionDay(MONDAYS, day) <==> day % 7 == 1
  {
    var i := (day % 7 + 6) % 7;
    if i == 0 {
    } else {
      NoBits(i - 1);
    }
  }

  lemma EveryDay(day: nat)
    ensures CollectionDay(DAILY, day)
  {
    assert Pow2(3) == 8;
    assert Pow2(5) == 32;
    assert Pow2(7) == 128;
    AllBits(DAILY, 7, (day % 7 + 6) % 7);
  }

  lemma NextMonday(day: nat)
    requires day % 7 == 1
    ensures NextDay(MONDAYS, day) == day + 7
  {
    OnlyMondays(day);
    assert OnWeekday(MONDAYS, 1);
    NextDayCollects(MONDAYS, day);
    OnlyMondays(NextDay(MONDAYS, day));
  }

  lemma NextMorning(day: nat)
    ensures NextDay(DAILY, day) == day + 1
  {
    EveryDay(day + 1);
  }

  // ---------------------------------------------------------------- a start that loses an occurrence

  /** Armed at midnight on a Monday: a plan for Mondays, and later in the day a plan for every day. */
  function TwoPlans(now: nat, t0: nat, t1: nat): Sys {
    Sys([Entry(0, t0, Weekly(MONDAYS)), Entry(1, t1, Weekly(DAILY))], now)
  }

  ghost predicate MondayMidnight(now: nat, t0: nat, t1: nat) {
    SecondOf(now) == 0 && DayOf(now) % 7 == 1 && 0 < t0 < t1 < 86400
  }

  /** That is how set_time arms the two. */
  lemma TwoPlansArmed(now: nat, t0: nat, t1: nat)
    requires MondayMidnight(now, t0, t1)
    ensures FirstDelay(MONDAYS, now, t0) == t0 && FirstDelay(DAILY, now, t1) == t1
  {
    OnlyMondays(DayOf(now));
    EveryDay(DayOf(now));
  }

  lemma SameDay(now: nat, t: nat)
    requires SecondOf(now) == 0 && t < 86400
    ensures DayOf(now + t) == DayOf(now) && SecondOf(now + t) == t
  {
    DaySplit(now);
    DayJoin(DayOf(now), t);
  }

  lemma TickTwo(a: Entry, b: Entry, now: nat, p: nat)
    requires Period(a.kind, now + a.delay) == p > 0 && a.delay <= b.delay
    ensures Tick(Sys([a, b], now)) == Sys([b.(delay := b.delay - a.delay), a.(delay := p)], now + a.delay)
  {
    assert [a, b][1..] == [b];
  }

  lemma MondayPeriod(t: nat)
    requires DayOf(t) % 7 == 1
    ensures Period(Weekly(MONDAYS), t) == Days(7)
  {
    NextMonday(DayOf(t));
  }

  lemma DailyPeriod(t: nat)
    ensures Period(Weekly(DAILY), t) == Days(1)
  {
    NextMorning(DayOf(t));
  }

  /** One more firing of a queue that is not empty. */
  lemma LogStep(s: Sys, n: nat, u: Sys)
    requires Ticks(s, n) == u && u.queue != []
    ensures Ticks(s, n + 1) == Tick(u) && Log(s, n + 1) == Log(s, n) + [Firing(u.queue[0].id, Due(u, 0))]
  {
  }

  lemma LogThree(s: Sys, n: nat, u: Sys, v: Sys)
    requires Ticks(s, n) == s && Log(s, n) == [] && Tick(s) == u && Tick(u) == v
    requires s.queue != [] && u.queue != [] && v.queue != []
    ensures Ticks(s, n + 1) == u && Ticks(s, n + 2) == v && Ticks(s, n + 3) == Tick(v)
    ensures Log(s, n + 1) == [Firing(s.queue[0].id, Due(s, 0))]
    ensures Log(s, n + 2) == [Firing(s.queue[0].id, Due(s, 0)), Firing(u.queue[0].id, Due(u, 0))]
    ensures Log(s, n + 3) ==
            [Firing(s.queue[0].id, Due(s, 0)), Firing(u.queue[0].id, Due(u, 0)), Firing(v.queue[0].id, Due(v, 0))]
  {
    LogStep(s, n, s);
    LogStep(s, n + 1, u);
    LogStep(s, n + 2, v);
  }

  /** The queue after its first firing, at t0. */
  function AfterFirst(now: nat, t0: nat, t1: nat): Sys
    requires t0 < t1
  {
    Sys([Entry(1, t1 - t0, Weekly(DAILY)), Entry(0, Days(7), Weekly(MONDAYS))], now + t0)
  }

  lemma FirstFiring(now: nat, t0: nat, t1: nat)
    requires MondayMidnight(now, t0, t1)
    ensures Tick(TwoPlans(now, t0, t1)) == AfterFirst(now, t0, t1)
  {
    SameDay(now, t0);
    MondayPeriod(now + t0);
    TickTwo(Entry(0, t0, Weekly(MONDAYS)), Entry(1, t1, Weekly(DAILY)), now, Days(7));
  }

  /** And after its second, at t1. */
  lemma SecondFiring(now: nat, t0: nat, t1: nat)
    requires MondayMidnight(now, t0, t1)
    ensures Tick(AfterFirst(now, t0, t1)) ==
            Sys([Entry(0, Days(7) - (t1 - t0), Weekly(MONDAYS)), Entry(1, Days(1), Weekly(DAILY))], now + t1)
  {
    DailyPeriod(now + t1);
    TickTwo(Entry(1, t1 - t0, Weekly(DAILY)), Entry(0, Days(7), Weekly(MONDAYS)), now + t0, Days(1));
  }

  lemma TuesdayOccurs(now: nat, t1: nat)
    requires SecondOf(now) == 0 && t1 < 86400
    ensures Occurs(DAILY, t1, now + Days(1) + t1)
  {
    EveryDay(DayOf(now + Days(1) + t1));
    DaySplit(now);
    DayJoin(DayOf(now) + 1, t1);
  }

  /** What has not fired by an instant behind its due time never fires. */
  lemma {:induction false} NeverAfter(s: Sys, lost: Firing, k: nat, n: nat)
    requires k <= n && lost !in Log(s, k) && lost.time < Ticks(s, k).now
    ensures lost !in Log(s, n) && lost.time < Ticks(s, n).now
    decreases n
  {
    if n == k {
    } else {
      NeverAfter(s, lost, k, n - 1);
      if Ticks(s, n - 1).queue != [] {
        LogStep(s, n - 1, Ticks(s, n - 1));
      }
    }
  }

  /** Tuesday's occurrence of the daily plan never fires: the queue sleeps until the next Monday. */
  lemma OccurrenceLost(now: nat, t0: nat, t1: nat, n: nat)
    requires MondayMidnight(now, t0, t1)
    ensures Occurs(DAILY, t1, now + Days(1) + t1)
    ensures Firing(1, now + Days(1) + t1) !in Log(TwoPlans(now, t0, t1), n)
  {
    var s := TwoPlans(now, t0, t1);
    TuesdayOccurs(now, t1);
    FirstFiring(now, t0, t1);
    SecondFiring(now, t0, t1);
    LostBy(s, Tick(s), Tick(Tick(s)), Firing(1, now + Days(1) + t1), n);
  }

  lemma LostBy(s: Sys, u: Sys, v: Sys, lost: Firing, n: nat)
    requires Tick(s) == u && Tick(u) == v && s.queue != [] && u.queue != [] && v.queue != []
    requires Due(s, 0) != lost.time && Due(u, 0) != lost.time && lost.time < Due(v, 0)
    ensures lost !in Log(s, n)
  {
    // a variable, because with the number itself the solver would unfold the log without end
    var start: nat :| start == 0;
    LogThree(s, start, u, v);
    if 3 <= n {
      NeverAfter(s, lost, start + 3, n);
    } else {
      assert n == start || n == start + 1 || n == start + 2;
    }
  }
}
