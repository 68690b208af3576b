/**
 What one firing of timerlist/timerlist.cpp does to the queue of relative delays, as a function
 on values, and the proof that it refines a scheduler that works with absolute due times.
 */
module Scheduler {
  import opened Calendar

  datatype Kind = Plain(period: nat) | Weekly(m: mask)

  /** A queued timer: which one, how long after the last firing it is due, and how it repeats. */
  datatype Entry = Entry(id: nat, delay: nat, kind: Kind)

  /** The queue, and the instant its delays are relative to. */
  datatype Sys = Sys(queue: seq<Entry>, now: nat)

  /** get_period at an instant; zero for a timer that does not repeat. */
  function Period(kind: Kind, t: nat): nat {
    match kind
    case Plain(period) => period
    case Weekly(m) => WeeklyPeriod(m, t)
  }

  /** update_timer: everything queued is d seconds closer, but never overdue. */
  function Advance(queue: seq<Entry>, d: nat): (q: seq<Entry>)
    ensures |q| == |queue|
  {
    seq(|queue|, i requires 0 <= i < |queue| =>
      queue[i].(delay := if queue[i].delay < d then 0 else queue[i].delay - d))
  }

  /** The queue after its head has fired at an instant: a repeating timer goes to the back. */
  function Fire(queue: seq<Entry>, t: nat): seq<Entry>
    requires queue != []
  {
    var head := queue[0];
    var rest := Advance(queue[1..], head.delay);
    if Period(head.kind, t) > 0 then rest + [head.(delay := Period(head.kind, t))] else rest
  }

  /** Waiting out the head's delay and firing it. */
  function Tick(s: Sys): Sys {
    if s.queue == [] then s
    else var t := s.now + s.queue[0].delay; Sys(Fire(s.queue, t), t)
  }

  function Ticks(s: Sys, n: nat): Sys {
    if n == 0 then s else Tick(Ticks(s, n - 1))
  }

  datatype Firing = Firing(id: nat, time: nat)

  /** The first n firings, in order. */
  function Log(s: Sys, n: nat): seq<Firing> {
    if n == 0 then []
    else
      var u := Ticks(s, n - 1);
      if u.queue == [] then Log(s, n - 1) else Log(s, n - 1) + [Firing(u.queue[0].id, u.now + u.queue[0].delay)]
  }

  // ---------------------------------------------------------------- absolute due times

  function Due(s: Sys, i: nat): nat
    requires i < |s.queue|
  {
    s.now + s.queue[i].delay
  }

  /** When a timer that fires at an instant is due again. */
  function Next(kind: Kind, t: nat): nat {
    t + Period(kind, t)
  }

  /** A due time that the law of its kind can produce: on a collection day, if there is one. */
  ghost predicate Lawful(kind: Kind, t: nat) {
    kind.Weekly? && SomeDay(kind.m) ==> CollectionDay(kind.m, DayOf(t))
  }

  /**
   All timers follow one law, the queue is sorted, and the last timer is due no later than the
   first would be due again: so a timer that has just fired belongs at the back.
   */
  ghost predicate Inv(s: Sys, kind: Kind) {
    && s.queue != [] && (kind.Plain? ==> 0 < kind.period)
    && (forall i :: 0 <= i < |s.queue| ==> s.queue[i].kind == kind && Lawful(kind, Due(s, i)))
    && (forall i, j :: 0 <= i <= j < |s.queue| ==> s.queue[i].delay <= s.queue[j].delay)
    && (forall i :: 0 <= i < |s.queue| ==> Due(s, i) <= Next(kind, Due(s, 0)))
  }

  /** The queue as an absolute scheduler keeps it: which timer is due when. */
  function Agenda(s: Sys): (a: seq<Firing>)
    ensures |a| == |s.queue|
  {
    seq(|s.queue|, i requires 0 <= i < |s.queue| => Firing(s.queue[i].id, Due(s, i)))
  }

  /** One step of the absolute scheduler: the head fires and moves to the back with its next due time. */
  function Rescheduled(agenda: seq<Firing>, kind: Kind): (a: seq<Firing>)
    requires agenda != []
    ensures |a| == |agenda|
  {
    agenda[1..] + [Firing(agenda[0].id, Next(kind, agenda[0].time))]
  }

  lemma NextLawful(kind: Kind, t: nat)
    ensures Lawful(kind, Next(kind, t))
  {
    if kind.Weekly? && SomeDay(kind.m) {
      PeriodLands(kind.m, t);
      NextDayCollects(kind.m, DayOf(t));
    }
  }

  /** Among lawful due times, the one that is earlier now is earlier the next time too. */
  lemma NextMonotone(kind: Kind, t: nat, u: nat)
    requires Lawful(kind, t) && Lawful(kind, u) && t <= u
    ensures Next(kind, t) <= Next(kind, u)
  {
    if kind.Weekly? {
      var m := kind.m;
      DaySplit(t);
      DaySplit(u);
      PeriodLands(m, t);
      PeriodLands(m, u);
      DaySplit(Next(kind, t));
      DaySplit(Next(kind, u));
      assert DayOf(t) <= DayOf(u);
      if SomeDay(m) {
        if DayOf(t) < DayOf(u) {
          assert NextDay(m, DayOf(t)) <= DayOf(u);
        }
      } else {
        EmptyMaskNextDay(m, DayOf(t));
        EmptyMaskNextDay(m, DayOf(u));
      }
    }
  }

  /**
   Under the invariant one firing is a step of the absolute scheduler: no other timer's due time
   moves, so the clamp at zero never acts; and the invariant holds again.
   */
  lemma TickOnTime(s: Sys, kind: Kind)
    requires Inv(s, kind)
    ensures Tick(s).now == Due(s, 0)
    ensures Agenda(Tick(s)) == Rescheduled(Agenda(s), kind) && Inv(Tick(s), kind)
  {
    TickAgenda(s, kind);
    TickInv(s, kind);
  }

  lemma TickAgenda(s: Sys, kind: Kind)
    requires Inv(s, kind)
    ensures Agenda(Tick(s)) == Rescheduled(Agenda(s), kind)
  {
    TickShape(s, kind);
  }

  lemma TickInv(s: Sys, kind: Kind)
    requires Inv(s, kind)
    ensures Tick(s).now == Due(s, 0) && Inv(Tick(s), kind)
  {
    var s', d := Tick(s), Due(s, 0);
    TickDues(s, s', kind);
    NextLawful(kind, d);
    NextMonotone(kind, d, Due(s', 0));
  }

  /** Everyone moves up one place and keeps the due time, except the head. */
  lemma TickDues(s: Sys, s': Sys, kind: Kind)
    requires Inv(s, kind) && s' == Tick(s)
    ensures s'.now == Due(s, 0) && |s'.queue| == |s.queue|
    ensures forall i :: 0 <= i < |s.queue| - 1 ==>
              s'.queue[i].kind == s.queue[i + 1].kind && Due(s', i) == Due(s, i + 1)
    ensures s'.queue[|s.queue| - 1].kind == kind && Due(s', |s.queue| - 1) == Next(kind, Due(s, 0))
  {
    TickShape(s, kind);
  }

  lemma TickShape(s: Sys, kind: Kind)
    requires Inv(s, kind)
    ensures Tick(s).now == Due(s, 0) && |Tick(s).queue| == |s.queue|
    ensures forall i :: 0 <= i < |s.queue| - 1 ==>
              Tick(s).queue[i] == s.queue[i + 1].(delay := s.queue[i + 1].delay - s.queue[0].delay)
    ensures Tick(s).queue[|s.queue| - 1] == s.queue[0].(delay := Period(kind, Due(s, 0)))
  {
    var s' := Tick(s);
    forall i | 0 <= i < |s.queue| - 1
      ensures s'.queue[i] == s.queue[i + 1].(delay := s.queue[i + 1].delay - s.queue[0].delay)
    {
      assert s.queue[1..][i] == s.queue[i + 1];
    }
  }

  lemma {:induction false} TicksInv(s: Sys, kind: Kind, n: nat)
    requires Inv(s, kind)
    ensures Inv(Ticks(s, n), kind) && |Ticks(s, n).queue| == |s.queue|
  {
    if n == 0 {
    } else {
      TicksInv(s, kind, n - 1);
      TickOnTime(Ticks(s, n - 1), kind);
    }
  }
}
