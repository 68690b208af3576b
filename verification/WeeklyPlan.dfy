/**
 Plans that share one day mask, as the plan lists of gw/gw.cpp create them: every run of the
 relative-delay queue fires each plan exactly once at each of its occurrences, in time order.
 */
module WeeklyPlan {
  import opened Calendar
  import opened Scheduler

  /** The plans' times of day, by timer. */
  type Plans = map<nat, nat>

  /**
   The queue that start hands over: one weekly timer for each plan, armed by set_time at the
   same instant, in the order of their delays. Ties may come in any order.
   */
  ghost predicate Started(s: Sys, m: mask, plans: Plans) {
    && s.queue != []
    && (forall id :: id in plans ==> plans[id] < 86400)
    && HasPlans(Agenda(s), plans)
    && (forall i :: 0 <= i < |s.queue| ==>
          s.queue[i].kind == Weekly(m) && s.queue[i].delay == FirstDelay(m, s.now, plans[Agenda(s)[i].id]))
    && (forall i, j :: 0 <= i <= j < |s.queue| ==> s.queue[i].delay <= s.queue[j].delay)
  }

  /** The queue holds exactly one timer for each plan. */
  ghost predicate HasPlans(agenda: seq<Firing>, plans: Plans) {
    && (forall i :: 0 <= i < |agenda| ==> agenda[i].id in plans)
    && (forall id :: id in plans ==> exists i :: 0 <= i < |agenda| && agenda[i].id == id)
    && (forall i, j :: 0 <= i < j < |agenda| ==> agenda[i].id != agenda[j].id)
  }

  /** The first due times lie close enough together, for every mask, empty or not. */
  lemma StartedInv(s: Sys, m: mask, plans: Plans)
    requires Started(s, m, plans)
    ensures Inv(s, Weekly(m))
  {
    forall i | 0 <= i < |s.queue|
      ensures Lawful(Weekly(m), Due(s, i)) && Due(s, i) <= Next(Weekly(m), Due(s, 0))
    {
      DueCloseToFirst(s, m, plans, i);
    }
  }

  lemma DueCloseToFirst(s: Sys, m: mask, plans: Plans, i: nat)
    requires Started(s, m, plans) && i < |s.queue|
    ensures Lawful(Weekly(m), Due(s, i)) && Due(s, i) <= Next(Weekly(m), Due(s, 0))
  {
    var first := PlanOf(s, m, plans, 0);
    var tod := PlanOf(s, m, plans, i);
    FirstDuesClose(m, s.now, first, Due(s, 0), tod, Due(s, i));
  }

  lemma PlanOf(s: Sys, m: mask, plans: Plans, i: nat) returns (tod: nat)
    requires Started(s, m, plans) && i < |s.queue|
    ensures tod < 86400 && s.queue[i].delay == FirstDelay(m, s.now, tod)
  {
    assert Agenda(s)[i].id in plans;
    tod := plans[Agenda(s)[i].id];
  }

  lemma FirstDuesClose(m: mask, now: nat, tod0: nat, u: nat, tod: nat, v: nat)
    requires tod0 < 86400 && tod < 86400
    requires u == now + FirstDelay(m, now, tod0) && v == now + FirstDelay(m, now, tod)
    ensures Lawful(Weekly(m), v) && v <= Next(Weekly(m), u)
  {
    FirstDue(m, now, tod0);
    FirstDue(m, now, tod);
    if SomeDay(m) {
      NextDayCollects(m, DayOf(now));
    }
    DaySplit(v);
    PeriodLands(m, u);
    DaySplit(Next(Weekly(m), u));
  }

  // ---------------------------------------------------------------- exactly the occurrences

  /**
   What has fired when the absolute scheduler has come to an agenda: of each plan exactly the
   occurrences after the start and before its next due time, none twice, in time order.
   */
  ghost predicate FiredExactly(start: nat, m: mask, plans: Plans, log: seq<Firing>, agenda: seq<Firing>) {
    && HasPlans(agenda, plans)
    && (forall i :: 0 <= i < |agenda| ==> PlanExact(start, m, plans, log, agenda[i]))
    && (forall k :: 0 <= k < |log| ==> log[k].id in plans)
    && (forall k, i :: 0 <= k < |log| && 0 <= i < |agenda| ==> log[k].time <= agenda[i].time)
    && (forall j, k :: 0 <= j < k < |log| ==> log[j] != log[k] && log[j].time <= log[k].time)
  }

  /** One plan, next due as given, has fired at exactly its occurrences up to then. */
  ghost predicate PlanExact(start: nat, m: mask, plans: Plans, log: seq<Firing>, due: Firing) {
    && due.id in plans
    && start < due.time && Occurs(m, plans[due.id], due.time)
    && forall t: nat :: Firing(due.id, t) in log <==> start < t < due.time && Occurs(m, plans[due.id], t)
  }

  /** The next due time of a plan is its next occurrence. */
  lemma NextIsNext(m: mask, tod: nat, d: nat)
    requires SomeDay(m) && Occurs(m, tod, d)
    ensures Occurs(m, tod, Next(Weekly(m), d)) && d < Next(Weekly(m), d)
    ensures forall t: nat :: d < t && Occurs(m, tod, t) ==> Next(Weekly(m), d) <= t
  {
    PeriodLands(m, d);
    NextDayCollects(m, DayOf(d));
    DaySplit(d);
    DaySplit(Next(Weekly(m), d));
    forall t: nat | d < t && Occurs(m, tod, t)
      ensures Next(Weekly(m), d) <= t
    {
      DaySplit(t);
      assert DayOf(d) < DayOf(t);
    }
  }

  lemma StartExact(s: Sys, m: mask, plans: Plans)
    requires Started(s, m, plans) && SomeDay(m)
    ensures FiredExactly(s.now, m, plans, [], Agenda(s))
  {
    forall i | 0 <= i < |s.queue|
      ensures PlanExact(s.now, m, plans, [], Agenda(s)[i])
    {
      FirstDelayIsLeast(m, s.now, plans[s.queue[i].id]);
    }
  }

  lemma StepPlans(agenda: seq<Firing>, kind: Kind, plans: Plans)
    requires agenda != [] && HasPlans(agenda, plans)
    ensures HasPlans(Rescheduled(agenda, kind), plans)
  {
    var a, n := Rescheduled(agenda, kind), |agenda|;
    forall id | id in plans
      ensures exists i :: 0 <= i < n && a[i].id == id
    {
      var i :| 0 <= i < n && agenda[i].id == id;
      assert a[if i == 0 then n - 1 else i - 1].id == id;
    }
  }

  lemma PlanUnmoved(start: nat, m: mask, plans: Plans, log: seq<Firing>, due: Firing, head: Firing)
    requires PlanExact(start, m, plans, log, due) && due.id != head.id
    ensures PlanExact(start, m, plans, log + [head], due)
  {
  }

  lemma PlanFires(start: nat, m: mask, plans: Plans, log: seq<Firing>, head: Firing)
    requires SomeDay(m) && PlanExact(start, m, plans, log, head)
    ensures PlanExact(start, m, plans, log + [head], Firing(head.id, Next(Weekly(m), head.time)))
  {
    NextIsNext(m, plans[head.id], head.time);
  }

  lemma StepExact(start: nat, m: mask, plans: Plans, log: seq<Firing>, agenda: seq<Firing>)
    requires SomeDay(m) && agenda != [] && FiredExactly(start, m, plans, log, agenda)
    requires forall i :: 0 <= i < |agenda| ==> agenda[0].time <= agenda[i].time
    ensures FiredExactly(start, m, plans, log + [agenda[0]], Rescheduled(agenda, Weekly(m)))
  {
    var a, n, log' := Rescheduled(agenda, Weekly(m)), |agenda|, log + [agenda[0]];
    StepPlans(agenda, Weekly(m), plans);
    PlanFires(start, m, plans, log, agenda[0]);
    forall i | 0 <= i < n
      ensures PlanExact(start, m, plans, log', a[i])
    {
      if i < n - 1 {
        PlanUnmoved(start, m, plans, log, agenda[i + 1], agenda[0]);
      }
    }
    StepLog(start, m, plans, log, agenda);
  }

  lemma StepLog(start: nat, m: mask, plans: Plans, log: seq<Firing>, agenda: seq<Firing>)
    requires agenda != [] && FiredExactly(start, m, plans, log, agenda)
    requires forall i :: 0 <= i < |agenda| ==> agenda[0].time <= agenda[i].time
    ensures var log', a := log + [agenda[0]], Rescheduled(agenda, Weekly(m));
            && (forall k, i :: 0 <= k < |log'| && 0 <= i < |a| ==> log'[k].time <= a[i].time)
            && (forall j, k :: 0 <= j < k < |log'| ==> log'[j] != log'[k] && log'[j].time <= log'[k].time)
  {
    var head := agenda[0];
    assert PlanExact(start, m, plans, log, head);
    assert Firing(head.id, head.time) !in log;
  }

  lemma {:induction false} LogFrom(s: Sys, m: mask, plans: Plans, n: nat)
    requires SomeDay(m) && Inv(s, Weekly(m)) && FiredExactly(s.now, m, plans, [], Agenda(s))
    ensures |Log(s, n)| == n && Inv(Ticks(s, n), Weekly(m))
    ensures FiredExactly(s.now, m, plans, Log(s, n), Agenda(Ticks(s, n)))
  {
    if n == 0 {
    } else {
      var u := Ticks(s, n - 1);
      LogFrom(s, m, plans, n - 1);
      TickOnTime(u, Weekly(m));
      LogGrows(s, n);
      TickExact(s.now, m, plans, Log(s, n - 1), u);
    }
  }

  lemma LogGrows(s: Sys, n: nat)
    requires 0 < n && Ticks(s, n - 1).queue != []
    ensures var u := Ticks(s, n - 1);
            Log(s, n) == Log(s, n - 1) + [Firing(u.queue[0].id, Due(u, 0))] && Ticks(s, n) == Tick(u)
  {
  }

  lemma LogExact(s: Sys, m: mask, plans: Plans, n: nat)
    requires Started(s, m, plans) && SomeDay(m)
    ensures |Log(s, n)| == n && Inv(Ticks(s, n), Weekly(m))
    ensures FiredExactly(s.now, m, plans, Log(s, n), Agenda(Ticks(s, n)))
  {
    StartedInv(s, m, plans);
    StartExact(s, m, plans);
    LogFrom(s, m, plans, n);
  }

  lemma TickExact(start: nat, m: mask, plans: Plans, log: seq<Firing>, u: Sys)
    requires SomeDay(m) && Inv(u, Weekly(m)) && FiredExactly(start, m, plans, log, Agenda(u))
    ensures Tick(u).now == Due(u, 0)
    ensures FiredExactly(start, m, plans, log + [Firing(u.queue[0].id, Due(u, 0))], Agenda(Tick(u)))
  {
    TickOnTime(u, Weekly(m));
    StepExact(start, m, plans, log, Agenda(u));
  }

  // ---------------------------------------------------------------- the theorems

  /** Whatever fires is an occurrence of its plan after the start, and fires only once, in time order. */
  lemma OnlyOccurrencesFire(s: Sys, m: mask, plans: Plans, n: nat, k: nat)
    requires Started(s, m, plans) && SomeDay(m) && k < n
    ensures var log := Log(s, n);
            && |log| == n && log[k].id in plans
            && s.now < log[k].time && Occurs(m, plans[log[k].id], log[k].time)
            && (forall j :: 0 <= j < k ==> log[j] != log[k] && log[j].time <= log[k].time)
  {
    LogExact(s, m, plans, n);
    FiredIsOccurrence(s.now, m, plans, Log(s, n), Agenda(Ticks(s, n)), k);
  }

  lemma PlanIndex(agenda: seq<Firing>, plans: Plans, id: nat) returns (i: nat)
    requires HasPlans(agenda, plans) && id in plans
    ensures i < |agenda| && agenda[i].id == id
  {
    i :| 0 <= i < |agenda| && agenda[i].id == id;
  }

  lemma FiredIsOccurrence(start: nat, m: mask, plans: Plans, log: seq<Firing>, agenda: seq<Firing>, k: nat)
    requires FiredExactly(start, m, plans, log, agenda) && k < |log|
    ensures log[k].id in plans && start < log[k].time && Occurs(m, plans[log[k].id], log[k].time)
  {
    assert log[k].id in plans;
    var i := PlanIndex(agenda, plans, log[k].id);
    assert PlanExact(start, m, plans, log, agenda[i]);
    assert log[k] == Firing(agenda[i].id, log[k].time);
  }

  /** The first n firings are the n earliest: an occurrence not among them is no earlier than any of them. */
  lemma EarliestFirst(s: Sys, m: mask, plans: Plans, n: nat, id: nat, t: nat)
    requires Started(s, m, plans) && SomeDay(m)
    requires id in plans && s.now < t && Occurs(m, plans[id], t)
    ensures Firing(id, t) in Log(s, n) || forall k :: 0 <= k < |Log(s, n)| ==> Log(s, n)[k].time <= t
  {
    LogExact(s, m, plans, n);
    var a := Agenda(Ticks(s, n));
    var i :| 0 <= i < |a| && a[i].id == id;
    assert PlanExact(s.now, m, plans, Log(s, n), a[i]);
  }

  // ---------------------------------------------------------------- every occurrence is reached

  function TotalDue(queue: seq<Entry>, now: nat): nat {
    if queue == [] then 0 else now + queue[0].delay + TotalDue(queue[1..], now)
  }

  lemma {:induction false} TotalShift(queue: seq<Entry>, queue': seq<Entry>, now: nat, now': nat)
    requires |queue| == |queue'|
    requires forall i :: 0 <= i < |queue| ==> now + queue[i].delay == now' + queue'[i].delay
    ensures TotalDue(queue, now) == TotalDue(queue', now')
  {
    if queue == [] {
    } else {
      TotalShift(queue[1..], queue'[1..], now, now');
    }
  }

  lemma {:induction false} TotalAppend(queue: seq<Entry>, e: Entry, now: nat)
    ensures TotalDue(queue + [e], now) == TotalDue(queue, now) + now + e.delay
  {
    if queue == [] {
      assert (queue + [e])[1..] == [];
    } else {
      assert (queue + [e])[1..] == queue[1..] + [e];
      TotalAppend(queue[1..], e, now);
    }
  }

  lemma {:induction false} TotalBound(queue: seq<Entry>, now: nat, bound: nat)
    requires forall i :: 0 <= i < |queue| ==> now + queue[i].delay <= bound
    ensures TotalDue(queue, now) <= |queue| * bound
  {
    if queue == [] {
    } else {
      TotalBound(queue[1..], now, bound);
      assert |queue| * bound == bound + (|queue| - 1) * bound;
    }
  }

  lemma TickTotal(s: Sys, kind: Kind)
    requires Inv(s, kind)
    ensures TotalDue(s.queue, s.now) < TotalDue(Tick(s).queue, Tick(s).now)
  {
    var q, q', n := s.queue, Tick(s).queue, |s.queue|;
    TickShape(s, kind);
    TotalShift(q[1..], q'[..n - 1], s.now, Tick(s).now);
    TotalAppend(q'[..n - 1], q'[n - 1], Tick(s).now);
    assert q' == q'[..n - 1] + [q'[n - 1]];
  }

  /** The due times add up to that much; named so that a proof passes it on as one fact. */
  ghost predicate AddUp(s: Sys, n: nat) {
    var adds := n <= TotalDue(s.queue, s.now);
    adds
  }

  lemma {:induction false} TicksTotal(s: Sys, kind: Kind, n: nat)
    requires Inv(s, kind)
    ensures AddUp(Ticks(s, n), n)
  {
    if n == 0 {
    } else {
      TicksTotal(s, kind, n - 1);
      TicksInv(s, kind, n - 1);
      TotalOneMore(Ticks(s, n - 1), kind, n - 1);
    }
  }

  lemma TotalOneMore(u: Sys, kind: Kind, n: nat)
    requires Inv(u, kind) && AddUp(u, n)
    ensures AddUp(Tick(u), n + 1)
  {
    TickTotal(u, kind);
  }

  /** More firings than can be due by an instant's next due time. */
  function Firings(s: Sys, kind: Kind, t: nat): nat {
    |s.queue| * Next(kind, t)
  }

  lemma PassedBy(s: Sys, kind: Kind, t: nat, limit: nat)
    requires Inv(s, kind) && Lawful(kind, t) && limit == Firings(s, kind, t)
    ensures Inv(Ticks(s, limit + 1), kind) && t < Due(Ticks(s, limit + 1), 0)
  {
    TicksInv(s, kind, limit + 1);
    TicksTotal(s, kind, limit + 1);
    HeadIsLater(Ticks(s, limit + 1), kind, t, |s.queue|, limit);
  }

  /** While the head is due by an instant, everything is due by the head's next due time after it. */
  lemma HeadIsLater(u: Sys, kind: Kind, t: nat, size: nat, limit: nat)
    requires Inv(u, kind) && Lawful(kind, t) && |u.queue| == size && limit == size * Next(kind, t)
    requires limit < TotalDue(u.queue, u.now)
    ensures t < Due(u, 0)
  {
    if Due(u, 0) <= t {
      NextMonotone(kind, Due(u, 0), t);
      AllDueBy(u, kind, Next(kind, t));
      TotalBound(u.queue, u.now, Next(kind, t));
    }
  }

  lemma AllDueBy(u: Sys, kind: Kind, bound: nat)
    requires Inv(u, kind) && Next(kind, Due(u, 0)) <= bound
    ensures forall i :: 0 <= i < |u.queue| ==> u.now + u.queue[i].delay <= bound
  {
    forall i | 0 <= i < |u.queue|
      ensures u.now + u.queue[i].delay <= bound
    {
      assert Due(u, i) <= Next(kind, Due(u, 0));
    }
  }

  /** Every instant is passed: after enough firings the head is due later. */
  lemma TimePasses(s: Sys, kind: Kind, t: nat) returns (n: nat)
    requires Inv(s, kind) && Lawful(kind, t)
    ensures Inv(Ticks(s, n), kind) && t < Due(Ticks(s, n), 0)
  {
    n := Firings(s, kind, t) + 1;
    PassedBy(s, kind, t, Firings(s, kind, t));
  }

  /** No occurrence of any plan is missed: after finitely many firings it has fired. */
  lemma EveryOccurrenceFires(s: Sys, m: mask, plans: Plans, id: nat, t: nat)
    requires Started(s, m, plans) && SomeDay(m)
    requires id in plans && s.now < t && Occurs(m, plans[id], t)
    ensures exists n: nat :: Firing(id, t) in Log(s, n)
  {
    StartedInv(s, m, plans);
    var n := TimePasses(s, Weekly(m), t);
    LogExact(s, m, plans, n);
    var a := Agenda(Ticks(s, n));
    var i :| 0 <= i < |a| && a[i].id == id;
    assert PlanExact(s.now, m, plans, Log(s, n), a[i]);
    assert Firing(id, t) in Log(s, n);
  }
}
