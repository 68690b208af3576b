/**
 The timer list of timerlist/timerlist.cpp: the list being served, the list being prepared, and
 the delay the event loop is armed with. Each method is tied to the queue functions of Scheduler.
 */
module TimerList {
  import opened Bytes
  import opened Options
  import opened Calendar
  import opened Scheduler
  import opened Timers
  import MixedMasks
  import WeeklyPlan

  // ---------------------------------------------------------------- lists of timers as queues

  ghost predicate Distinct(ts: seq<Timer>) {
    forall i, j :: 0 <= i < j < |ts| ==> ts[i] != ts[j]
  }

  ghost predicate Armed(ts: seq<Timer>)
    reads ts
  {
    forall i :: 0 <= i < |ts| ==> 0 <= ts[i].tvSec && 0 <= ts[i].tvUsec
  }

  /** The entries a list of timers stands for. */
  ghost function Queue(ts: seq<Timer>): (q: seq<Entry>)
    requires Armed(ts)
    reads ts
    ensures |q| == |ts|
  {
    seq(|ts|, i requires 0 <= i < |ts| reads ts requires Armed(ts) => ts[i].AsEntry())
  }

  /** compare_timer: seconds first, then microseconds; a timer does not come after its equal. */
  predicate CompareTimer(first: Timer, second: Timer)
    reads first, second
  {
    first.tvSec < second.tvSec || (first.tvSec == second.tvSec && first.tvUsec <= second.tvUsec)
  }

  /** That is the order of the times in microseconds. */
  lemma ComparesTimes(first: Timer, second: Timer)
    requires 0 <= first.tvUsec < 1_000_000 && 0 <= second.tvUsec < 1_000_000
    ensures CompareTimer(first, second) <==>
              1_000_000 * first.tvSec + first.tvUsec <= 1_000_000 * second.tvSec + second.tvUsec
  {
  }

  ghost predicate Sorted(ts: seq<Timer>)
    reads ts
  {
    forall i, j :: 0 <= i < j < |ts| ==> CompareTimer(ts[i], ts[j])
  }

  /** Puts one more timer into a sorted list, after its equals. */
  method Insert(ts: seq<Timer>, tm: Timer) returns (r: seq<Timer>)
    requires Sorted(ts)
    ensures Sorted(r) && multiset(r) == multiset(ts) + multiset{tm}
  {
    var k := |ts|;
    while 0 < k && !CompareTimer(ts[k - 1], tm)
      invariant 0 <= k <= |ts|
      invariant forall i :: k <= i < |ts| ==> !CompareTimer(ts[i], tm)
    {
      k := k - 1;
    }
    r := ts[..k] + [tm] + ts[k..];
    InsertSorted(ts, k, tm);
    assert ts == ts[..k] + ts[k..];
  }

  lemma InsertSorted(ts: seq<Timer>, k: nat, tm: Timer)
    requires Sorted(ts) && k <= |ts|
    requires k != 0 ==> CompareTimer(ts[k - 1], tm)
    requires forall i :: k <= i < |ts| ==> !CompareTimer(ts[i], tm)
    ensures Sorted(ts[..k] + [tm] + ts[k..])
  {
    forall i | 0 <= i < k
      ensures CompareTimer(ts[i], tm)
    {
      assert i < k - 1 ==> CompareTimer(ts[i], ts[k - 1]);
    }
    assert forall i :: k <= i < |ts| ==> CompareTimer(tm, ts[i]);
  }

  /** Stands for list::sort, which leaves some sorted arrangement of the same timers. */
  method Sort(ts: seq<Timer>) returns (r: seq<Timer>)
    ensures Sorted(r) && multiset(r) == multiset(ts)
  {
    r := [];
    for i := 0 to |ts|
      invariant Sorted(r) && multiset(r) == multiset(ts[..i])
    {
      r := Insert(r, ts[i]);
      assert ts[..i + 1] == ts[..i] + [ts[i]];
    }
    assert ts[..|ts|] == ts;
  }

  lemma DistinctByCount(ts: seq<Timer>, rs: seq<Timer>)
    requires Distinct(ts) && multiset(rs) == multiset(ts)
    ensures Distinct(rs) && |rs| == |ts|
    ensures forall t :: t in rs <==> t in ts
  {
    CountsAtMostOne(ts);
    assert |multiset(rs)| == |multiset(ts)|;
    forall i, j | 0 <= i < j < |rs|
      ensures rs[i] != rs[j]
    {
      if rs[i] == rs[j] {
        CountsTwice(rs, i, j);
      }
    }
    forall t
      ensures t in rs <==> t in ts
    {
      assert t in rs <==> t in multiset(rs);
      assert t in ts <==> t in multiset(ts);
    }
  }

  lemma CountsTwice(rs: seq<Timer>, i: nat, j: nat)
    requires i < j < |rs| && rs[i] == rs[j]
    ensures multiset(rs)[rs[i]] >= 2
  {
    assert rs == rs[..j] + [rs[j]] + rs[j + 1..];
    assert rs[i] in rs[..j];
    assert rs[i] in multiset(rs[..j]);
  }

  lemma {:induction false} CountsAtMostOne(ts: seq<Timer>)
    requires Distinct(ts)
    ensures forall t :: multiset(ts)[t] <= 1
  {
    if ts == [] {
    } else {
      CountsAtMostOne(ts[1..]);
      assert ts == [ts[0]] + ts[1..];
      assert ts[0] !in ts[1..];
      assert ts[0] !in multiset(ts[1..]);
    }
  }

  // ---------------------------------------------------------------- the list

  class TimerList {
    var list: seq<Timer>
    var tempList: seq<Timer>
    // What evtimer_add was last called with.
    var pending: Option<int>
    // Whose callbacks have been called, and when.
    var fired: seq<Firing>

    ghost predicate Valid()
      reads this, list, tempList
    {
      && Distinct(list) && Armed(list)
      && Distinct(tempList) && Armed(tempList) && Sorted(tempList)
      && (forall t :: t in list ==> t !in tempList)
    }

    constructor ()
      ensures Valid() && list == tempList == [] && pending == None && fired == []
    {
      list, tempList, pending, fired := [], [], None, [];
    }

    method AddTimer(tm: Timer)
      requires Valid() && tm !in tempList && tm !in list && 0 <= tm.tvSec && 0 <= tm.tvUsec
      modifies this`tempList
      ensures Valid()
      ensures multiset(tempList) == multiset(old(tempList)) + multiset{tm}
      ensures forall t :: t in tempList <==> t in old(tempList) || t == tm
    {
      ghost var pushed := tempList + [tm];
      var sorted := Sort(tempList + [tm]);
      DistinctByCount(pushed, sorted);
      assert forall i :: 0 <= i < |sorted| ==> sorted[i] in pushed;
      tempList := sorted;
    }

    /**
     Takes over the prepared list, if there is one, and arms the event for its first timer. With no
     timer at all the source takes the front of an empty list, of which nothing can be said.
     */
    method Start()
      requires Valid()
      modifies this`list, this`tempList, this`pending
      ensures Valid() && tempList == []
      ensures list == if old(tempList) != [] then old(tempList) else old(list)
      ensures list != [] ==> pending == Some(list[0].tvSec)
    {
      if tempList != [] {
        list := tempList;
      }
      tempList := [];
      ArmForFront();
    }

    /** Arms the event for the front of the list; what an empty list has at its front is unknown. */
    method ArmForFront()
      requires Distinct(list) && Armed(list)
      modifies this`pending
      ensures list != [] ==> pending == Some(list[0].tvSec)
    {
      if list == [] {
        pending := *;
      } else {
        var tm := list[0];
        pending := Some(tm.tvSec);
      }
    }

    method CleanTimers()
      requires Valid()
      modifies this`tempList
      ensures Valid() && tempList == []
    {
      tempList := [];
    }

    /** Everything in the list is sec closer, but never overdue. */
    method UpdateTimer(sec: nat)
      requires Distinct(list) && Armed(list)
      modifies list
      ensures Armed(list) && Queue(list) == Advance(old(Queue(list)), sec)
      ensures forall t :: t in list ==>
                t.weekMask == old(t.weekMask) && t.period == old(t.period) && t.tvUsec == old(t.tvUsec)
    {
      for k := 0 to |list|
        invariant forall i :: 0 <= i < |list| ==> list[i].tvUsec == old(list[i].tvUsec)
        invariant forall i :: 0 <= i < |list| ==>
                    list[i].weekMask == old(list[i].weekMask) && list[i].period == old(list[i].period)
        invariant forall i :: 0 <= i < k ==>
                    list[i].tvSec == if old(list[i].tvSec) < sec then 0 else old(list[i].tvSec) - sec
        invariant forall i :: k <= i < |list| ==> list[i].tvSec == old(list[i].tvSec)
      {
        var tempSec := list[k].tvSec - sec;
        if tempSec < 0 {
          tempSec := 0;
        }
        var ok := list[k].SetTime(tempSec, list[k].tvUsec);
      }
    }

    /**
     The event callback at an instant: calls the head's callback, moves everything else up, puts the
     head at the back if it repeats, and arms the event for the new head. If nothing is left the source
     takes the front of an empty list all the same.
     */
    method OnTimer(now: nat)
      requires Valid()
      modifies this`list, this`pending, this`fired, list
      ensures fired == old(fired) + if old(list) == [] then [] else [Firing(old(list)[0].id, now)]
      ensures forall t :: t in old(list) ==> t.tvUsec == old(t.tvUsec)
      ensures Valid() && tempList == old(tempList)
      ensures old(list) == [] ==> list == [] && pending == old(pending)
      ensures old(list) != [] ==> Queue(list) == Fire(old(Queue(list)), now)
      ensures list != [] ==> pending == Some(list[0].tvSec)
      ensures forall t :: t in list ==> t in old(list)
    {
      if list == [] {
        return;
      }
      assert forall i :: 0 <= i < |tempList| ==> tempList[i] in tempList && tempList[i] !in list;
      fired := fired + [Firing(list[0].id, now)];
      FireHead(now);
      ArmForFront();
    }

    /** One event: the delay that it is armed with passes, and it calls back. */
    method ServeOne(now: nat, ghost s: Sys) returns (later: nat)
      requires Valid() && list != [] && pending == Some(list[0].tvSec) && s == Sys(Queue(list), now)
      modifies this`list, this`pending, this`fired, list
      ensures Valid() && (list != [] ==> pending == Some(list[0].tvSec))
      ensures forall t :: t in list ==> t in old(list)
      ensures Sys(Queue(list), later) == Tick(s) && fired == old(fired) + [Firing(s.queue[0].id, Due(s, 0))]
    {
      assert s.queue[0] == list[0].AsEntry();
      later := now + pending.value;
      OnTimer(later);
    }

    /**
     The event loop, for n events or until no timer is left: what has fired, and when, is the log of the
     queue that it was started with.
     */
    method Serve(n: nat, start: nat) returns (k: nat, now: nat)
      requires Valid() && (list != [] ==> pending == Some(list[0].tvSec))
      modifies this`list, this`pending, this`fired, list
      ensures Valid() && k <= n && (k < n ==> list == [])
      ensures var s := Sys(old(Queue(list)), start);
              Sys(Queue(list), now) == Ticks(s, k) && fired == old(fired) + Log(s, k)
    {
      ghost var s, u, was, all := Sys(Queue(list), start), Sys(Queue(list), start), fired, list;
      k, now := 0, start;
      while k < n && list != []
        invariant Valid() && k <= n && (list != [] ==> pending == Some(list[0].tvSec))
        invariant forall t :: t in list ==> t in all
        invariant Sys(Queue(list), now) == u && Served(s, k, u, was, fired)
      {
        assert forall i :: 0 <= i < |list| ==> list[i] in all;
        ServedOn(s, k, u, was, fired);
        now := ServeOne(now, u);
        u, k := Tick(u), k + 1;
      }
    }

    method FireHead(now: nat)
      requires list != [] && Distinct(list) && Armed(list)
      modifies this`list, list
      ensures Distinct(list) && Armed(list)
      ensures Queue(list) == Fire(old(Queue(list)), now)
      ensures forall t :: t in list ==> t in old(list)
      ensures forall t :: t in old(list) ==> t.tvUsec == old(t.tvUsec)
    {
      var tm := list[0];
      PopAndUpdate();
      var period := tm.GetPeriod(now);
      if period > 0 {
        var ok := tm.SetTime(period, tm.tvUsec);
        PushBack(tm);
      }
    }

    /** The head leaves the list as it is, and the others are its delay closer. */
    method PopAndUpdate()
      requires list != [] && Distinct(list) && Armed(list)
      modifies this`list, list
      ensures list == old(list)[1..] && old(list)[0] !in list && Distinct(list) && Armed(list)
      ensures Queue(list) == Advance(old(Queue(list))[1..], old(list[0].tvSec))
      ensures unchanged(old(list)[0])
      ensures forall t :: t in old(list) ==> t.tvUsec == old(t.tvUsec)
    {
      var tm := list[0];
      PopFront();
      assert forall i :: 0 <= i < |old(list)| ==> old(list)[i] == tm || old(list)[i] == list[i - 1];
      UpdateTimer(tm.tvSec);
    }

    method PopFront()
      requires list != [] && Distinct(list) && Armed(list)
      modifies this`list
      ensures list == old(list)[1..] && old(list)[0] !in list && Distinct(list) && Armed(list)
      ensures Queue(list) == old(Queue(list))[1..]
    {
      list := list[1..];
    }

    method PushBack(tm: Timer)
      requires Distinct(list) && Armed(list) && tm !in list && 0 <= tm.tvSec && 0 <= tm.tvUsec
      modifies this`list
      ensures list == old(list) + [tm] && Distinct(list) && Armed(list)
      ensures Queue(list) == old(Queue(list)) + [tm.AsEntry()]
    {
      list := list + [tm];
    }
  }

  /** Where k events have led, and what has fired since; named so that a proof passes it on as one fact. */
  ghost predicate Served(s: Sys, k: nat, u: Sys, was: seq<Firing>, fired: seq<Firing>) {
    var served := u == Ticks(s, k) && fired == was + Log(s, k);
    served
  }

  lemma ServedOn(s: Sys, k: nat, u: Sys, was: seq<Firing>, fired: seq<Firing>)
    requires Served(s, k, u, was, fired) && u.queue != []
    ensures Served(s, k + 1, Tick(u), was, fired + [Firing(u.queue[0].id, Due(u, 0))])
  {
    assert was + Log(s, k) + [Firing(u.queue[0].id, Due(u, 0))] == was + Log(s, k + 1);
  }

  // ---------------------------------------------------------------- loading a plan list

  /** The day mask a server's collectCycle stands for. */
  function CycleMask(collectCycle: int): mask {
    collectCycle % 256 % 128
  }

  /** The times of day of the plans that could be parsed, by their timers' numbers, which go on from first. */
  ghost function Times(first: nat, plans: seq<Option<nat>>): WeeklyPlan.Plans {
    if plans == [] then map[]
    else
      var n := |plans| - 1;
      var before := Times(first, plans[..n]);
      if plans[n].Some? then before[first + n := plans[n].value] else before
  }

  lemma {:induction false} TimesNumbered(first: nat, plans: seq<Option<nat>>)
    ensures forall id :: id in Times(first, plans) ==> first <= id < first + |plans|
  {
    if plans == [] {
    } else {
      TimesNumbered(first, plans[..|plans| - 1]);
    }
  }

  /** The timer that a plan gets. */
  ghost predicate IsPlanTimer(t: Timer, tod: nat, m: mask, now: nat)
    reads t
  {
    t.weekly && t.weekMask == m && t.tvUsec == 0 && t.tvSec == FirstDelay(m, now, tod)
  }

  /** One timer for each plan, and no others. */
  ghost predicate Loaded(ts: set<Timer>, plans: WeeklyPlan.Plans, m: mask, now: nat)
    reads ts
  {
    && (forall t :: t in ts ==> t.id in plans && IsPlanTimer(t, plans[t.id], m, now))
    && (forall id :: id in plans ==> exists t :: t in ts && t.id == id)
    && (forall s, t :: s in ts && t in ts && s.id == t.id ==> s == t)
  }

  lemma LoadedGrows(ts: set<Timer>, tm: Timer, plans: WeeklyPlan.Plans, tod: nat, m: mask, now: nat)
    requires Loaded(ts, plans, m, now) && tm.id !in plans && IsPlanTimer(tm, tod, m, now)
    ensures Loaded(ts + {tm}, plans[tm.id := tod], m, now)
  {
    var plans' := plans[tm.id := tod];
    forall id | id in plans'
      ensures exists t :: t in ts + {tm} && t.id == id
    {
      if id == tm.id {
        assert tm in ts + {tm};
      } else {
        var t :| t in ts && t.id == id;
        assert t in ts + {tm};
      }
    }
  }

  /** One turn of the plan-list loop: a timer for a plan whose time can be parsed. */
  method LoadPlan(tmlist: TimerList, cycle: byte, id: nat, plan: Option<nat>, now: nat)
    returns (ghost added: Option<Timer>)
    requires tmlist.Valid() && (plan.Some? ==> plan.value < LATEST)
    modifies tmlist`tempList
    ensures tmlist.Valid() && (added.Some? <==> plan.Some?)
    ensures forall t :: t in tmlist.tempList <==> t in old(tmlist.tempList) || (added.Some? && t == added.value)
    ensures added.Some? ==>
              && fresh(added.value) && added.value.id == id
              && IsPlanTimer(added.value, plan.value, cycle % 128, now)
  {
    var tm := new Timer.WeeklyTimer(id, cycle);
    var ok := tm.SetTimeOfDay(plan, now);
    added := None;
    if ok {
      tmlist.AddTimer(tm);
      added := Some(tm);
    }
  }

  /**
   The plan-list loops of gw/gw.cpp: one weekly timer for every plan whose time can be parsed, all
   with the same mask and armed at the same instant; the others are skipped. Timers that an earlier
   plan list has left in the prepared list stay there, as they are.
   */
  method LoadPlans(tmlist: TimerList, first: nat, collectCycle: int, plans: seq<Option<nat>>, now: nat)
    returns (ghost added: set<Timer>)
    requires tmlist.Valid()
    requires forall i :: 0 <= i < |plans| && plans[i].Some? ==> plans[i].value < LATEST
    modifies tmlist`tempList
    ensures tmlist.Valid() && tmlist.list == old(tmlist.list)
    ensures forall t :: t in tmlist.tempList <==> t in old(tmlist.tempList) || t in added
    ensures fresh(added) && Loaded(added, Times(first, plans), CycleMask(collectCycle), now)
  {
    var cycle: byte := collectCycle % 256;
    added := {};
    for i := 0 to |plans|
      invariant tmlist.Valid() && fresh(added)
      invariant forall t :: t in tmlist.tempList <==> t in old(tmlist.tempList) || t in added
      invariant Loaded(added, Times(first, plans[..i]), CycleMask(collectCycle), now)
    {
      ghost var tm := LoadPlan(tmlist, cycle, first + i, plans[i], now);
      NextTimes(first, plans, i);
      if tm.Some? {
        LoadedGrows(added, tm.value, Times(first, plans[..i]), plans[i].value, CycleMask(collectCycle), now);
        added := added + {tm.value};
      }
    }
    assert plans[..|plans|] == plans;
  }

  lemma {:induction false} NextTimes(first: nat, plans: seq<Option<nat>>, i: nat)
    requires i < |plans|
    ensures var before := Times(first, plans[..i]);
            && first + i !in before
            && Times(first, plans[..i + 1]) ==
               if plans[i].Some? then before[first + i := plans[i].value] else before
  {
    assert plans[..i + 1][..i] == plans[..i];
    TimesNumbered(first, plans[..i]);
  }

  /** A loaded list, once started, is a queue that fires every plan exactly at its occurrences. */
  lemma LoadedIsStarted(ts: seq<Timer>, m: mask, plans: WeeklyPlan.Plans, now: nat)
    requires ts != [] && Distinct(ts) && Armed(ts) && Sorted(ts)
    requires forall id :: id in plans ==> plans[id] < 86400
    requires Loaded((set t | t in ts), plans, m, now)
    ensures WeeklyPlan.Started(Sys(Queue(ts), now), m, plans)
  {
    LoadedHasPlans(ts, m, plans, now);
    LoadedEntries(ts, m, plans, now);
    SortedDelays(ts);
  }

  lemma SortedDelays(ts: seq<Timer>)
    requires Armed(ts) && Sorted(ts)
    ensures forall i, j :: 0 <= i <= j < |ts| ==> Queue(ts)[i].delay <= Queue(ts)[j].delay
  {
    forall i, j | 0 <= i <= j < |ts|
      ensures Queue(ts)[i].delay <= Queue(ts)[j].delay
    {
      if i < j {
        assert CompareTimer(ts[i], ts[j]);
      }
    }
  }

  lemma LoadedEntries(ts: seq<Timer>, m: mask, plans: WeeklyPlan.Plans, now: nat)
    requires Armed(ts) && Loaded((set t | t in ts), plans, m, now)
    ensures forall i :: 0 <= i < |ts| ==>
              && Queue(ts)[i].id in plans && Queue(ts)[i].kind == Kind.Weekly(m)
              && Queue(ts)[i].delay == FirstDelay(m, now, plans[Queue(ts)[i].id])
  {
    forall i | 0 <= i < |ts|
      ensures ts[i].id in plans && IsPlanTimer(ts[i], plans[ts[i].id], m, now)
    {
      assert ts[i] in ts;
    }
  }

  lemma LoadedHasPlans(ts: seq<Timer>, m: mask, plans: WeeklyPlan.Plans, now: nat)
    requires Distinct(ts) && Armed(ts) && Loaded((set t | t in ts), plans, m, now)
    ensures WeeklyPlan.HasPlans(Agenda(Sys(Queue(ts), now)), plans)
  {
    var a := Agenda(Sys(Queue(ts), now));
    forall i | 0 <= i < |ts|
      ensures a[i].id == ts[i].id && a[i].id in plans
    {
      assert ts[i] in ts;
    }
    forall id | id in plans
      ensures exists i :: 0 <= i < |a| && a[i].id == id
    {
      var t :| t in ts && t.id == id;
      var i :| 0 <= i < |ts| && ts[i] == t;
      assert a[i].id == id;
    }
    forall i, j | 0 <= i < j < |ts|
      ensures a[i].id != a[j].id
    {
      assert ts[i] in ts && ts[j] in ts && ts[i] != ts[j];
    }
  }

  // ---------------------------------------------------------------- two plan lists

  lemma OneLoaded(ts: set<Timer>, id: nat, cycle: mask, tod: nat, now: nat) returns (x: Timer)
    requires Loaded(ts, Times(id, [Some(tod)]), CycleMask(cycle), now)
    ensures ts == {x} && x.id == id && IsPlanTimer(x, tod, cycle, now)
  {
    assert [Some(tod)][..0] == [];
    assert Times(id, [Some(tod)]) == map[id := tod];
    assert id in map[id := tod];
    x :| x in ts && x.id == id;
  }

  lemma {:induction false} DistinctFits(ts: seq<Timer>, all: set<Timer>)
    requires Distinct(ts) && forall t :: t in ts ==> t in all
    ensures |ts| <= |all|
  {
    if ts != [] {
      forall t | t in ts[1..]
        ensures t in all - {ts[0]}
      {
        var i :| 1 <= i < |ts| && ts[i] == t;
      }
      assert ts[0] in all;
      DistinctFits(ts[1..], all - {ts[0]});
    }
  }

  lemma TwoSorted(ts: seq<Timer>, x: Timer, y: Timer)
    requires Distinct(ts) && Sorted(ts) && x.tvSec < y.tvSec && forall t :: t in ts <==> t == x || t == y
    ensures ts == [x, y]
  {
    assert x in ts && y in ts;
    var i :| 0 <= i < |ts| && ts[i] == x;
    var j :| 0 <= j < |ts| && ts[j] == y;
    assert i < j by {
      assert !CompareTimer(y, x);
    }
    DistinctFits(ts, {x, y});
  }

  lemma QueueOfTwo(x: Timer, y: Timer, now: nat, t0: nat, t1: nat)
    requires x.id == 0 && IsPlanTimer(x, t0, 1, now) && y.id == 1 && IsPlanTimer(y, t1, 127, now)
    requires MixedMasks.MondayMidnight(now, t0, t1)
    ensures x.tvSec < y.tvSec && Armed([x, y]) && Sys(Queue([x, y]), now) == MixedMasks.TwoPlans(now, t0, t1)
  {
    MixedMasks.TwoPlansArmed(now, t0, t1);
    assert Queue([x, y]) == [x.AsEntry(), y.AsEntry()];
  }

  /** A plan list of one plan. */
  method LoadOne(tmlist: TimerList, id: nat, cycle: mask, tod: nat, now: nat) returns (ghost x: Timer)
    requires tmlist.Valid() && tod < LATEST
    modifies tmlist`tempList
    ensures tmlist.Valid() && forall t :: t in tmlist.tempList <==> t in old(tmlist.tempList) || t == x
    ensures x.id == id && IsPlanTimer(x, tod, cycle, now)
  {
    ghost var added := LoadPlans(tmlist, id, cycle, [Some(tod)], now);
    x := OneLoaded(added, id, cycle, tod, now);
  }

  /**
   A first plan list for Mondays, a second one for every day before the first has been started, and
   then start: the list served is the one of MixedMasks that loses an occurrence.
   */
  method LoadTwoLists(tmlist: TimerList, now: nat, t0: nat, t1: nat)
    requires tmlist.Valid() && tmlist.tempList == [] && MixedMasks.MondayMidnight(now, t0, t1)
    modifies tmlist
    ensures tmlist.Valid() && Sys(Queue(tmlist.list), now) == MixedMasks.TwoPlans(now, t0, t1)
  {
    ghost var x := LoadOne(tmlist, 0, 1, t0, now);
    ghost var y := LoadOne(tmlist, 1, 127, t1, now);
    QueueOfTwo(x, y, now, t0, t1);
    TwoSorted(tmlist.tempList, x, y);
    tmlist.Start();
  }
}
