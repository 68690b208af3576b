/**
 What runs of the record log show of the loop of rexmit/rexmit.cpp itself: a record in hand is posted
 until it is acknowledged, the gateway is never held up, and the history kept beside the files is
 nothing but what the steps of the run have done.
 */
module RexmitRuns {
  import opened Bytes
  import opened PacketCodec
  import opened PacketFileMgr
  import opened LogFile
  import opened RexmitSystem
  import opened WorkOff

  // ---------------------------------------------------------------- posted until acknowledged

  /**
   From a state with a record in hand on, as long as nothing is acknowledged and the retransmitter is
   not killed, it is that record that is in hand, and nothing is marked or acknowledged meanwhile.
   */
  lemma {:induction false} HeldUntilAcknowledged(states: seq<State>, steps: seq<Step>, m: nat, n: nat, skip: nat)
    requires IsRun(states, steps, skip) && m <= n < |states| && states[m].control.Posting?
    requires forall k :: m <= k < n ==> !steps[k].PostAcked? && !steps[k].Crash?
    ensures states[n].control == states[m].control
    ensures states[n].acks == states[m].acks && states[n].marks == states[m].marks
    ensures states[n].crashes == states[m].crashes && states[n].missed == states[m].missed
    decreases n
  {
    if n == m {
    } else {
      HeldUntilAcknowledged(states, steps, m, n - 1, skip);
      assert Enabled(states[n - 1], steps[n - 1]) && states[n] == Apply(states[n - 1], steps[n - 1], skip);
    }
  }

  /** So it can be posted again at any time, and the next acknowledgement is of the record that was read. */
  lemma NextAckIsOfRecordRead(states: seq<State>, steps: seq<Step>, m: nat, n: nat, skip: nat)
    requires IsRun(states, steps, skip) && m <= n < |steps| && states[m].control.Posting?
    requires forall k :: m <= k < n ==> !steps[k].PostAcked? && !steps[k].Crash?
    ensures Enabled(states[n], PostUnanswered) && Enabled(states[n], PostAcked)
    ensures var c := states[m].control;
            steps[n].PostAcked? ==>
              && states[n + 1].acks == states[m].acks + [Ack((c.day, MarksOn(states[m], c.day)), c.begin, c.text)]
              && states[n + 1].control == Posted(c.past, c.day, c.begin, c.end)
  {
    HeldUntilAcknowledged(states, steps, m, n, skip);
  }

  /** Once acknowledged it stays in hand until its mark has been written or refused. */
  lemma {:induction false} HeldUntilMarked(states: seq<State>, steps: seq<Step>, m: nat, n: nat, skip: nat)
    requires IsRun(states, steps, skip) && m <= n < |states| && states[m].control.Posted?
    requires forall k :: m <= k < n ==> !steps[k].Mark? && !steps[k].MarkRefused? && !steps[k].Crash?
    ensures states[n].control == states[m].control && states[n].acks == states[m].acks
    decreases n
  {
    if n == m {
    } else {
      HeldUntilMarked(states, steps, m, n - 1, skip);
      assert Enabled(states[n - 1], steps[n - 1]) && states[n] == Apply(states[n - 1], steps[n - 1], skip);
    }
  }

  function Unanswered(k: nat): seq<Step> {
    if k == 0 then [] else [PostUnanswered] + Unanswered(k - 1)
  }

  lemma {:induction false} UnansweredLeads(s: State, k: nat, steps: seq<Step>, t: State, skip: nat)
    requires s.control.Posting? && Leads(s, steps, t, skip)
    ensures Leads(s, Unanswered(k) + steps, t, skip)
    decreases k
  {
    if k == 0 {
      assert Unanswered(k) + steps == steps;
    } else {
      UnansweredLeads(s, k - 1, steps, t, skip);
      assert Unanswered(k) + steps == [PostUnanswered] + (Unanswered(k - 1) + steps);
      OneUnanswered(s, Unanswered(k - 1) + steps, t, skip);
    }
  }

  lemma OneUnanswered(s: State, steps: seq<Step>, t: State, skip: nat)
    requires s.control.Posting? && Leads(s, steps, t, skip)
    ensures Leads(s, [PostUnanswered] + steps, t, skip)
  {
    assert ([PostUnanswered] + steps)[1..] == steps;
  }

  /** Any number of posts without an answer, put in while a record is in hand, leads to the same end. */
  lemma UnansweredChangeNothing(s: State, a: seq<Step>, u: State, k: nat, b: seq<Step>, t: State, skip: nat)
    requires Leads(s, a, u, skip) && u.control.Posting? && Leads(u, b, t, skip)
    ensures Leads(s, a + (Unanswered(k) + b), t, skip)
  {
    UnansweredLeads(u, k, b, t, skip);
    LeadsOn(s, a, u, Unanswered(k) + b, t, skip);
  }

  // ---------------------------------------------------------------- nobody waits for anybody

  /**
   The gateway can put at any moment, whatever the retransmitter is doing: today's file, created if need
   be, grows by the mark, the payload and the newline, no other file changes, and the retransmitter does
   not notice. A put that fails only creates the file.
   */
  lemma GatewayNeverWaits(s: State, p: seq<byte>, skip: nat)
    requires IsPayload(p)
    ensures Enabled(s, Put(p)) && Enabled(s, PutFailed)
    ensures var t := Apply(s, Put(p), skip);
            && t.files.Keys == s.files.Keys + {s.today}
            && t.files[s.today] == Content(s.files, s.today) + ['R' as byte] + p + ['\n' as byte]
            && (forall d :: d in s.files && d != s.today ==> t.files[d] == s.files[d])
            && t.control == s.control && t.acks == s.acks && t.marks == s.marks && t.today == s.today
    ensures var t := Apply(s, PutFailed, skip);
            && t.files.Keys == s.files.Keys + {s.today} && t.files[s.today] == Content(s.files, s.today)
            && (forall d :: d in s.files ==> t.files[d] == s.files[d])
            && t.control == s.control && t.puts == s.puts && t.acks == s.acks && t.marks == s.marks
  {
    assert Content(s.files, s.today) + ([MARK_UNSENT] + (p + [NEWLINE])) ==
           Content(s.files, s.today) + ['R' as byte] + p + ['\n' as byte];
  }

  /** The days only pass, and a crash comes at any moment, and neither touches a file or the history. */
  lemma DaysPassAndCrashesHappen(s: State, day: Day, skip: nat)
    ensures Enabled(s, Midnight(day)) <==> s.today < day
    ensures s.today < day ==> Apply(s, Midnight(day), skip) == s.(today := day)
    ensures Enabled(s, Crash)
    ensures var t := Apply(s, Crash, skip);
            && t.control.Choosing? && t.crashes == s.crashes + 1
            && t == s.(control := t.control, crashes := t.crashes)
  {
  }

  /**
   The retransmitter always has a next step of its own, whatever was put, killed or refused before, as
   long as no late mark has changed a byte; only as Exited it needs to be started again.
   */
  lemma NeverStuck(states: seq<State>, steps: seq<Step>, n: nat, skip: nat) returns (step: Step)
    requires 1 <= skip && IsRun(states, steps, skip) && NoHarm(states, steps) && n < |states|
    ensures Enabled(states[n], step) && IsWork(step) && (step.Restart? <==> states[n].control.Exited?)
  {
    var s := states[n];
    RunInv(states, steps, n, skip);
    step := match s.control
      case Choosing => ChoiceOf(s)
      case TodayNext => ReadToday
      case PastNext(_, _) => ReadPast
      case Posting(_, _, _, _, _) => PostAcked
      case Posted(_, _, _, _) => Mark
      case AllSent(_) => Delete
      case Exited => Restart;
  }

  /** A past file goes before today's, and with no file at all there is nothing to choose. */
  ghost function ChoiceOf(s: State): (step: Step)
    requires s.control.Choosing?
    ensures Enabled(s, step) && (step.ChooseNone? || step.ChooseToday? || step.ChoosePast?)
    ensures step.ChoosePast? <==> exists d :: d in s.files && d != s.today
  {
    if d :| d in s.files && d != s.today then ChoosePast(d)
    else if s.today in s.files then ChooseToday
    else ChooseNone
  }

  // ---------------------------------------------------------------- the history is what was done

  /** What the first n steps have put on a day. */
  function PutBy(states: seq<State>, steps: seq<Step>, n: nat, d: Day): Payloads
    requires n <= |steps| <= |states|
  {
    if n == 0 then []
    else
      PutBy(states, steps, n - 1, d)
      + if steps[n - 1].Put? && states[n - 1].today == d then [steps[n - 1].p] else []
  }

  /** How many records of a day the first n steps have marked, each on its own day or in its own past file. */
  function MarkedBy(states: seq<State>, steps: seq<Step>, n: nat, d: Day): nat
    requires n <= |steps| <= |states|
  {
    if n == 0 then 0
    else
      var s := states[n - 1];
      MarkedBy(states, steps, n - 1, d)
      + if steps[n - 1].Mark? && s.control.Posted? && !IsLate(s) && s.control.day == d then 1 else 0
  }

  /** How many posts have been acknowledged, crashes have happened, and marks been refused or come late. */
  function Acknowledged(steps: seq<Step>, n: nat): nat
    requires n <= |steps|
  {
    if n == 0 then 0 else Acknowledged(steps, n - 1) + if steps[n - 1].PostAcked? then 1 else 0
  }

  function Crashed(steps: seq<Step>, n: nat): nat
    requires n <= |steps|
  {
    if n == 0 then 0 else Crashed(steps, n - 1) + if steps[n - 1].Crash? then 1 else 0
  }

  function Missed(states: seq<State>, steps: seq<Step>, n: nat): nat
    requires n <= |steps| <= |states|
  {
    if n == 0 then 0
    else
      Missed(states, steps, n - 1)
      + if steps[n - 1].MarkRefused? || (steps[n - 1].Mark? && IsLate(states[n - 1])) then 1 else 0
  }

  lemma StepRecords(s: State, step: Step, t: State, d: Day, skip: nat)
    requires Enabled(s, step) && t == Apply(s, step, skip)
    ensures PutsOn(t, d) == PutsOn(s, d) + if step.Put? && s.today == d then [step.p] else []
    ensures MarksOn(t, d) ==
            MarksOn(s, d) + if step.Mark? && s.control.Posted? && !IsLate(s) && s.control.day == d then 1 else 0
  {
  }

  /** No put and no mark is recorded that was not made, and none that was is missing. */
  lemma {:induction false} HistoryIsWhatWasDone(states: seq<State>, steps: seq<Step>, n: nat, d: Day, skip: nat)
    requires IsRun(states, steps, skip) && n < |states|
    ensures PutsOn(states[n], d) == PutBy(states, steps, n, d)
    ensures MarksOn(states[n], d) == MarkedBy(states, steps, n, d)
    decreases n
  {
    if n == 0 {
    } else {
      HistoryIsWhatWasDone(states, steps, n - 1, d, skip);
      StepRecords(states[n - 1], steps[n - 1], states[n], d, skip);
    }
  }

  /** So it is with acknowledgements, crashes and marks that were missed. */
  lemma {:induction false} CountsAreWhatHappened(states: seq<State>, steps: seq<Step>, n: nat, skip: nat)
    requires IsRun(states, steps, skip) && n < |states|
    ensures |states[n].acks| == Acknowledged(steps, n)
    ensures states[n].crashes == Crashed(steps, n) && states[n].missed == Missed(states, steps, n)
    decreases n
  {
    if n == 0 {
    } else {
      CountsAreWhatHappened(states, steps, n - 1, skip);
      assert Enabled(states[n - 1], steps[n - 1]) && states[n] == Apply(states[n - 1], steps[n - 1], skip);
    }
  }

  // ---------------------------------------------------------------- from start to end

  lemma {:induction false} Extend(states: seq<State>, steps: seq<Step>, more: seq<Step>, t: State, skip: nat)
    returns (states': seq<State>)
    requires IsRun(states, steps, skip) && Leads(states[|steps|], more, t, skip)
    ensures IsRun(states', steps + more, skip) && states <= states' && states'[|steps + more|] == t
    decreases |more|
  {
    if more == [] {
      states' := states;
      assert steps + more == steps;
    } else {
      var u := Apply(states[|steps|], more[0], skip);
      var states1, steps1 := states + [u], steps + [more[0]];
      assert forall n :: 0 <= n < |steps1| ==>
          states1[n] == states[n] && (n < |steps| ==> steps1[n] == steps[n] && states1[n + 1] == states[n + 1]);
      states' := Extend(states1, steps1, more[1..], t, skip);
      assert steps1 + more[1..] == steps + more;
    }
  }

  /** One put after the other, on a day on which nothing else happens. */
  lemma {:induction false} AllPut(today: Day, ps: Payloads, skip: nat)
    returns (states: seq<State>, steps: seq<Step>)
    requires ArePayloads(ps)
    ensures IsRun(states, steps, skip) && NoHarm(states, steps) && states[0].today == today
    ensures var s := states[|steps|];
            && s.today == today && s.control == Choosing
            && PutsOn(s, today) == ps && forall d: Day :: d != today ==> PutsOn(s, d) == []
  {
    if ps == [] {
      states, steps := [State(map[], today, Choosing, map[], map[], map[], [], 0, 0)], [];
      assert forall d: Day :: PutsOn(states[0], d) == [];
    } else {
      var n := |ps| - 1;
      states, steps := AllPut(today, ps[..n], skip);
      var s := states[|steps|];
      var t := Apply(s, Put(ps[n]), skip);
      assert ps[..n] + [ps[n]] == ps;
      PutOnly(states, steps, ps[n], skip);
      forall d: Day | d != today
        ensures PutsOn(t, d) == []
      {
        assert PutsOn(s, d) == [];
      }
      states, steps := states + [t], steps + [Put(ps[n])];
    }
  }

  lemma PutOnly(states: seq<State>, steps: seq<Step>, p: seq<byte>, skip: nat)
    requires IsRun(states, steps, skip) && NoHarm(states, steps) && IsPayload(p)
    ensures var states', steps' := states + [Apply(states[|steps|], Put(p), skip)], steps + [Put(p)];
            IsRun(states', steps', skip) && NoHarm(states', steps')
  {
    var states', steps' := states + [Apply(states[|steps|], Put(p), skip)], steps + [Put(p)];
    forall i | 0 <= i < |steps'|
      ensures Enabled(states'[i], steps'[i]) && states'[i + 1] == Apply(states'[i], steps'[i], skip)
      ensures Harmless(states'[i], steps'[i])
    {
      if i < |steps| {
        assert states'[i] == states[i] && states'[i + 1] == states[i + 1] && steps'[i] == steps[i];
      }
    }
  }

  /**
   On any day, whatever records are put, if each is long enough for something of it to be handed on, can
   all be delivered, each with its own text, and marked.
   */
  lemma AnyRecordsDelivered(today: Day, ps: Payloads, skip: nat) returns (states: seq<State>, steps: seq<Step>)
    requires 1 <= skip && ArePayloads(ps) && forall i :: 0 <= i < |ps| ==> skip <= |ps[i]| + 1
    ensures IsRun(states, steps, skip) && states[0].today == today
    ensures var s := states[|steps|]; PutsOn(s, today) == ps && Done(s, skip) && AllMarked(s)
  {
    states, steps := AllPut(today, ps, skip);
    var s := states[|steps|];
    RunInv(states, steps, |steps|, skip);
    forall d: Day, i: nat
      ensures !Blocks(s, d, i, skip)
    {
    }
    var more, t := WorkDelivers(s, skip);
    states := Extend(states, steps, more, t, skip);
    steps := steps + more;
  }
}
