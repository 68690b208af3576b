/**
 Whether what a day has left behind can still be delivered: from every reachable state of the record
 log the retransmitter can go on until every record is acknowledged and marked and no past file is
 left, unless some record is too short for the reader to hand anything on of it.
 */
module WorkOff {
  import opened Options
  import opened PacketCodec
  import opened PacketFileMgr
  import opened LogFile
  import opened RexmitSystem

  /** Some steps lead from one state to another. */
  ghost predicate Leads(s: State, steps: seq<Step>, t: State, skip: nat)
    decreases |steps|
  {
    if steps == [] then s == t
    else Enabled(s, steps[0]) && Leads(Apply(s, steps[0], skip), steps[1..], t, skip)
  }

  /** None of the steps is a late mark that changes a byte. */
  ghost predicate Tame(s: State, steps: seq<Step>, skip: nat)
    decreases |steps|
  {
    steps == [] || (Enabled(s, steps[0]) && Harmless(s, steps[0]) && Tame(Apply(s, steps[0], skip), steps[1..], skip))
  }

  /** A step of the retransmitter going about its work, with nothing failing; its late marks are among them. */
  predicate IsWork(step: Step) {
    !step.Put? && !step.PutFailed? && !step.Midnight? && !step.Crash? && !step.Failure? && !step.MarkRefused?
  }

  /** A record of an earlier day is in hand whose mark will go into today's file and change it. */
  predicate Strays(s: State) {
    && IsStale(s) && s.today in s.files
    && !(s.control.begin < |s.files[s.today]| && s.files[s.today][s.control.begin] == MARK_SENT)
  }

  /** Work alone leads from one state to another, on the same day. */
  ghost predicate Work(s: State, steps: seq<Step>, t: State, skip: nat) {
    && Leads(s, steps, t, skip) && (forall i :: 0 <= i < |steps| ==> IsWork(steps[i]))
    && t.puts == s.puts && t.today == s.today && t.crashes == s.crashes
  }

  /** An acknowledgement of record i itself: read where its line was put, and posted as its reader hands it on. */
  predicate IsOwn(a: Ack, d: Day, ps: Payloads, i: nat, skip: nat) {
    && i < |ps| && a.key == (d, i) && a.begin == Offset(ps, i) && a.text != []
    && (a.text == TextOf(true, ps[i], skip) || a.text == TextOf(false, ps[i], skip))
  }

  ghost predicate Taken(s: State, d: Day, i: nat, skip: nat) {
    exists a :: a in s.acks && IsOwn(a, d, PutsOn(s, d), i, skip)
  }

  /** Every record has been acknowledged with its own text, and no past file is left. */
  ghost predicate Done(s: State, skip: nat) {
    && s.control.Choosing? && s.files.Keys <= {s.today}
    && forall d: Day, i: nat :: i < |PutsOn(s, d)| ==> Taken(s, d, i, skip)
  }

  /** All records are marked, and a scan of today's file finds nothing. */
  ghost predicate AllMarked(s: State) {
    && (s.today in s.files ==> FindUnsent(s.files[s.today], 0) == None)
    && forall d: Day :: MarksOn(s, d) == |PutsOn(s, d)|
  }

  /** A record not marked that its reader hands nothing on of. */
  ghost predicate Blocks(s: State, d: Day, i: nat, skip: nat) {
    MarksOn(s, d) <= i < |PutsOn(s, d)| && TextOf(d < s.today, PutsOn(s, d)[i], skip) == []
  }

  ghost predicate Blocked(s: State, skip: nat) {
    exists d: Day, i: nat :: Blocks(s, d, i, skip)
  }

  /** The invariant holds and nothing blocks; named so that a proof passes it on as one fact. */
  ghost predicate Fit(s: State, skip: nat) {
    var fit := 1 <= skip && Inv(s, skip) && !Blocked(s, skip);
    fit
  }

  /** What is acknowledged when a day's records are delivered from some record on. */
  function Delivered(d: Day, past: bool, ps: Payloads, from: nat, skip: nat): (acks: seq<Ack>)
    requires from <= |ps|
    ensures |acks| == |ps| - from
    decreases |ps| - from
  {
    if from == |ps| then []
    else [Ack((d, from), Offset(ps, from), TextOf(past, ps[from], skip))] + Delivered(d, past, ps, from + 1, skip)
  }

  // ---------------------------------------------------------------- putting steps together

  lemma {:induction false} LeadsOn(s: State, a: seq<Step>, t: State, b: seq<Step>, u: State, skip: nat)
    requires Leads(s, a, t, skip) && Leads(t, b, u, skip)
    ensures Leads(s, a + b, u, skip)
    decreases |a|
  {
    if a == [] {
      assert a + b == b;
    } else {
      LeadsOn(Apply(s, a[0], skip), a[1..], t, b, u, skip);
      assert (a + b)[1..] == a[1..] + b;
    }
  }

  lemma WorkOn(s: State, a: seq<Step>, t: State, b: seq<Step>, u: State, skip: nat)
    requires Work(s, a, t, skip) && Work(t, b, u, skip)
    ensures Work(s, a + b, u, skip)
  {
    LeadsOn(s, a, t, b, u, skip);
  }

  lemma OneStep(s: State, step: Step, skip: nat)
    requires 1 <= skip && Inv(s, skip) && Enabled(s, step) && Harmless(s, step) && IsWork(step)
    ensures Inv(Apply(s, step, skip), skip) && Work(s, [step], Apply(s, step, skip), skip)
  {
    StepKeeps(s, step, skip);
    assert [step][1..] == [];
  }

  /** Marks only grow, so nothing that did not block does. */
  lemma StaysFree(s: State, t: State, skip: nat)
    requires Fit(s, skip) && Inv(t, skip) && t.puts == s.puts && t.today == s.today
    requires forall d: Day :: MarksOn(s, d) <= MarksOn(t, d)
    ensures Fit(t, skip)
  {
    forall d: Day, i: nat
      ensures !Blocks(t, d, i, skip)
    {
      assert !Blocks(s, d, i, skip);
    }
  }

  /** A step that moves the control alone, or marks a record. */
  lemma FitStep(s: State, step: Step, skip: nat)
    requires Fit(s, skip) && Enabled(s, step) && Harmless(s, step) && IsWork(step)
    ensures Fit(Apply(s, step, skip), skip) && Work(s, [step], Apply(s, step, skip), skip)
  {
    OneStep(s, step, skip);
    StaysFree(s, Apply(s, step, skip), skip);
  }

  /** The first record of a day that is not marked can be read. */
  lemma NextReadable(s: State, d: Day, skip: nat)
    requires Fit(s, skip)
    ensures var ps, m := PutsOn(s, d), MarksOn(s, d);
            && m <= |ps| && (d !in s.files ==> m == |ps|)
            && (m < |ps| ==> TextOf(d < s.today, ps[m], skip) != [])
  {
    assert DayInv(s, d);
    assert !Blocks(s, d, MarksOn(s, d), skip);
  }

  // ---------------------------------------------------------------- one record

  /** What has changed when one record of a day has been delivered, or all that were left of it. */
  ghost predicate Progress(s: State, t: State, d: Day, m: nat, acks: seq<Ack>) {
    && MarksOn(t, d) == m && (forall e: Day :: e != d ==> MarksOn(t, e) == MarksOn(s, e))
    && t.acks == s.acks + acks && t.files - {d} == s.files - {d}
  }

  lemma ProgressOn(s: State, t: State, u: State, d: Day, m: nat, n: nat, a: seq<Ack>, b: seq<Ack>)
    requires Progress(s, t, d, m, a) && Progress(t, u, d, n, b)
    ensures Progress(s, u, d, n, a + b)
  {
  }

  /** A record being posted is acknowledged and marked. */
  lemma SendOne(s: State, skip: nat) returns (t: State)
    requires Fit(s, skip) && s.control.Posting? && (s.control.past || s.control.day == s.today)
    ensures Fit(t, skip) && Work(s, [PostAcked] + [Mark], t, skip)
    ensures t.control == if s.control.past then PastNext(s.control.day, s.control.end) else Choosing
    ensures var d := s.control.day; var m := MarksOn(s, d);
            && m < |PutsOn(s, d)| && t.files.Keys == s.files.Keys
            && Progress(s, t, d, m + 1,
                        [Ack((d, m), Offset(PutsOn(s, d), m), TextOf(s.control.past, PutsOn(s, d)[m], skip))])
  {
    FitStep(s, PostAcked, skip);
    var u := Apply(s, PostAcked, skip);
    FitStep(u, Mark, skip);
    t := Apply(u, Mark, skip);
    WorkOn(s, [PostAcked], u, [Mark], t, skip);
    AckProgress(s, skip);
    MarkProgress(u, skip);
    var d := s.control.day;
    var m := MarksOn(s, d);
    var acks := [Ack((d, m), Offset(PutsOn(s, d), m), TextOf(s.control.past, PutsOn(s, d)[m], skip))];
    ProgressOn(s, u, t, d, m, m + 1, acks, []);
    assert acks + [] == acks;
  }

  lemma AckProgress(s: State, skip: nat)
    requires ControlInv(s, skip) && s.control.Posting?
    ensures var t, d := Apply(s, PostAcked, skip), s.control.day; var m := MarksOn(s, d);
            && m < |PutsOn(s, d)|
            && Progress(s, t, d, m,
                        [Ack((d, m), Offset(PutsOn(s, d), m), TextOf(s.control.past, PutsOn(s, d)[m], skip))])
  {
  }

  lemma MarkProgress(s: State, skip: nat)
    requires ControlInv(s, skip) && s.control.Posted? && !IsLate(s)
    ensures var t, d := Apply(s, Mark, skip), s.control.day;
            Progress(s, t, d, MarksOn(s, d) + 1, []) && t.files.Keys == s.files.Keys
  {
    var t := Apply(s, Mark, skip);
    assert t.files == s.files[s.control.day := t.files[s.control.day]];
    assert t.acks == s.acks + [];
  }

  /** What was left of a day has been delivered, each record once and in order. */
  ghost predicate RestDelivered(s: State, t: State, d: Day, past: bool, skip: nat) {
    var ps, m := PutsOn(s, d), MarksOn(s, d);
    m <= |ps| && Progress(s, t, d, |ps|, Delivered(d, past, ps, m, skip))
  }

  /** Its first record has. */
  ghost predicate OneDelivered(s: State, t: State, d: Day, past: bool, skip: nat) {
    var ps, m := PutsOn(s, d), MarksOn(s, d);
    && m < |ps| && t.puts == s.puts
    && Progress(s, t, d, m + 1, [Ack((d, m), Offset(ps, m), TextOf(past, ps[m], skip))])
  }

  /** A day's deliveries go on after one more record. */
  lemma DeliveryOn(s: State, t: State, u: State, d: Day, past: bool, skip: nat)
    requires OneDelivered(s, t, d, past, skip) && RestDelivered(t, u, d, past, skip)
    ensures RestDelivered(s, u, d, past, skip)
    ensures u.files == t.files - {d} ==> u.files == s.files - {d}
  {
    var ps, m := PutsOn(s, d), MarksOn(s, d);
    ProgressOn(s, t, u, d, m + 1, |ps|,
               [Ack((d, m), Offset(ps, m), TextOf(past, ps[m], skip))], Delivered(d, past, ps, m + 1, skip));
  }

  // ---------------------------------------------------------------- past files

  /** The next record of a past file is read, acknowledged and marked. */
  lemma PastRecordSent(s: State, skip: nat) returns (t: State)
    requires Fit(s, skip) && s.control.PastNext?
    requires var ps, m := PutsOn(s, s.control.name), MarksOn(s, s.control.name);
             m < |ps| && TextOf(true, ps[m], skip) != []
    ensures Fit(t, skip) && Work(s, [ReadPast] + ([PostAcked] + [Mark]), t, skip)
    ensures t.control.PastNext? && t.control.name == s.control.name
    ensures OneDelivered(s, t, s.control.name, true, skip)
  {
    var d := s.control.name;
    assert DayInv(s, d);
    ReadOf(PutsOn(s, d), MarksOn(s, d), true, d, s.control.pos, skip);
    FitStep(s, ReadPast, skip);
    var u := Apply(s, ReadPast, skip);
    t := SendOne(u, skip);
    WorkOn(s, [ReadPast], u, [PostAcked] + [Mark], t, skip);
  }

  /** At the end of a past file it is deleted. */
  lemma PastFileEnds(s: State, skip: nat) returns (t: State)
    requires Fit(s, skip) && s.control.PastNext?
    requires MarksOn(s, s.control.name) == |PutsOn(s, s.control.name)|
    ensures Fit(t, skip) && Work(s, [ReadPast] + [Delete], t, skip)
    ensures t == s.(control := Choosing, files := s.files - {s.control.name})
  {
    var d := s.control.name;
    assert DayInv(s, d);
    ReadOf(PutsOn(s, d), MarksOn(s, d), true, d, s.control.pos, skip);
    FitStep(s, ReadPast, skip);
    var u := Apply(s, ReadPast, skip);
    FitStep(u, Delete, skip);
    t := Apply(u, Delete, skip);
    WorkOn(s, [ReadPast], u, [Delete], t, skip);
  }

  lemma PastReadable(s: State, skip: nat)
    requires Fit(s, skip) && s.control.PastNext?
    ensures var ps, m := PutsOn(s, s.control.name), MarksOn(s, s.control.name);
            m <= |ps| && (m < |ps| ==> TextOf(true, ps[m], skip) != [])
  {
    NextReadable(s, s.control.name, skip);
  }

  /** A past file being read is delivered to its end, each record once and in order, and deleted. */
  lemma {:induction false} PastFileDelivered(s: State, d: Day, skip: nat) returns (steps: seq<Step>, t: State)
    requires Fit(s, skip) && s.control.PastNext? && s.control.name == d
    ensures Fit(t, skip) && Work(s, steps, t, skip) && t.control.Choosing? && t.files == s.files - {d}
    ensures RestDelivered(s, t, d, true, skip)
    decreases |PutsOn(s, d)| - MarksOn(s, d)
  {
    PastReadable(s, skip);
    if MarksOn(s, d) == |PutsOn(s, d)| {
      t := PastFileEnds(s, skip);
      steps := [ReadPast] + [Delete];
      EndProgress(s, t, d, skip);
    } else {
      var v := PastRecordSent(s, skip);
      steps, t := PastFileDelivered(v, d, skip);
      DeliveryOn(s, v, t, d, true, skip);
      WorkOn(s, [ReadPast] + ([PostAcked] + [Mark]), v, steps, t, skip);
      steps := [ReadPast] + ([PostAcked] + [Mark]) + steps;
    }
  }

  lemma EndProgress(s: State, t: State, d: Day, skip: nat)
    requires MarksOn(s, d) == |PutsOn(s, d)| && t == s.(control := Choosing, files := s.files - {d})
    ensures RestDelivered(s, t, d, true, skip)
  {
    assert t.acks == s.acks + [];
  }

  /** One past file after the other. */
  lemma {:induction false} PastFilesDelivered(s: State, skip: nat) returns (steps: seq<Step>, t: State)
    requires Fit(s, skip) && s.control.Choosing?
    ensures Fit(t, skip) && Work(s, steps, t, skip) && t.control.Choosing? && t.files.Keys <= {s.today}
    decreases |s.files|
  {
    if s.files.Keys <= {s.today} {
      steps, t := [], s;
    } else {
      var d :| d in s.files && d != s.today;
      FitStep(s, ChoosePast(d), skip);
      var u := Apply(s, ChoosePast(d), skip);
      var a, v := PastFileDelivered(u, d, skip);
      WorkOn(s, [ChoosePast(d)], u, a, v, skip);
      FewerFiles(s.files, d);
      var b;
      b, t := PastFilesDelivered(v, skip);
      WorkOn(s, [ChoosePast(d)] + a, v, b, t, skip);
      steps := [ChoosePast(d)] + a + b;
    }
  }

  lemma FewerFiles(files: Files, d: Day)
    requires d in files
    ensures |files - {d}| < |files|
  {
    assert (files - {d}).Keys == files.Keys - {d};
    assert |files.Keys| == |files| && |(files - {d}).Keys| == |files - {d}|;
  }

  // ---------------------------------------------------------------- today's file

  lemma TodayReadable(s: State, skip: nat)
    requires Fit(s, skip) && s.files.Keys <= {s.today}
    ensures var ps, m := PutsOn(s, s.today), MarksOn(s, s.today);
            && m <= |ps| && (m < |ps| ==> TextOf(false, ps[m], skip) != [] && s.files.Keys == {s.today})
  {
    NextReadable(s, s.today, skip);
  }

  lemma NoProgress(s: State, d: Day, skip: nat)
    requires MarksOn(s, d) == |PutsOn(s, d)|
    ensures Work(s, [], s, skip) && RestDelivered(s, s, d, false, skip)
  {
    assert s.acks == s.acks + [];
  }

  /** Today's file, once alone, is delivered to its end, each record once and in order. */
  lemma {:induction false} TodayFileDelivered(s: State, d: Day, skip: nat) returns (steps: seq<Step>, t: State)
    requires Fit(s, skip) && s.control.Choosing? && s.today == d && s.files.Keys <= {d}
    ensures Fit(t, skip) && Work(s, steps, t, skip) && t.control.Choosing? && t.files.Keys <= {d}
    ensures RestDelivered(s, t, d, false, skip)
    decreases |PutsOn(s, d)| - MarksOn(s, d)
  {
    TodayReadable(s, skip);
    if MarksOn(s, d) == |PutsOn(s, d)| {
      NoProgress(s, d, skip);
      steps, t := [], s;
    } else {
      var v := TodayRecordSent(s, skip);
      steps, t := TodayFileDelivered(v, d, skip);
      DeliveryOn(s, v, t, d, false, skip);
      WorkOn(s, [ChooseToday] + [ReadToday] + ([PostAcked] + [Mark]), v, steps, t, skip);
      steps := [ChooseToday] + [ReadToday] + ([PostAcked] + [Mark]) + steps;
    }
  }

  lemma NothingLeft(s: State, skip: nat)
    requires Inv(s, skip) && s.control.Choosing? && s.files.Keys <= {s.today}
    requires MarksOn(s, s.today) == |PutsOn(s, s.today)|
    ensures Done(s, skip) && AllMarked(s)
  {
    forall d: Day
      ensures MarksOn(s, d) == |PutsOn(s, d)|
    {
      assert DayInv(s, d);
    }
    forall d: Day, i: nat | i < |PutsOn(s, d)|
      ensures Taken(s, d, i, skip)
    {
      assert DayInv(s, d);
      MarkedTaken(s, d, i, skip);
    }
    assert DayInv(s, s.today);
    ScanOn(PutsOn(s, s.today), MarksOn(s, s.today), 0);
  }

  lemma MarkedTaken(s: State, d: Day, i: nat, skip: nat)
    requires AcksInv(s, skip) && Acked(s, d, i)
    ensures Taken(s, d, i, skip)
  {
    var a :| a in s.acks && a.key == (d, i);
    assert AckInv(s, a, skip);
    assert IsOwn(a, d, PutsOn(s, d), i, skip);
  }

  lemma TodayRecordSent(s: State, skip: nat) returns (t: State)
    requires Fit(s, skip) && s.control.Choosing? && s.files.Keys == {s.today}
    requires var ps, m := PutsOn(s, s.today), MarksOn(s, s.today); m < |ps| && TextOf(false, ps[m], skip) != []
    ensures Fit(t, skip) && Work(s, [ChooseToday] + [ReadToday] + ([PostAcked] + [Mark]), t, skip)
    ensures t.control.Choosing? && t.files.Keys == {s.today}
    ensures OneDelivered(s, t, s.today, false, skip)
  {
    var d := s.today;
    assert DayInv(s, d);
    ReadOf(PutsOn(s, d), MarksOn(s, d), false, d, 0, skip);
    FitStep(s, ChooseToday, skip);
    var u := Apply(s, ChooseToday, skip);
    FitStep(u, ReadToday, skip);
    var v := Apply(u, ReadToday, skip);
    WorkOn(s, [ChooseToday], u, [ReadToday], v, skip);
    t := SendOne(v, skip);
    WorkOn(s, [ChooseToday] + [ReadToday], v, [PostAcked] + [Mark], t, skip);
  }

  // ---------------------------------------------------------------- from wherever the loop stands

  /** What the retransmitter is in the middle of comes to an end. */
  lemma Settles(s: State, skip: nat) returns (steps: seq<Step>, t: State)
    requires Fit(s, skip) && !Strays(s)
    ensures Fit(t, skip) && Work(s, steps, t, skip) && t.control.Choosing?
  {
    match s.control
    case Choosing => steps, t := [], s;
    case TodayNext =>
      FitStep(s, ReadToday, skip);
      var u := Apply(s, ReadToday, skip);
      steps, t := SettlesRead(u, skip);
      WorkOn(s, [ReadToday], u, steps, t, skip);
      steps := [ReadToday] + steps;
    case _ => steps, t := SettlesRead(s, skip);
  }

  lemma SettlesRead(s: State, skip: nat) returns (steps: seq<Step>, t: State)
    requires Fit(s, skip) && !Strays(s) && !s.control.TodayNext?
    ensures Fit(t, skip) && Work(s, steps, t, skip) && t.control.Choosing?
  {
    if s.control.Posting? {
      FitStep(s, PostAcked, skip);
      var u := Apply(s, PostAcked, skip);
      steps, t := SettlesPosted(u, skip);
      WorkOn(s, [PostAcked], u, steps, t, skip);
      steps := [PostAcked] + steps;
    } else {
      steps, t := SettlesPosted(s, skip);
    }
  }

  lemma SettlesPosted(s: State, skip: nat) returns (steps: seq<Step>, t: State)
    requires Fit(s, skip) && !Strays(s) && !s.control.TodayNext? && !s.control.Posting?
    ensures Fit(t, skip) && Work(s, steps, t, skip) && t.control.Choosing?
  {
    match s.control
    case Choosing => steps, t := [], s;
    case PastNext(_, _) =>
      steps, t := PastFileDelivered(s, s.control.name, skip);
    case Posted(_, _, _, _) =>
      FitStep(s, Mark, skip);
      var u := Apply(s, Mark, skip);
      if u.control.Choosing? {
        steps, t := [Mark], u;
      } else {
        steps, t := PastFileDelivered(u, u.control.name, skip);
        WorkOn(s, [Mark], u, steps, t, skip);
        steps := [Mark] + steps;
      }
    case AllSent(_) =>
      steps, t := [Delete], Apply(s, Delete, skip);
      FitStep(s, Delete, skip);
    case Exited =>
      steps, t := [Restart], Apply(s, Restart, skip);
      FitStep(s, Restart, skip);
  }

  // ---------------------------------------------------------------- the theorems

  /** Unless a record blocks, or the mark that is due strays, work alone delivers everything. */
  lemma WorkDelivers(s: State, skip: nat) returns (steps: seq<Step>, t: State)
    requires Fit(s, skip) && !Strays(s)
    ensures Work(s, steps, t, skip) && Done(t, skip) && AllMarked(t)
  {
    var a, u := Settles(s, skip);
    var b, v := PastFilesDelivered(u, skip);
    WorkOn(s, a, u, b, v, skip);
    var c;
    c, t := TodayFileDelivered(v, v.today, skip);
    NothingLeft(t, skip);
    WorkOn(s, a + b, v, c, t, skip);
    steps := a + b + c;
  }

  /** What the loop is doing with a past file, if with that one, is what the file's marks say. */
  ghost predicate PastControl(c: Control, d: Day, ps: Payloads, m: nat, skip: nat) {
    match c
    case PastNext(name, pos) => name == d ==> pos == 0 || (m <= |ps| && pos == Offset(ps, m))
    case Posting(past, day, b, e, _) => past && day == d ==> InHand(b, e, ps, m, skip)
    case Posted(past, day, b, e) => past && day == d ==> InHand(b, e, ps, m, skip)
    case AllSent(name) => name == d ==> m == |ps|
    case _ => true
  }

  ghost predicate InHand(b: nat, e: nat, ps: Payloads, m: nat, skip: nat) {
    m < |ps| && b == Offset(ps, m) && e == Offset(ps, m + 1) && TextOf(true, ps[m], skip) != []
  }

  /** A past file is what its records and marks say, which no mark that goes astray can change. */
  ghost predicate PastInv(s: State, d: Day, skip: nat) {
    var ps, m := PutsOn(s, d), MarksOn(s, d);
    && d < s.today && m <= |ps| && ArePayloads(ps)
    && d in s.files && s.files[d] == FileOf(ps, m) && PastControl(s.control, d, ps, m, skip)
  }

  lemma PastHolds(s: State, d: Day, i: nat, skip: nat)
    requires Inv(s, skip) && Blocks(s, d, i, skip) && d < s.today
    ensures PastInv(s, d, skip)
  {
    assert DayInv(s, d);
  }

  /** Whatever happens next, a past file with a blocking record stays, and so does what blocks. */
  lemma StuckStep(s: State, step: Step, d: Day, i: nat, skip: nat)
    requires 1 <= skip && PastInv(s, d, skip) && Blocks(s, d, i, skip) && Enabled(s, step)
    ensures PastInv(Apply(s, step, skip), d, skip) && Blocks(Apply(s, step, skip), d, i, skip)
  {
    match step
    case ReadPast => StuckRead(s, d, skip);
    case Mark => StuckMark(s, d, i, skip);
    case _ =>
  }

  lemma StuckRead(s: State, d: Day, skip: nat)
    requires 1 <= skip && PastInv(s, d, skip) && Enabled(s, ReadPast)
    ensures PastInv(Apply(s, ReadPast, skip), d, skip)
  {
    if s.control.name == d {
      ReadOf(PutsOn(s, d), MarksOn(s, d), true, d, s.control.pos, skip);
    }
  }

  lemma StuckMark(s: State, d: Day, i: nat, skip: nat)
    requires PastInv(s, d, skip) && Blocks(s, d, i, skip) && Enabled(s, Mark)
    ensures PastInv(Apply(s, Mark, skip), d, skip) && Blocks(Apply(s, Mark, skip), d, i, skip)
  {
    if s.control.past && s.control.day == d {
      Marked(PutsOn(s, d), MarksOn(s, d));
    }
  }

  lemma {:induction false} StuckForEver(s: State, steps: seq<Step>, t: State, d: Day, i: nat, skip: nat)
    requires 1 <= skip && PastInv(s, d, skip) && Blocks(s, d, i, skip) && Leads(s, steps, t, skip)
    ensures PastInv(t, d, skip) && Blocks(t, d, i, skip)
    decreases |steps|
  {
    if steps == [] {
    } else {
      StuckStep(s, steps[0], d, i, skip);
      StuckForEver(Apply(s, steps[0], skip), steps[1..], t, d, i, skip);
    }
  }

  /** What blocks goes on blocking: nothing gets past it, and a later day skips no less. */
  lemma BlockedStays(s: State, step: Step, d: Day, i: nat, skip: nat)
    requires 1 <= skip && Inv(s, skip) && Enabled(s, step) && Blocks(s, d, i, skip)
    ensures Blocks(Apply(s, step, skip), d, i, skip)
  {
  }

  /** On a past day that holds whatever happens; on today, as long as no mark comes astray from another day. */
  lemma {:induction false} BlockedForEver(s: State, steps: seq<Step>, t: State, d: Day, i: nat, skip: nat)
    requires 1 <= skip && Inv(s, skip) && Leads(s, steps, t, skip) && Blocks(s, d, i, skip)
    requires d < s.today || Tame(s, steps, skip)
    ensures Blocks(t, d, i, skip)
    decreases |steps|
  {
    if d < s.today {
      PastHolds(s, d, i, skip);
      StuckForEver(s, steps, t, d, i, skip);
    } else if steps == [] {
    } else {
      StepKeeps(s, steps[0], skip);
      BlockedStays(s, steps[0], d, i, skip);
      BlockedForEver(Apply(s, steps[0], skip), steps[1..], t, d, i, skip);
    }
  }

  /** Work alone ends with everything done. */
  ghost predicate WorksOut(s: State, skip: nat) {
    exists steps, t :: Work(s, steps, t, skip) && Done(t, skip)
  }

  /** Some way of going on, crashes, refusals and whatever else included, ends with everything done. */
  ghost predicate CanFinish(s: State, skip: nat) {
    exists steps, t :: Leads(s, steps, t, skip) && Done(t, skip)
  }

  /** If the retransmitter may also be killed and started again, no record blocking is enough. */
  lemma WorkedOffIffNothingBlocks(states: seq<State>, steps: seq<Step>, n: nat, skip: nat)
    requires 1 <= skip && IsRun(states, steps, skip) && NoHarm(states, steps) && n <= |steps|
    ensures CanFinish(states[n], skip) <==> !Blocked(states[n], skip)
  {
    var s := states[n];
    RunInv(states, steps, n, skip);
    if Blocked(s, skip) {
      var d: Day, i: nat :| Blocks(s, d, i, skip);
      NeverDone(s, d, i, skip);
    } else {
      AfterCrash(s, skip);
    }
  }

  lemma AfterCrash(s: State, skip: nat)
    requires Fit(s, skip)
    ensures CanFinish(s, skip)
  {
    var u := Apply(s, Crash, skip);
    StepKeeps(s, Crash, skip);
    StaysFree(s, u, skip);
    var more, t := WorkDelivers(u, skip);
    assert ([Crash] + more)[1..] == more;
    assert Leads(s, [Crash] + more, t, skip) && Done(t, skip);
  }

  lemma NeverDone(s: State, d: Day, i: nat, skip: nat)
    requires 1 <= skip && Inv(s, skip) && Blocks(s, d, i, skip)
    ensures !CanFinish(s, skip) && !WorksOut(s, skip)
  {
    forall steps, t | Leads(s, steps, t, skip)
      ensures !Done(t, skip)
    {
      if d < s.today {
        PastHolds(s, d, i, skip);
        StuckForEver(s, steps, t, d, i, skip);
      } else {
        PutsGrow(s, steps, t, d, skip);
        assert !Taken(t, d, i, skip);
      }
    }
  }

  lemma {:induction false} PutsGrow(s: State, steps: seq<Step>, t: State, d: Day, skip: nat)
    requires Leads(s, steps, t, skip)
    ensures PutsOn(s, d) <= PutsOn(t, d)
    decreases |steps|
  {
    if steps == [] {
    } else {
      PutsGrow(Apply(s, steps[0], skip), steps[1..], t, d, skip);
    }
  }

  /** The retransmitter is about to read today's file, or has a record of it in hand. */
  predicate ServesToday(c: Control) {
    c.TodayNext? || ((c.Posting? || c.Posted?) && !c.past)
  }

  /**
   A past file with a blocking record starves today's: however things go on, the file stays, today's
   is never chosen, and once the record in hand is done with none of a day's own is read again.
   */
  lemma BlockedStarvesToday(s: State, steps: seq<Step>, t: State, d: Day, i: nat, skip: nat)
    requires 1 <= skip && Inv(s, skip) && Leads(s, steps, t, skip) && Blocks(s, d, i, skip) && d < s.today
    ensures d in t.files && d < t.today && !Enabled(t, ChooseToday)
    ensures !ServesToday(s.control) ==> !ServesToday(t.control)
  {
    PastHolds(s, d, i, skip);
    StuckForEver(s, steps, t, d, i, skip);
    NeverServed(s, steps, t, d, i, skip);
  }

  lemma {:induction false} NeverServed(s: State, steps: seq<Step>, t: State, d: Day, i: nat, skip: nat)
    requires 1 <= skip && PastInv(s, d, skip) && Blocks(s, d, i, skip) && Leads(s, steps, t, skip)
    ensures !ServesToday(s.control) ==> !ServesToday(t.control)
    decreases |steps|
  {
    if steps == [] {
    } else {
      StuckStep(s, steps[0], d, i, skip);
      StarvedStep(s, steps[0], skip);
      NeverServed(Apply(s, steps[0], skip), steps[1..], t, d, i, skip);
    }
  }

  lemma StarvedStep(s: State, step: Step, skip: nat)
    requires Enabled(s, step) && !Enabled(s, ChooseToday)
    ensures !ServesToday(s.control) ==> !ServesToday(Apply(s, step, skip).control)
  {
  }

  /** With one byte skipped nothing blocks; with two, only records of one byte that were left to a past day. */
  lemma WhatBlocks(s: State, d: Day, i: nat, skip: nat)
    requires Inv(s, skip) && 1 <= skip <= 2
    ensures Blocks(s, d, i, skip) <==>
              && skip == 2 && d < s.today && MarksOn(s, d) <= i < |PutsOn(s, d)|
              && |PutsOn(s, d)[i]| == 1
  {
    assert DayInv(s, d);
  }
}
