/**
 Working off what a day has left behind when a record of an earlier day is still in hand: the late mark
 is part of the work. What it adds behind today's file, or writes on a byte that is skipped, stops
 nothing; a record that it hits is never delivered.
 */
module LateWork {
  import opened Bytes
  import opened Options
  import opened PacketCodec
  import opened PacketFileMgr
  import opened LogFile
  import opened RexmitSystem
  import opened LateMark
  import opened WorkOff

  // ---------------------------------------------------------------- a file that reads like another

  predicate IsMute(bytes: seq<byte>) {
    MARK_UNSENT !in bytes
  }

  lemma {:induction false} MuteScan(file: seq<byte>, pos: nat)
    requires forall i :: pos <= i < |file| ==> file[i] != MARK_UNSENT
    ensures FindUnsent(file, pos) == None
    decreases |file| - pos
  {
    if |file| <= pos {
    } else {
      MuteScan(file, NextLine(file, pos));
    }
  }

  /** Bytes without an unsent mark behind the last line are not noticed by a rescan. */
  lemma ScanWithTail(f: seq<byte>, tail: seq<byte>)
    requires EndsInNewline(f) && IsMute(tail)
    ensures FindUnsent(f + tail, 0) == FindUnsent(f, 0)
  {
    ScanGoesOn(f, tail, 0);
    forall i | |f| <= i < |f + tail|
      ensures (f + tail)[i] != MARK_UNSENT
    {
      assert (f + tail)[i] == tail[i - |f|] && tail[i - |f|] in tail;
    }
    MuteScan(f + tail, |f|);
  }

  lemma ReadWithTail(f: seq<byte>, tail: seq<byte>, d: Day, skip: nat)
    requires EndsInNewline(f) && IsMute(tail)
    ensures Read(false, d, f + tail, 0, skip) == Read(false, d, f, 0, skip)
  {
    ScanWithTail(f, tail);
    match FindUnsent(f, 0)
    case None =>
    case Some(b) =>
      NextLineStays(f, tail, b);
      assert (f + tail)[b..NextLine(f, b)] == f[b..NextLine(f, b)];
  }

  /** What a rescan makes of records that read alike, whatever the tail behind them. */
  lemma ReadTwin(ps: Payloads, qs: Payloads, m: nat, tail: seq<byte>, d: Day, skip: nat)
    requires 1 <= skip && ArePayloads(ps) && ArePayloads(qs) && ReadAlike(ps, qs, skip) && m <= |ps| && IsMute(tail)
    ensures Read(false, d, FileOf(qs, m) + tail, 0, skip) == Read(false, d, FileOf(ps, m), 0, skip)
  {
    FileEnds(qs, m);
    ReadWithTail(FileOf(qs, m), tail, d, skip);
    ReadOf(ps, m, false, d, 0, skip);
    ReadOf(qs, m, false, d, 0, skip);
    OffsetAlike(ps, qs, skip, m);
    if m < |ps| {
      OffsetAlike(ps, qs, skip, m + 1);
      assert SameTexts(ps[m], qs[m], skip);
    }
  }

  lemma MarkTwin(ps: Payloads, qs: Payloads, m: nat, tail: seq<byte>, skip: nat)
    requires ReadAlike(ps, qs, skip) && ArePayloads(qs) && m < |ps|
    ensures Overwrite(FileOf(qs, m) + tail, Offset(ps, m), MARK_SENT) == FileOf(qs, m + 1) + tail
  {
    OffsetAlike(ps, qs, skip, m);
    LineOfRecord(qs, m, m);
    Marked(qs, m);
    OverwriteBefore(FileOf(qs, m), tail, Offset(qs, m), MARK_SENT);
  }

  lemma OverwriteBefore(f: seq<byte>, tail: seq<byte>, at: nat, x: byte)
    requires at < |f|
    ensures Overwrite(f + tail, at, x) == Overwrite(f, at, x) + tail
  {
  }

  // ---------------------------------------------------------------- the same work on it

  /** Two states that differ in today's file alone, which reads alike and may have a tail. */
  ghost predicate Twin(s: State, s': State, qs: Payloads, tail: seq<byte>, skip: nat) {
    && s.today in s.files && ReadAlike(PutsOn(s, s.today), qs, skip) && ArePayloads(qs) && IsMute(tail)
    && s' == s.(files := s.files[s.today := FileOf(qs, MarksOn(s, s.today)) + tail])
  }

  /** Work never comes to hold a record of an earlier day as one of today's. */
  lemma StaysCurrent(s: State, step: Step, skip: nat)
    requires !IsStale(s) && Enabled(s, step) && IsWork(step)
    ensures !IsStale(Apply(s, step, skip)) && Harmless(s, step) && Apply(s, step, skip).today == s.today
  {
  }

  lemma TwinMark(s: State, s': State, qs: Payloads, tail: seq<byte>, skip: nat)
    requires ControlInv(s, skip) && !IsStale(s) && s.control.Posted? && Twin(s, s', qs, tail, skip)
    ensures Enabled(s', Mark) && Twin(Apply(s, Mark, skip), Apply(s', Mark, skip), qs, tail, skip)
  {
    if s.control.past {
      TwinPastMark(s, s', qs, tail, skip);
    } else {
      TwinTodayMark(s, s', qs, tail, skip);
    }
  }

  lemma TwinTodayMark(s: State, s': State, qs: Payloads, tail: seq<byte>, skip: nat)
    requires ControlInv(s, skip) && s.control.Posted? && !s.control.past && s.control.day == s.today
    requires Twin(s, s', qs, tail, skip)
    ensures Enabled(s', Mark) && Twin(Apply(s, Mark, skip), Apply(s', Mark, skip), qs, tail, skip)
  {
    var m, at := MarksOn(s, s.today), s.control.begin;
    MarkTwin(PutsOn(s, s.today), qs, m, tail, skip);
    TwinFilesHere(s.files, s.today, FileOf(qs, m) + tail, Overwrite(s.files[s.today], at, MARK_SENT),
                  FileOf(qs, m + 1) + tail);
  }

  lemma TwinFilesHere(files: Files, today: Day, g: seq<byte>, f: seq<byte>, g': seq<byte>)
    ensures files[today := g][today := g'] == files[today := f][today := g']
  {
  }

  lemma TwinPastMark(s: State, s': State, qs: Payloads, tail: seq<byte>, skip: nat)
    requires ControlInv(s, skip) && s.control.Posted? && s.control.past && Twin(s, s', qs, tail, skip)
    ensures Enabled(s', Mark) && Twin(Apply(s, Mark, skip), Apply(s', Mark, skip), qs, tail, skip)
  {
    TwinFilesElsewhere(s.files, s.today, FileOf(qs, MarksOn(s, s.today)) + tail, s.control.day,
                       Overwrite(s.files[s.control.day], s.control.begin, MARK_SENT));
  }

  lemma TwinFilesElsewhere(files: Files, today: Day, g: seq<byte>, d: Day, f: seq<byte>)
    requires d != today
    ensures files[today := g][d := f] == files[d := f][today := g]
  {
  }

  lemma TwinStep(s: State, s': State, qs: Payloads, tail: seq<byte>, step: Step, skip: nat)
    requires 1 <= skip && Inv(s, skip) && !IsStale(s) && Enabled(s, step) && IsWork(step)
    requires Twin(s, s', qs, tail, skip)
    ensures Enabled(s', step) && Twin(Apply(s, step, skip), Apply(s', step, skip), qs, tail, skip)
  {
    assert DayInv(s, s.today);
    assert s'.files.Keys == s.files.Keys;
    match step
    case ReadToday => ReadTwin(PutsOn(s, s.today), qs, MarksOn(s, s.today), tail, s.today, skip);
    case Mark => TwinMark(s, s', qs, tail, skip);
    case Delete => TwinDelete(s.files, s.today, FileOf(qs, MarksOn(s, s.today)) + tail, s.control.name);
    case _ =>
  }

  lemma TwinDelete(files: Files, today: Day, g: seq<byte>, d: Day)
    requires d != today
    ensures files[today := g] - {d} == (files - {d})[today := g]
  {
  }

  lemma {:induction false} TwinWork(s: State, s': State, qs: Payloads, tail: seq<byte>,
                                    steps: seq<Step>, t: State, skip: nat) returns (t': State)
    requires 1 <= skip && Inv(s, skip) && !IsStale(s) && Twin(s, s', qs, tail, skip)
    requires Leads(s, steps, t, skip) && forall i :: 0 <= i < |steps| ==> IsWork(steps[i])
    ensures Leads(s', steps, t', skip) && Twin(t, t', qs, tail, skip)
    decreases |steps|
  {
    if steps == [] {
      t' := s';
    } else {
      var step, rest := steps[0], steps[1..];
      assert IsWork(step) && forall i :: 0 <= i < |rest| ==> rest[i] == steps[i + 1];
      StaysCurrent(s, step, skip);
      StepKeeps(s, step, skip);
      TwinStep(s, s', qs, tail, step, skip);
      t' := TwinWork(Apply(s, step, skip), Apply(s', step, skip), qs, tail, rest, t, skip);
    }
  }

  lemma TwinDone(t: State, t': State, qs: Payloads, tail: seq<byte>, skip: nat)
    requires Done(t, skip) && AllMarked(t) && Twin(t, t', qs, tail, skip)
    ensures Done(t', skip) && AllMarked(t')
  {
    forall d: Day, i: nat | i < |PutsOn(t', d)|
      ensures Taken(t', d, i, skip)
    {
      assert Taken(t, d, i, skip);
    }
    assert MarksOn(t, t.today) == |PutsOn(t, t.today)|;
    FileEnds(qs, |qs|);
    ScanOn(qs, |qs|, 0);
    ScanWithTail(FileOf(qs, |qs|), tail);
    assert t'.files[t.today] == FileOf(qs, |qs|) + tail;
    assert FindUnsent(t'.files[t.today], 0) == None;
    forall d: Day
      ensures MarksOn(t', d) == |PutsOn(t', d)|
    {
      assert MarksOn(t, d) == |PutsOn(t, d)|;
    }
  }

  // ---------------------------------------------------------------- a late mark that hits nothing

  /** It leaves what a refused mark leaves, but for bytes of today's file that no reader notices. */
  lemma LateMarkTwin(s: State, skip: nat) returns (qs: Payloads, tail: seq<byte>)
    requires 1 <= skip && Inv(s, skip) && IsLate(s) && Strays(s) && !Hits(s, skip)
    ensures Twin(Apply(s, MarkRefused, skip), Apply(s, Mark, skip), qs, tail, skip)
  {
    if Spares(s) {
      qs, tail := PutsOn(s, s.today), seq(s.control.begin - |s.files[s.today]|, _ => 0) + [MARK_SENT];
      StrayTwin(s, tail, skip);
    } else {
      qs := SkippedMark(s, skip);
      tail := [];
      assert DayInv(s, s.today);
      NewDayUnmarked(s, skip);
      assert FileOf(qs, 0) + tail == FileOf(qs, 0);
    }
  }

  lemma StrayTwin(s: State, tail: seq<byte>, skip: nat)
    requires 1 <= skip && Inv(s, skip) && IsStray(s)
    requires tail == seq(s.control.begin - |s.files[s.today]|, _ => 0) + [MARK_SENT]
    ensures Twin(Apply(s, MarkRefused, skip), Apply(s, Mark, skip), PutsOn(s, s.today), tail, skip)
  {
    assert DayInv(s, s.today);
    NewDayUnmarked(s, skip);
    assert Overwrite(s.files[s.today], s.control.begin, MARK_SENT) == s.files[s.today] + tail;
  }

  /** The mark is written, and the rest is worked off as if it had not been. */
  lemma StrayDelivers(s: State, skip: nat) returns (steps: seq<Step>, t: State)
    requires Fit(s, skip) && IsLate(s) && Strays(s) && !Hits(s, skip)
    ensures Work(s, steps, t, skip) && Done(t, skip) && AllMarked(t)
  {
    var u, u' := Apply(s, MarkRefused, skip), Apply(s, Mark, skip);
    StepKeeps(s, MarkRefused, skip);
    StaysFree(s, u, skip);
    var more, v := WorkDelivers(u, skip);
    var qs, tail := LateMarkTwin(s, skip);
    t := TwinWork(u, u', qs, tail, more, v, skip);
    TwinDone(v, t, qs, tail, skip);
    steps := [Mark] + more;
    assert steps[1..] == more;
  }

  /** Unless a record blocks, or the mark that is due hits one, work alone delivers everything. */
  lemma CanBeWorkedOff(s: State, skip: nat) returns (steps: seq<Step>, t: State)
    requires Fit(s, skip) && !Hits(s, skip)
    ensures Work(s, steps, t, skip) && Done(t, skip) && AllMarked(t)
  {
    if !Strays(s) {
      steps, t := WorkDelivers(s, skip);
    } else if s.control.Posted? {
      steps, t := StrayDelivers(s, skip);
    } else {
      FitStep(s, PostAcked, skip);
      var u := Apply(s, PostAcked, skip);
      SameHits(s, u, skip);
      steps, t := StrayDelivers(u, skip);
      WorkOn(s, [PostAcked], u, steps, t, skip);
      steps := [PostAcked] + steps;
    }
  }

  lemma SameHits(s: State, u: State, skip: nat)
    requires s.control.Posting? && u == Apply(s, PostAcked, skip)
    ensures forall i: nat :: HitsRecord(s, i, skip) <==> HitsRecord(u, i, skip)
    ensures Hits(s, skip) <==> Hits(u, skip)
  {
    forall i: nat
      ensures HitsRecord(s, i, skip) <==> HitsRecord(u, i, skip)
    {
      assert PutsOn(u, u.today) == PutsOn(s, s.today);
    }
  }

  // ---------------------------------------------------------------- a late mark that hits a record

  lemma {:induction false} LineEnds(file: seq<byte>, pos: nat, room: nat)
    ensures var e := LineEnd(file, pos, room);
            e <= pos || e == |file| || e == pos + room || (e <= |file| && file[e - 1] == NEWLINE)
    decreases room
  {
    if |file| <= pos || room == 0 || file[pos] == NEWLINE {
    } else {
      LineEnds(file, pos + 1, room - 1);
    }
  }

  /** What fgets leaves in the buffer: it stops at the end of the file, of the buffer or of the line. */
  predicate IsLine(file: seq<byte>, b: nat, e: nat) {
    b < e <= |file| && (e == |file| || e == b + PACKET_LINE_SIZE - 1 || file[e - 1] == NEWLINE)
  }

  lemma NextIsLine(file: seq<byte>, b: nat)
    requires b < |file|
    ensures IsLine(file, b, NextLine(file, b))
  {
    LineEnds(file, b, PACKET_LINE_SIZE - 1);
  }

  /** Where a byte of a record's line is in the text that the reader of a past file hands on. */
  lemma HandedPastAt(p: seq<byte>, skip: nat, k: nat)
    requires 1 <= skip <= k < |p| + 1
    ensures |TextOf(true, p, skip)| == |p| + 1 - skip
    ensures TextOf(true, p, skip)[k - skip] == Encode(Rec(false, p))[k]
  {
  }

  lemma OtherPastText(file: seq<byte>, b: nat, e: nat, at: nat, p: seq<byte>, skip: nat, text: seq<byte>)
    requires 1 <= skip && b + skip <= at < b + |p| + 1 && ShowsBytes(file, b + skip, e, text)
    requires at < |file| && file[at] == MARK_SENT != Encode(Rec(false, p))[at - b]
    ensures text != TextOf(true, p, skip)
  {
    HandedPastAt(p, skip, at - b);
    assert at - b - skip < |text| ==> text[at - b - skip] == file[at];
  }

  /** A line that shows the sent mark where the record had another byte hands on neither of its texts. */
  lemma NeitherText(file: seq<byte>, b: nat, e: nat, at: nat, p: seq<byte>, skip: nat, text: seq<byte>)
    requires IsLine(file, b, e) && IsPayload(p) && 1 <= skip && b + skip <= at < b + |p| + 2
    requires at < |file| && file[at] == MARK_SENT != Encode(Rec(false, p))[at - b]
    requires ShowsBytes(file, b + skip, e, text) && text != []
    ensures text != TextOf(false, p, skip) && text != TextOf(true, p, skip)
  {
    OtherText(file, b, e, at, p, skip, text);
    if at <= b + |p| {
      OtherPastText(file, b, e, at, p, skip, text);
    } else if text == TextOf(true, p, skip) {
      TextStopsShort(file, b, e, p, skip, text);
      assert false;
    }
  }

  /** The text without the newline comes only from a line in which a terminator or a newline ends it. */
  lemma TextStopsShort(file: seq<byte>, b: nat, e: nat, p: seq<byte>, skip: nat, text: seq<byte>)
    requires IsLine(file, b, e) && IsPayload(p) && 1 <= skip && ShowsBytes(file, b + skip, e, text)
    requires text == TextOf(true, p, skip) != [] && b + |p| + 1 < |file|
    ensures file[b + |p| + 1] == 0 || file[b + |p| + 1] == NEWLINE
  {
    HandedPastAt(p, skip, |p|);
    assert text[|p| - skip] == file[b + |p|] == p[|p| - 1];
  }

  /** No acknowledgement is record i's own, nor will what is in hand be. */
  ghost predicate NotDelivered(s: State, i: nat, skip: nat) {
    var d, ps := s.today, PutsOn(s, s.today);
    && (forall a :: a in s.acks ==> !IsOwn(a, d, ps, i, skip))
    && match s.control
       case PastNext(name, _) => name != d
       case Posting(past, day, b, _, text) =>
         day == d ==> !past && !IsOwn(Ack((d, i), b, text), d, ps, i, skip)
       case Posted(past, day, _, _) => day == d ==> !past
       case AllSent(name) => name != d
       case _ => true
  }

  /** A byte of record i's line that a reader looks at has become the sent mark. */
  ghost predicate Spoiled(s: State, i: nat, at: nat, skip: nat) {
    var ps := PutsOn(s, s.today);
    && s.today in s.files && i < |ps| && IsPayload(ps[i]) && Looked(ps, i, at, skip)
    && at < |s.files[s.today]| && s.files[s.today][at] == MARK_SENT
    && Encode(Rec(false, ps[i]))[at - Offset(ps, i)] != MARK_SENT
    && NotDelivered(s, i, skip)
  }

  /** The rescan may come to the spoiled line, but does not hand on the record's text. */
  lemma SpoiledRead(s: State, i: nat, at: nat, skip: nat)
    requires 1 <= skip && Spoiled(s, i, at, skip) && s.control.TodayNext?
    ensures Spoiled(Apply(s, ReadToday, skip), i, at, skip)
  {
    var g, ps := s.files[s.today], PutsOn(s, s.today);
    match FindUnsent(g, 0)
    case None =>
    case Some(b) =>
      var e := NextLine(g, b);
      if b == Offset(ps, i) && TextIn(g, false, b, e, skip) != [] {
        assert at != b;
        NextIsLine(g, b);
        if b + skip <= at {
          TextShows(g, b, e, skip);
          NeitherText(g, b, e, at, ps[i], skip, TextIn(g, false, b, e, skip));
        }
      }
  }

  lemma SpoiledMark(s: State, i: nat, at: nat, skip: nat)
    requires Spoiled(s, i, at, skip) && Enabled(s, Mark)
    ensures Spoiled(Apply(s, Mark, skip), i, at, skip)
  {
  }

  lemma SpoiledStep(s: State, step: Step, i: nat, at: nat, skip: nat)
    requires 1 <= skip && Spoiled(s, i, at, skip) && Enabled(s, step) && IsWork(step)
    ensures Spoiled(Apply(s, step, skip), i, at, skip)
  {
    match step
    case ReadToday => SpoiledRead(s, i, at, skip);
    case Mark => SpoiledMark(s, i, at, skip);
    case _ =>
  }

  /** Before the mark is written there is nothing else to do, and afterwards the record is spoiled. */
  lemma HitStep(s: State, step: Step, i: nat, skip: nat)
    requires 1 <= skip && Inv(s, skip) && HitsRecord(s, i, skip) && Enabled(s, step) && IsWork(step)
    ensures var t := Apply(s, step, skip);
            || Spoiled(t, i, s.control.begin, skip)
            || (Inv(t, skip) && HitsRecord(t, i, skip) && t.control.begin == s.control.begin)
  {
    if step == Mark {
      HitMark(s, i, skip);
    } else {
      StepKeeps(s, step, skip);
    }
  }

  lemma HitMark(s: State, i: nat, skip: nat)
    requires Inv(s, skip) && HitsRecord(s, i, skip) && Enabled(s, Mark)
    ensures Spoiled(Apply(s, Mark, skip), i, s.control.begin, skip)
  {
    var ps := PutsOn(s, s.today);
    assert DayInv(s, s.today);
    NewDayUnmarked(s, skip);
    LineOfRecord(ps, 0, i);
    LineByte(s.files[s.today], Offset(ps, i), ps[i], s.control.begin);
  }

  /** Work does not get a record delivered that the mark in hand hits. */
  lemma {:induction false} HitNeverDone(s: State, steps: seq<Step>, t: State, i: nat, at: nat, skip: nat)
    requires 1 <= skip && Leads(s, steps, t, skip) && forall k :: 0 <= k < |steps| ==> IsWork(steps[k])
    requires Spoiled(s, i, at, skip) || (Inv(s, skip) && HitsRecord(s, i, skip) && s.control.begin == at)
    ensures !Done(t, skip)
    decreases |steps|
  {
    if steps == [] {
      assert Spoiled(s, i, at, skip) ==> !Taken(s, s.today, i, skip);
    } else {
      var step, rest := steps[0], steps[1..];
      assert IsWork(step) && forall k :: 0 <= k < |rest| ==> rest[k] == steps[k + 1];
      if Spoiled(s, i, at, skip) {
        SpoiledStep(s, step, i, at, skip);
      } else {
        HitStep(s, step, i, skip);
      }
      HitNeverDone(Apply(s, step, skip), rest, t, i, at, skip);
    }
  }

  // ---------------------------------------------------------------- the theorem

  /** In every reachable state work alone gets everything done exactly if no record blocks and no mark hits one. */
  lemma WorksOutExactly(states: seq<State>, steps: seq<Step>, n: nat, skip: nat)
    requires 1 <= skip && IsRun(states, steps, skip) && NoHarm(states, steps) && n <= |steps|
    ensures WorksOut(states[n], skip) <==> !Blocked(states[n], skip) && !Hits(states[n], skip)
  {
    var s := states[n];
    RunInv(states, steps, n, skip);
    if Blocked(s, skip) {
      var d: Day, i: nat :| Blocks(s, d, i, skip);
      NeverDone(s, d, i, skip);
    } else if Hits(s, skip) {
      var i: nat :| HitsRecord(s, i, skip);
      forall more, t | Work(s, more, t, skip)
        ensures !Done(t, skip)
      {
        HitNeverDone(s, more, t, i, s.control.begin, skip);
      }
    } else {
      var more, t := CanBeWorkedOff(s, skip);
      assert Work(s, more, t, skip) && Done(t, skip);
    }
  }
}
