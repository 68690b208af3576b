/**
 One turn after the other of the loops of rexmit/rexmit.cpp, as calls of the packet file manager: each
 call, with what it returns and what the loop makes of that, is a step of the record log system.
 */
module RexmitLoop {
  import opened Bytes
  import opened Options
  import opened PacketCodec
  import opened PacketFileMgr
  import opened LogFile
  import opened RexmitSystem

  /** The manager's stream and saved positions are those of the record in hand, and its disk holds the files. */
  ghost predicate Stands(mgr: PacketFileMgr, s: State, skip: nat)
    reads mgr, mgr.disk
  {
    && mgr.skip == skip && mgr.disk.files == s.files
    && match s.control
       case PastNext(name, pos) => mgr.fs == Some(name) && mgr.pos == pos
       case Posting(past, day, b, e, _) => AtLine(mgr, past, day, b, e)
       case Posted(past, day, b, e) => AtLine(mgr, past, day, b, e)
       case _ => true
  }

  ghost predicate AtLine(mgr: PacketFileMgr, past: bool, day: Day, b: nat, e: nat)
    reads mgr
  {
    if past then mgr.fs == Some(day) && mgr.posLineBegin == b && mgr.posLineEnd == mgr.pos == e
    else mgr.posLineBeginTodayfile == b && mgr.posLineEndTodayfile == e
  }

  /** The gateway's put of a payload and its newline. */
  method PutStep(mgr: PacketFileMgr, p: seq<byte>, io: Io, today: Day, ghost s: State, skip: nat)
    returns (code: Code, ghost t: State)
    requires IsPayload(p) && mgr.disk.files == s.files && today == s.today
    modifies mgr.disk
    ensures mgr.disk.files == t.files
    ensures t == if code.Ok? then Apply(s, Put(p), skip)
                 else if code.FileOpenFailed? then s else Apply(s, PutFailed, skip)
    ensures code.Ok? <==> !io.NoOpen? && !io.NoLock? && !io.NoWrite?
  {
    code := mgr.PutTodayRecord(today, p + [NEWLINE], io);
    assert ['R' as byte] + (p + [NEWLINE]) == [MARK_UNSENT] + (p + [NEWLINE]);
    t := if code.Ok? then Apply(s, Put(p), skip)
         else if code.FileOpenFailed? then s else Apply(s, PutFailed, skip);
  }

  /** Choosing a file; a directory or file that cannot be opened ends the process. */
  method ChooseStep(mgr: PacketFileMgr, fileList: seq<Day>, io: Io, today: Day, ghost s: State, skip: nat)
    returns (code: Code, ghost step: Step, ghost t: State)
    requires Stands(mgr, s, skip) && s.control.Choosing? && today == s.today
    requires forall day :: day in fileList <==> day in mgr.disk.files
    modifies mgr
    ensures Enabled(s, step) && t == Apply(s, step, skip) && Stands(mgr, t, skip)
    ensures code != Ok ==> step == Failure && t.control == Exited
    ensures code == Ok ==>
              if s.files == map[] then t.control == Choosing
              else if s.files.Keys == {s.today} then t.control == TodayNext
              else exists name :: name in s.files && name != s.today && t.control == PastNext(name, 0)
  {
    var kind, name;
    code, kind, name := mgr.GetFile(today, fileList, io);
    step := if code != Ok then Failure
            else if kind.NoFile? then ChooseNone
            else if kind.TodayFile? then ChooseToday else ChoosePast(name);
    t := Apply(s, step, skip);
  }

  lemma PastLinesFit(s: State, skip: nat)
    requires Inv(s, skip) && s.control.PastNext?
    ensures var file := s.files[s.control.name]; s.control.pos <= |file| && LinesFit(file, s.control.pos)
  {
    var d, pos := s.control.name, s.control.pos;
    var ps, m := PutsOn(s, d), MarksOn(s, d);
    assert DayInv(s, d);
    RecordLinesFit(Recs(ps, m), 0);
    StartBounds(Recs(ps, m), 0);
    if pos != 0 {
      RecordLinesFit(Recs(ps, m), m);
      StartIsOffset(ps, m, m);
    }
  }

  /** Reading on in a past file; a read that fails leaves the file, which is chosen again. */
  method ReadPastStep(mgr: PacketFileMgr, io: Io, ghost s: State, skip: nat)
    returns (code: Code, strPost: seq<byte>, ghost step: Step, ghost t: State)
    requires Inv(s, skip) && Stands(mgr, s, skip) && s.control.PastNext?
    modifies mgr
    ensures Enabled(s, step) && t == Apply(s, step, skip) && Stands(mgr, t, skip)
    ensures code == FileReadError ==> step == Failure && t.control == Choosing
    ensures code == AllRecordSent ==> t.control == AllSent(s.control.name)
    ensures code == Ok ==>
              if strPost == [] then t.control == Choosing
              else t.control == Posting(true, s.control.name, mgr.posLineBegin, mgr.posLineEnd, strPost)
  {
    PastLinesFit(s, skip);
    code, strPost := mgr.GetRecord(io);
    step := if code == FileReadError then Failure else ReadPast;
    t := Apply(s, step, skip);
  }

  /** Rescanning today's file; where that fails the process ends. */
  method ReadTodayStep(mgr: PacketFileMgr, io: Io, today: Day, ghost s: State, skip: nat)
    returns (code: Code, strPost: seq<byte>, ghost step: Step, ghost t: State)
    requires Stands(mgr, s, skip) && s.control.TodayNext? && today == s.today
    modifies mgr
    ensures Enabled(s, step) && t == Apply(s, step, skip) && Stands(mgr, t, skip)
    ensures code != Ok ==> t.control == Exited
    ensures code == Ok ==>
              if strPost == [] then t.control == Choosing
              else t.control == Posting(false, s.today, mgr.posLineBeginTodayfile, mgr.posLineEndTodayfile, strPost)
  {
    code, strPost := mgr.GetTodayRecord(today, io);
    step := if code != Ok then Failure else ReadToday;
    t := Apply(s, step, skip);
  }

  /** The inner loop: every post without an answer is followed by another of the same text. */
  method PostStep(answered: bool, ghost s: State, skip: nat) returns (ghost step: Step, ghost t: State)
    requires s.control.Posting?
    ensures Enabled(s, step) && t == Apply(s, step, skip)
    ensures !answered ==> t == s
    ensures answered ==>
              var c := s.control;
              && t.control == Posted(c.past, c.day, c.begin, c.end) && |t.acks| == |s.acks| + 1
              && t.acks[|s.acks|].begin == c.begin && t.acks[|s.acks|].text == c.text
  {
    step := if answered then PostAcked else PostUnanswered;
    t := Apply(s, step, skip);
  }

  /** Marking in the open past file, from where reading goes on. */
  method MarkPastStep(mgr: PacketFileMgr, ghost s: State, skip: nat) returns (ghost t: State)
    requires Inv(s, skip) && Stands(mgr, s, skip) && s.control.Posted? && s.control.past
    modifies mgr, mgr.disk
    ensures Enabled(s, Mark) && t == Apply(s, Mark, skip) && Stands(mgr, t, skip)
    ensures t.control == PastNext(s.control.day, s.control.end)
    ensures t.files == s.files[s.control.day := Overwrite(s.files[s.control.day], s.control.begin, 'S' as byte)]
  {
    var code := mgr.UpdateRecord();
    t := Apply(s, Mark, skip);
  }

  /** Marking in whatever file bears today's name by then; where that fails the loop goes on all the same. */
  method MarkTodayStep(mgr: PacketFileMgr, io: Io, today: Day, ghost s: State, skip: nat)
    returns (code: Code, ghost step: Step, ghost t: State)
    requires Stands(mgr, s, skip) && s.control.Posted? && !s.control.past && today == s.today
    modifies mgr.disk
    ensures Enabled(s, step) && t == Apply(s, step, skip) && Stands(mgr, t, skip)
    ensures t.control == Choosing && (code != Ok ==> step == MarkRefused && t.files == s.files)
    ensures code == Ok ==>
              && s.today in s.files
              && t.files == s.files[s.today := Overwrite(s.files[s.today], s.control.begin, 'S' as byte)]
  {
    code := mgr.UpdateRecordToday(today, io);
    step := if code == Ok then Mark else MarkRefused;
    t := Apply(s, step, skip);
  }

  /** Deleting a past file in which nothing is unsent; one that cannot be deleted is chosen again. */
  method DeleteStep(mgr: PacketFileMgr, name: Day, io: Io, ghost s: State, skip: nat)
    returns (code: Code, ghost step: Step, ghost t: State)
    requires Inv(s, skip) && Stands(mgr, s, skip) && s.control == AllSent(name)
    modifies mgr, mgr.disk
    ensures Enabled(s, step) && t == Apply(s, step, skip) && Stands(mgr, t, skip)
    ensures t.control == Choosing && t.files == if code == Ok then s.files - {name} else s.files
    ensures code == Ok <==> !io.NoRemove?
  {
    code := mgr.DeleteFile(name, io);
    step := if code == Ok then Delete else Failure;
    t := Apply(s, step, skip);
  }
}
