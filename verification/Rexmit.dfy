/**
 The loop of rexmit/rexmit.cpp that drains one past file: read the next unsent record, post it
 until it is acknowledged, mark it, and delete the file once nothing unsent is left.
 */
module Rexmit {
  import opened Bytes
  import opened Options
  import opened PacketCodec
  import opened PacketFileMgr

  /** What a reader that skips some bytes of the line hands on of a payload. */
  function Handed(p: seq<byte>, skip: nat): seq<byte> {
    if 1 <= skip <= |p| then p[skip - 1..] else []
  }

  /** The first unsent record too short to hand on anything, or the number of records. */
  function Blocking(recs: seq<Rec>, skip: nat, k: nat): (j: nat)
    requires k <= |recs|
    ensures k <= j <= |recs|
    ensures j < |recs| ==> !recs[j].sent && |recs[j].payload| < skip
    ensures forall i :: k <= i < j ==> recs[i].sent || skip <= |recs[i].payload|
    decreases |recs| - k
  {
    if k == |recs| || (!recs[k].sent && |recs[k].payload| < skip) then k else Blocking(recs, skip, k + 1)
  }

  /** What is handed on of the unsent ones among the first k records, in file order. */
  function UnsentTexts(recs: seq<Rec>, skip: nat, k: nat): seq<seq<byte>>
    requires k <= |recs|
  {
    if k == 0 then []
    else
      UnsentTexts(recs, skip, k - 1) + if recs[k - 1].sent then [] else [Handed(recs[k - 1].payload, skip)]
  }

  /** The records with the first k all sent. */
  function SentUpTo(recs: seq<Rec>, k: nat): (r: seq<Rec>)
    requires k <= |recs|
    ensures |r| == |recs|
  {
    seq(|recs|, i requires 0 <= i < |recs| => Rec(i < k || recs[i].sent, recs[i].payload))
  }

  /** The index behind the first n unsent records, where the read of the next one begins. */
  function Behind(recs: seq<Rec>, n: nat): (k: nat)
    ensures k <= |recs|
  {
    if n == 0 then 0
    else
      var j := FirstUnsent(recs, Behind(recs, n - 1));
      if j < |recs| then j + 1 else j
  }

  /** The stream fails before the read behind the first n unsent records, those marked, is through. */
  ghost predicate FailsAt(io: Io, recs: seq<Rec>, n: nat) {
    var k := Behind(recs, n);
    ReadInterrupted(io, EncodeAll(SentUpTo(recs, k)), Start(recs, k))
  }

  function Attempts(retries: nat -> nat, n: nat): nat {
    if n == 0 then 0 else Attempts(retries, n - 1) + retries(n - 1) + 1
  }

  /**
   After n records: where the next read begins, how many posts there were, and that no read has
   failed; named so that a proof passes it on as one fact.
   */
  ghost predicate Counted(reading: nat -> Io, retries: nat -> nat, recs: seq<Rec>, n: nat, k: nat, posts: nat) {
    var counted :=
      && k == Behind(recs, n) && posts == Attempts(retries, n)
      && forall i {:trigger FailsAt(reading(i), recs, i)} :: 0 <= i < n ==> !FailsAt(reading(i), recs, i);
    counted
  }

  lemma CountOn(reading: nat -> Io, retries: nat -> nat, recs: seq<Rec>, n: nat, k: nat, posts: nat)
    requires Counted(reading, retries, recs, n, k, posts)
    requires !FailsAt(reading(n), recs, n) && FirstUnsent(recs, k) < |recs|
    ensures Counted(reading, retries, recs, n + 1, FirstUnsent(recs, k) + 1, posts + retries(n) + 1)
  {
  }

  // ---------------------------------------------------------------- the records

  lemma {:induction false} SkipsSent(recs: seq<Rec>, skip: nat, k: nat, j: nat)
    requires k <= j <= |recs| && forall i :: k <= i < j ==> recs[i].sent
    ensures UnsentTexts(recs, skip, j) == UnsentTexts(recs, skip, k)
    ensures Blocking(recs, skip, k) == Blocking(recs, skip, j)
    decreases j - k
  {
    if k == j {
    } else {
      SkipsSent(recs, skip, k, j - 1);
    }
  }

  lemma MarkAdvances(recs: seq<Rec>, k: nat, j: nat)
    requires k <= j < |recs| && forall i :: k <= i < j ==> recs[i].sent
    ensures Sent(SentUpTo(recs, k), j) == SentUpTo(recs, j + 1)
  {
  }

  /** What the texts posted so far are, the first k records being done with and none of them blocking. */
  ghost predicate SoFar(recs: seq<Rec>, skip: nat, k: nat, posted: seq<seq<byte>>) {
    k <= |recs| && Blocking(recs, skip, 0) == Blocking(recs, skip, k) && posted == UnsentTexts(recs, skip, k)
  }

  /** Where the scan comes to the end, or to a record it can hand nothing on of, draining stops. */
  lemma StopsHere(recs: seq<Rec>, skip: nat, k: nat, posted: seq<seq<byte>>)
    requires 1 <= skip && AreRecords(recs) && SoFar(recs, skip, k, posted)
    requires var j := FirstUnsent(recs, k); j < |recs| ==> Handed(recs[j].payload, skip) == []
    ensures Blocking(recs, skip, 0) == FirstUnsent(recs, k)
    ensures SentUpTo(recs, FirstUnsent(recs, k)) == SentUpTo(recs, k)
    ensures posted == UnsentTexts(recs, skip, FirstUnsent(recs, k))
  {
    SkipsSent(recs, skip, k, FirstUnsent(recs, k));
  }

  /** Otherwise what the scan comes to is the next text to post. */
  lemma GoesOn(recs: seq<Rec>, skip: nat, k: nat, posted: seq<seq<byte>>)
    requires 1 <= skip && SoFar(recs, skip, k, posted) && FirstUnsent(recs, k) < |recs|
    requires Handed(recs[FirstUnsent(recs, k)].payload, skip) != []
    ensures SoFar(recs, skip, FirstUnsent(recs, k) + 1, posted + [Handed(recs[FirstUnsent(recs, k)].payload, skip)])
  {
    SkipsSent(recs, skip, k, FirstUnsent(recs, k));
  }

  // ---------------------------------------------------------------- the file

  /** What get_record reads of an unsent record. */
  lemma PastTextIsHanded(recs: seq<Rec>, k: nat, skip: nat)
    requires AreRecords(recs) && k < |recs| && 1 <= skip
    ensures Start(recs, k) < Start(recs, k + 1) <= |EncodeAll(recs)|
    ensures CString(EncodeAll(recs)[Start(recs, k)..Start(recs, k + 1) - 1], skip) == Handed(recs[k].payload, skip)
  {
    var file, b, e := EncodeAll(recs), Start(recs, k), Start(recs, k + 1);
    LineOf(recs, k);
    assert |file[b..e]| == |Encode(recs[k])|;
    TextOfLine(file, b, e, recs[k], skip);
  }

  lemma TextOfLine(file: seq<byte>, b: nat, e: nat, r: Rec, skip: nat)
    requires b < e <= |file| && file[b..e] == Encode(r) && IsPayload(r.payload) && 1 <= skip
    ensures CString(file[b..e - 1], skip) == Handed(r.payload, skip)
  {
    assert file[b..e - 1] == file[b..e][..e - 1 - b];
    if skip <= |r.payload| + 1 {
      PastText(r, skip);
    }
  }

  /** With the first k records marked, every record still lies where it lay. */
  lemma MarkedLieThere(recs: seq<Rec>, k: nat, j: nat)
    requires k <= |recs| && j <= |recs|
    ensures Start(SentUpTo(recs, k), j) == Start(recs, j)
  {
    SameLengths(SentUpTo(recs, k)[..j], recs[..j]);
  }

  lemma MarkedUnsent(recs: seq<Rec>, k: nat)
    requires k <= |recs|
    ensures FirstUnsent(SentUpTo(recs, k), k) == FirstUnsent(recs, k)
  {
    FirstUnsentIs(SentUpTo(recs, k), k, FirstUnsent(recs, k));
  }

  /** Scanning the file from the start of record k, the first k being marked. */
  lemma ScanOfReading(recs: seq<Rec>, k: nat)
    requires AreRecords(recs) && k <= |recs|
    ensures var file, j := EncodeAll(SentUpTo(recs, k)), FirstUnsent(recs, k);
            && Start(recs, k) <= |file| && LinesFit(file, Start(recs, k))
            && FindUnsent(file, Start(recs, k)) == (if j < |recs| then Some(Start(recs, j)) else None)
  {
    var now := SentUpTo(recs, k);
    RecordLinesFit(now, k);
    ScanFinds(now, k);
    MarkedUnsent(recs, k);
    MarkedLieThere(recs, k, k);
    MarkedLieThere(recs, k, FirstUnsent(recs, k));
  }

  /** Record j's line in that file. */
  lemma LineOfReading(recs: seq<Rec>, skip: nat, k: nat, j: nat)
    requires 1 <= skip && AreRecords(recs) && k <= j < |recs|
    ensures LineHands(EncodeAll(SentUpTo(recs, k)), Start(recs, j), Start(recs, j + 1), recs[j], skip)
  {
    MarkedLieThere(recs, k, j);
    MarkedLieThere(recs, k, j + 1);
    LineAt(SentUpTo(recs, k), skip, j, Start(recs, j), Start(recs, j + 1));
  }

  /** From b to e lies a line that hands on a record's payload; named so that a proof passes it on as one fact. */
  predicate LineHands(file: seq<byte>, b: nat, e: nat, r: Rec, skip: nat) {
    var hands := b < e <= |file| && NextLine(file, b) == e && CString(file[b..e - 1], skip) == Handed(r.payload, skip);
    hands
  }

  // No induction: unfolding the encoding costs more than the proof.
  lemma {:induction false} LineAt(recs: seq<Rec>, skip: nat, j: nat, b: nat, e: nat)
    requires 1 <= skip && AreRecords(recs) && j < |recs| && Start(recs, j) == b && Start(recs, j + 1) == e
    ensures LineHands(EncodeAll(recs), b, e, recs[j], skip)
  {
    NextRecord(recs, j);
    PastTextIsHanded(recs, j, skip);
  }

  lemma MarkedFile(recs: seq<Rec>, k: nat)
    requires AreRecords(recs) && k <= |recs| && FirstUnsent(recs, k) < |recs|
    ensures var j := FirstUnsent(recs, k);
            Overwrite(EncodeAll(SentUpTo(recs, k)), Start(recs, j), MARK_SENT) == EncodeAll(SentUpTo(recs, j + 1))
  {
    var j := FirstUnsent(recs, k);
    MarkingChangesOne(SentUpTo(recs, k), j);
    MarkAdvances(recs, k, j);
    MarkedLieThere(recs, k, j);
  }

  // ---------------------------------------------------------------- the loop

  /** Posts until a post is acknowledged, which the given number of attempts are not. */
  method PostUntilAcknowledged(retries: nat) returns (posts: nat)
    ensures posts == retries + 1
  {
    var unanswered := retries;
    posts := 0;
    while unanswered > 0
      invariant posts == retries - unanswered
    {
      posts := posts + 1;
      unanswered := unanswered - 1;
    }
    posts := posts + 1;
  }

  /** The stream is on a file of these records, of which the first k are done with. */
  ghost predicate Reading(mgr: PacketFileMgr, filename: Day, files: Files, recs: seq<Rec>, k: nat)
    reads mgr, mgr.disk
  {
    && k <= |recs|
    && mgr.fs == Some(filename) && mgr.pos == Start(recs, k)
    && mgr.disk.files == files[filename := EncodeAll(SentUpTo(recs, k))]
  }

  /** Draining goes on at record k; named so that a proof passes it on as one fact. */
  ghost predicate Going(mgr: PacketFileMgr, filename: Day, files: Files, recs: seq<Rec>, k: nat,
                        posted: seq<seq<byte>>)
    reads mgr, mgr.disk
  {
    var going := Reading(mgr, filename, files, recs, k) && SoFar(recs, mgr.skip, k, posted);
    going
  }

  lemma FilesOfReading(mgr: PacketFileMgr, filename: Day, files: Files, recs: seq<Rec>, k: nat)
    requires AreRecords(recs) && Reading(mgr, filename, files, recs, k)
    ensures filename in mgr.disk.files
    ensures var file, j := mgr.disk.files[filename], FirstUnsent(recs, k);
            && file == EncodeAll(SentUpTo(recs, k)) && mgr.pos <= |file| && LinesFit(file, mgr.pos)
            && FindUnsent(file, mgr.pos) == (if j < |recs| then Some(Start(recs, j)) else None)
  {
    ScanOfReading(recs, k);
  }

  /** A record and where its line begins and ends. */
  datatype Line = Line(begin: nat, end: nat, rec: Rec)

  /** The line a scan comes to, if it comes to one; named so that a proof passes it on as one fact. */
  ghost predicate ScanComesTo(file: seq<byte>, pos: nat, skip: nat, found: Option<Line>)
    requires pos <= |file|
  {
    var comes := match found
      case None => FindUnsent(file, pos) == None
      case Some(line) =>
        FindUnsent(file, pos) == Some(line.begin) && LineHands(file, line.begin, line.end, line.rec, skip);
    comes
  }

  /** What get_record says of the file it reads, said of the line. */
  lemma HandsOn(file: seq<byte>, pos: nat, skip: nat, found: Option<Line>,
                code: Code, text: seq<byte>, begin: nat, end: nat, open: bool)
    requires pos <= |file| && ScanComesTo(file, pos, skip, found)
    requires match FindUnsent(file, pos)
             case None => code == AllRecordSent
             case Some(b) =>
               && code == Ok && text == CString(file[b..NextLine(file, b) - 1], skip) && open
               && begin == b && end == NextLine(file, b)
    ensures match found
            case None => code == AllRecordSent
            case Some(line) =>
              && code == Ok && text == Handed(line.rec.payload, skip) && open
              && begin == line.begin && end == line.end
  {
  }

  /** A read, given the line that the scan comes to, if it comes to one, and whether the stream fails before. */
  method ReadLine(mgr: PacketFileMgr, io: Io, ghost failing: bool, ghost found: Option<Line>)
    returns (code: Code, strPost: seq<byte>)
    requires mgr.fs.Some? && mgr.fs.value in mgr.disk.files
    requires var file := mgr.disk.files[mgr.fs.value];
             && mgr.pos <= |file| && LinesFit(file, mgr.pos)
             && failing == ReadInterrupted(io, file, mgr.pos)
             && ScanComesTo(file, mgr.pos, mgr.skip, found)
    modifies mgr
    ensures if failing then code == FileReadError
            else
              match found
              case None => code == AllRecordSent
              case Some(line) =>
                && code == Ok && strPost == Handed(line.rec.payload, mgr.skip) && mgr.fs == old(mgr.fs)
                && mgr.posLineBegin == line.begin && mgr.posLineEnd == line.end
  {
    ghost var file, pos, fs := mgr.disk.files[mgr.fs.value], mgr.pos, mgr.fs;
    code, strPost := mgr.GetRecord(io);
    if !failing {
      HandsOn(file, pos, mgr.skip, found, code, strPost, mgr.posLineBegin, mgr.posLineEnd, mgr.fs == fs);
    }
  }

  /** One read of the next unsent record. */
  method ReadNext(mgr: PacketFileMgr, filename: Day, io: Io, ghost files: Files, ghost recs: seq<Rec>, ghost k: nat)
    returns (code: Code, strPost: seq<byte>)
    requires 1 <= mgr.skip && AreRecords(recs) && Reading(mgr, filename, files, recs, k)
    modifies mgr
    ensures var j := FirstUnsent(recs, k);
            if ReadInterrupted(io, EncodeAll(SentUpTo(recs, k)), Start(recs, k)) then code == FileReadError
            else if j == |recs| then code == AllRecordSent
            else
              && code == Ok && strPost == Handed(recs[j].payload, mgr.skip) && mgr.fs == Some(filename)
              && mgr.posLineBegin == Start(recs, j) && mgr.posLineEnd == Start(recs, j + 1)
  {
    ghost var j := FirstUnsent(recs, k);
    FilesOfReading(mgr, filename, files, recs, k);
    if j < |recs| {
      LineOfReading(recs, mgr.skip, k, j);
    }
    ghost var found := if j < |recs| then Some(Line(Start(recs, j), Start(recs, j + 1), recs[j])) else None;
    ghost var failing := ReadInterrupted(io, mgr.disk.files[filename], mgr.pos);
    code, strPost := ReadLine(mgr, io, failing, found);
  }

  /** Marks the record read last, which leaves the stream on the line after it. */
  method MarkLast(mgr: PacketFileMgr, filename: Day, ghost files: Files, ghost recs: seq<Rec>, ghost k: nat)
    requires AreRecords(recs) && k <= |recs| && FirstUnsent(recs, k) < |recs|
    requires mgr.fs == Some(filename) && mgr.disk.files == files[filename := EncodeAll(SentUpTo(recs, k))]
    requires var j := FirstUnsent(recs, k); mgr.posLineBegin == Start(recs, j) && mgr.posLineEnd == Start(recs, j + 1)
    modifies mgr, mgr.disk
    ensures Reading(mgr, filename, files, recs, FirstUnsent(recs, k) + 1)
  {
    var updated := mgr.UpdateRecord();
    MarkedFile(recs, k);
  }

  /** What a file is left with when draining it stops before record stop. */
  ghost predicate Stopped(mgr: PacketFileMgr, filename: Day, files: Files, recs: seq<Rec>, posted: seq<seq<byte>>,
                          stop: nat)
    reads mgr, mgr.disk
  {
    && stop <= |recs|
    && posted == UnsentTexts(recs, mgr.skip, stop)
    && mgr.disk.files == files[filename := EncodeAll(SentUpTo(recs, stop))]
  }

  /** One turn of the loop, to the next record that is sent, to the end or to a failing read. */
  method SendNext(mgr: PacketFileMgr, filename: Day, io: Io, retries: nat,
                  ghost files: Files, ghost recs: seq<Rec>, ghost k: nat, ghost posted: seq<seq<byte>>)
    returns (code: Code, strPost: seq<byte>, posts: nat)
    requires 1 <= mgr.skip && AreRecords(recs) && k == Behind(recs, |posted|)
    requires Going(mgr, filename, files, recs, k, posted)
    modifies mgr, mgr.disk
    ensures code == FileReadError <==> FailsAt(io, recs, |posted|)
    ensures code == FileReadError ==> Stopped(mgr, filename, files, recs, posted, k)
    ensures code == AllRecordSent || (code == Ok && strPost == []) ==>
              && Stopped(mgr, filename, files, recs, posted, Blocking(recs, mgr.skip, 0))
              && (code == AllRecordSent <==> Blocking(recs, mgr.skip, 0) == |recs|)
    ensures code == FileReadError || code == AllRecordSent || code == Ok
    ensures code == Ok && strPost != [] ==>
              var next := FirstUnsent(recs, k) + 1;
              && next <= |recs| && Going(mgr, filename, files, recs, next, posted + [strPost])
              && posts == retries + 1
  {
    posts := 0;
    code, strPost := ReadNext(mgr, filename, io, files, recs, k);
    if code == FileReadError {
    } else if code == AllRecordSent || strPost == [] {
      StopsHere(recs, mgr.skip, k, posted);
    } else {
      GoesOn(recs, mgr.skip, k, posted);
      posts := PostUntilAcknowledged(retries);
      MarkLast(mgr, filename, files, recs, k);
    }
  }

  lemma JustOpened(mgr: PacketFileMgr, filename: Day, files: Files, recs: seq<Rec>)
    requires files == mgr.disk.files && mgr.fs == Some(filename) && mgr.pos == 0
    requires filename in files && files[filename] == EncodeAll(recs)
    ensures Going(mgr, filename, files, recs, 0, [])
  {
    assert SentUpTo(recs, 0) == recs;
    assert files == files[filename := EncodeAll(recs)];
    StartBounds(recs, 0);
  }

  /** Once nothing unsent is left the file is deleted, or stays as it is. */
  method Finish(mgr: PacketFileMgr, filename: Day, deleting: Io,
                ghost files: Files, ghost recs: seq<Rec>, ghost posted: seq<seq<byte>>)
    requires Stopped(mgr, filename, files, recs, posted, |recs|)
    modifies mgr, mgr.disk
    ensures posted == UnsentTexts(recs, mgr.skip, |recs|)
    ensures mgr.disk.files ==
            if deleting.NoRemove? then files[filename := EncodeAll(SentUpTo(recs, |recs|))] else files - {filename}
  {
    UpdateThenRemove(files, filename, EncodeAll(SentUpTo(recs, |recs|)));
    var deleted := mgr.DeleteFile(filename, deleting);
  }

  lemma UpdateThenRemove(files: Files, day: Day, file: seq<byte>)
    ensures files[day := file] - {day} == files - {day}
  {
  }

  /** Why draining a file comes to an end: nothing unsent is left, a record hands on nothing, or a read fails. */
  datatype Ending = Finished | Blocked | Failed

  /** One turn of the loop, which is the last one if there is an ending. */
  method Turn(mgr: PacketFileMgr, filename: Day, reading: nat -> Io, deleting: Io, retries: nat -> nat, n: nat,
              ghost files: Files, ghost recs: seq<Rec>, ghost k: nat, ghost posted: seq<seq<byte>>, ghost posts: nat)
    returns (ending: Option<Ending>, strPost: seq<byte>, more: nat, ghost next: nat)
    requires 1 <= mgr.skip && AreRecords(recs) && k <= |recs| && n == |posted|
    requires Going(mgr, filename, files, recs, k, posted) && Counted(reading, retries, recs, n, k, posts)
    modifies mgr, mgr.disk
    ensures ending.Some? ==>
              && Ended(mgr, filename, deleting, files, recs, k, posted, ending.value)
              && (ending.value == Failed <==> FailsAt(reading(n), recs, n))
    ensures ending.None? ==>
              && k < next <= |recs| && Going(mgr, filename, files, recs, next, posted + [strPost])
              && Counted(reading, retries, recs, n + 1, next, posts + more)
  {
    var code;
    next := k;
    code, strPost, more := SendNext(mgr, filename, reading(n), retries(n), files, recs, k, posted);
    if code == FileReadError {
      ending := Some(Failed);
    } else if code == AllRecordSent {
      Finish(mgr, filename, deleting, files, recs, posted);
      ending := Some(Finished);
    } else if strPost == [] {
      ending := Some(Blocked);
    } else {
      ending := None;
      next := FirstUnsent(recs, k) + 1;
      CountOn(reading, retries, recs, n, k, posts);
    }
  }

  /** What is posted and what the disk holds at an ending, the stream having come to record k. */
  ghost predicate Ended(mgr: PacketFileMgr, filename: Day, deleting: Io,
                        files: Files, recs: seq<Rec>, k: nat, posted: seq<seq<byte>>, ending: Ending)
    reads mgr, mgr.disk
    requires k <= |recs|
  {
    var stop := if ending == Failed then k else Blocking(recs, mgr.skip, 0);
    && posted == UnsentTexts(recs, mgr.skip, stop)
    && (ending == Finished <==> ending != Failed && stop == |recs|)
    && mgr.disk.files ==
       if ending == Finished && !deleting.NoRemove? then files - {filename}
       else files[filename := EncodeAll(SentUpTo(recs, stop))]
  }

  /**
   Drains an open past file. retries says how many posts of each record go unanswered before one
   is acknowledged, and reading which reads the stream fails in; whatever they say, the loop ends.
   posted is what has been acknowledged.
   */
  method DrainPast(mgr: PacketFileMgr, filename: Day, reading: nat -> Io, deleting: Io, retries: nat -> nat,
                   ghost recs: seq<Rec>)
    returns (posted: seq<seq<byte>>, posts: nat, ending: Ending)
    requires 1 <= mgr.skip && mgr.fs == Some(filename) && mgr.pos == 0
    requires filename in mgr.disk.files && mgr.disk.files[filename] == EncodeAll(recs) && AreRecords(recs)
    modifies mgr, mgr.disk
    ensures ending == Failed <==> FailsAt(reading(|posted|), recs, |posted|)
    ensures forall n :: 0 <= n < |posted| ==> !FailsAt(reading(n), recs, n)
    ensures var stop := if ending == Failed then Behind(recs, |posted|) else Blocking(recs, mgr.skip, 0);
            && posted == UnsentTexts(recs, mgr.skip, stop)
            && (ending == Finished <==> ending != Failed && stop == |recs|)
            && mgr.disk.files ==
               if ending == Finished && !deleting.NoRemove? then old(mgr.disk.files) - {filename}
               else old(mgr.disk.files)[filename := EncodeAll(SentUpTo(recs, stop))]
    ensures posts == Attempts(retries, |posted|)
  {
    ghost var k, files := 0, mgr.disk.files;
    posted, posts := [], 0;
    JustOpened(mgr, filename, files, recs);
    while true
      invariant k <= |recs| && Going(mgr, filename, files, recs, k, posted)
      invariant Counted(reading, retries, recs, |posted|, k, posts)
      decreases |recs| - k
    {
      ghost var next;
      var end, strPost, more;
      end, strPost, more, next :=
        Turn(mgr, filename, reading, deleting, retries, |posted|, files, recs, k, posted, posts);
      if end.Some? {
        ending := end.value;
        return;
      }
      posts := posts + more;
      posted := posted + [strPost];
      k := next;
    }
  }
}
