/**
 The packet file manager of packetfilemgr/packetfilemgr.cpp over a directory of byte files. A file
 is named after its day; a day is a number here. The number of bytes that the readers skip
 before the payload is a parameter: the source writes one mark byte and skips two.
 */
module PacketFileMgr {
  import opened Bytes
  import opened Options
  import opened PacketCodec

  type Day = nat
  type Files = map<Day, seq<byte>>

  class Disk {
    var files: Files
  }

  datatype Code =
    | Ok | DirOpenFailed | FileOpenFailed | FileLockFailed | FileReadError | FileWriteError | FileDeleteFailed
    | AllRecordSent

  /** What the system makes of a call: it goes through, or fails at the first of these to come up. */
  datatype Io = Fine | NoDir | NoOpen | NoLock | NoWrite | NoRemove | ReadFails(after: nat)

  datatype FileKind = Invalid | NoFile | PastFile | TodayFile

  /** Every line from a position on is complete and fits the line buffer. */
  ghost predicate LinesFit(file: seq<byte>, pos: nat)
    decreases |file| - pos
  {
    pos < |file| ==> var e := NextLine(file, pos); file[e - 1] == NEWLINE && LinesFit(file, e)
  }

  /** Reading this line from its start leaves the C stream at its end. */
  predicate EndsStream(file: seq<byte>, pos: nat)
    requires pos < |file|
  {
    var e := NextLine(file, pos);
    e == |file| && e - pos < PACKET_LINE_SIZE - 1 && file[e - 1] != NEWLINE
  }

  /** That is, what is left of the file is shorter than the buffer and holds no newline. */
  lemma EndsStreamExact(file: seq<byte>, pos: nat)
    requires pos < |file|
    ensures EndsStream(file, pos) <==> |file| - pos < 1023 && '\n' as int !in file[pos..]
  {
    NextLineExact(file, pos);
    var e := NextLine(file, pos);
    assert e == |file| ==> file[pos..][e - 1 - pos] == file[e - 1];
    assert forall i :: pos <= i < |file| ==> file[i] == file[pos..][i - pos] && file[i] in file[pos..];
  }

  /** How many lines a scan asks for before it stops, the one it stops at included. */
  function ScanReads(file: seq<byte>, pos: nat): (n: nat)
    ensures 0 < n
    decreases |file| - pos
  {
    if |file| <= pos || file[pos] == MARK_UNSENT || EndsStream(file, pos) then 1
    else 1 + ScanReads(file, NextLine(file, pos))
  }

  /** One line of a scan over complete lines: it stops there or goes on behind it. */
  lemma ScanLine(file: seq<byte>, pos: nat)
    requires pos < |file| && LinesFit(file, pos)
    ensures var e := NextLine(file, pos);
            && LinesFit(file, e)
            && (if file[pos] == MARK_UNSENT then FindUnsent(file, pos) == Some(pos) && ScanReads(file, pos) == 1
                else FindUnsent(file, pos) == FindUnsent(file, e) && ScanReads(file, pos) == 1 + ScanReads(file, e))
  {
  }

  /** A read fails before the scan is through. */
  predicate ReadInterrupted(io: Io, file: seq<byte>, pos: nat) {
    io.ReadFails? && io.after < ScanReads(file, pos)
  }

  /** A stream that fails from the start is always noticed, and one that fails behind the end of the file never. */
  lemma WhenInterrupted(file: seq<byte>, pos: nat, after: nat)
    ensures ReadInterrupted(ReadFails(0), file, pos)
    ensures |file| < after ==> !ReadInterrupted(ReadFails(after), file, pos)
    ensures forall io: Io :: !io.ReadFails? ==> !ReadInterrupted(io, file, pos)
  {
    ReadsBounded(file, pos);
  }

  lemma {:induction false} ReadsBounded(file: seq<byte>, pos: nat)
    ensures ScanReads(file, pos) <= if pos < |file| then |file| - pos + 1 else 1
    decreases |file| - pos
  {
    if |file| <= pos || file[pos] == MARK_UNSENT || EndsStream(file, pos) {
    } else {
      ReadsBounded(file, NextLine(file, pos));
    }
  }

  /** Writing one byte at a position; a write past the end leaves a hole of zeros. */
  function Overwrite(file: seq<byte>, at: nat, b: byte): (f: seq<byte>)
  {
    if at < |file| then file[at := b] else file + seq(at - |file|, _ => 0) + [b]
  }

  function Content(files: Files, day: Day): seq<byte> {
    if day in files then files[day] else []
  }

  class PacketFileMgr {
    const disk: Disk
    const skip: nat
    // The stream on a past file and its position, if one is open.
    var fs: Option<Day>
    var pos: nat
    // Where the line read last begins and ends, in the past file and in today's.
    var posLineBegin: nat
    var posLineEnd: nat
    var posLineBeginTodayfile: nat
    var posLineEndTodayfile: nat

    constructor (disk: Disk, skip: nat)
      ensures this.disk == disk && this.skip == skip && fs == None
    {
      this.disk, this.skip := disk, skip;
      fs, pos := None, 0;
      posLineBegin, posLineEnd, posLineBeginTodayfile, posLineEndTodayfile := 0, 0, 0, 0;
    }

    /** Appends the mark and the record, creating the file if need be; a later failure leaves it created. */
    method PutTodayRecord(today: Day, s: seq<byte>, io: Io) returns (code: Code)
      modifies disk
      ensures code == if io.NoOpen? then FileOpenFailed else if io.NoLock? then FileLockFailed
                      else if io.NoWrite? then FileWriteError else Ok
      ensures disk.files ==
              if code.Ok? then old(disk.files)[today := Content(old(disk.files), today) + (['R' as byte] + s)]
              else if code.FileOpenFailed? then old(disk.files)
              else old(disk.files)[today := Content(old(disk.files), today)]
    {
      if io.NoOpen? {
        return FileOpenFailed;
      }
      disk.files := disk.files[today := Content(disk.files, today)];
      var sToW := [MARK_UNSENT] + s;
      if io.NoLock? {
        return FileLockFailed;
      }
      if io.NoWrite? {
        return FileWriteError;
      }
      disk.files := disk.files[today := disk.files[today] + sToW];
      code := Ok;
    }

    /** Rescans today's file from its start for the first unsent line. */
    method GetTodayRecord(today: Day, io: Io) returns (code: Code, s: seq<byte>)
      modifies this`posLineBeginTodayfile, this`posLineEndTodayfile
      ensures code == if today !in disk.files || io.NoOpen? then FileOpenFailed
                      else if io.NoLock? then FileLockFailed
                      else if ReadInterrupted(io, disk.files[today], 0) then FileReadError else Ok
      ensures code != Ok ==> s == []
      ensures code.Ok? ==>
                var file := disk.files[today];
                match FindUnsent(file, 0)
                case None => s == []
                case Some(b) =>
                  && s == CString(file[b..NextLine(file, b)], skip)
                  && posLineBeginTodayfile == b && posLineEndTodayfile == NextLine(file, b)
    {
      s := [];
      if today !in disk.files || io.NoOpen? {
        return FileOpenFailed, s;
      }
      if io.NoLock? {
        return FileLockFailed, s;
      }
      var file := disk.files[today];
      var fp, feof, asked := 0, false, 0;
      while !feof
        invariant fp <= |file| && s == []
        invariant FindUnsent(file, fp) == FindUnsent(file, 0)
        invariant if feof then |file| <= fp && asked == ScanReads(file, 0)
                  else asked + ScanReads(file, fp) == ScanReads(file, 0)
        invariant io.ReadFails? ==> asked <= io.after
        decreases |file| - fp, !feof
      {
        posLineBeginTodayfile := fp;
        if io == ReadFails(asked) {
          return FileReadError, s;
        }
        asked := asked + 1;
        if |file| <= fp {
          return Ok, s;
        }
        var e := NextLine(file, fp);
        var lineBuf := file[fp..e];
        feof := EndsStream(file, fp);
        posLineEndTodayfile := e;
        if lineBuf[0] == MARK_SENT {
          fp := e;
          continue;
        } else if lineBuf[0] == MARK_UNSENT {
          s := CString(lineBuf, skip);
          break;
        } else {
          fp := e;
          continue;
        }
      }
      code := Ok;
    }

    /** Goes on through the open past file to the next unsent line, or closes it. */
    method GetRecord(io: Io) returns (code: Code, s: seq<byte>)
      requires fs.Some? && fs.value in disk.files && pos <= |disk.files[fs.value]|
      requires LinesFit(disk.files[fs.value], pos)
      modifies this
      ensures var file := disk.files[old(fs.value)];
              if ReadInterrupted(io, file, old(pos)) then code == FileReadError && s == [] && fs == None
              else
                match FindUnsent(file, old(pos))
                case None => code == AllRecordSent && s == [] && fs == None
                case Some(b) =>
                  && code == Ok && s == CString(file[b..NextLine(file, b) - 1], skip)
                  && fs == old(fs) && posLineBegin == b && posLineEnd == pos == NextLine(file, b)
                  && LinesFit(file, pos)
    {
      var bad, allSent, lineBuf := ScanRecords(disk.files[fs.value], io);
      s := [];
      if bad {
        fs := None;
        return FileReadError, s;
      }
      if allSent {
        fs := None;
        code := AllRecordSent;
      } else {
        s := CString(lineBuf, skip);
        code := Ok;
      }
    }

    /** The loop of get_record, up to an unsent line, the end of the file or a read that fails. */
    method ScanRecords(file: seq<byte>, io: Io) returns (bad: bool, allSent: bool, lineBuf: seq<byte>)
      requires pos <= |file| && LinesFit(file, pos)
      modifies this`pos, this`posLineBegin, this`posLineEnd
      ensures bad == ReadInterrupted(io, file, old(pos))
      ensures !bad ==>
                match FindUnsent(file, old(pos))
                case None => allSent
                case Some(b) =>
                  && !allSent && lineBuf == file[b..NextLine(file, b) - 1]
                  && posLineBegin == b && posLineEnd == pos == NextLine(file, b) && LinesFit(file, pos)
    {
      var eof, asked := false, 0;
      bad, allSent, lineBuf := false, true, [];
      while !eof
        invariant pos <= |file| && LinesFit(file, pos)
        invariant FindUnsent(file, pos) == FindUnsent(file, old(pos))
        invariant if eof then pos == |file| && asked == ScanReads(file, old(pos))
                  else asked + ScanReads(file, pos) == ScanReads(file, old(pos))
        invariant io.ReadFails? ==> asked <= io.after
        decreases |file| - pos, !eof
      {
        posLineBegin := pos;
        if io == ReadFails(asked) {
          bad := true;
          return;
        }
        asked := asked + 1;
        if pos == |file| {
          // nothing extracted: an empty buffer and the end of the file
          eof := true;
          continue;
        }
        ScanLine(file, pos);
        posLineEnd := NextLine(file, pos);
        lineBuf := file[pos..posLineEnd - 1];
        pos := posLineEnd;
        if |lineBuf| > 0 && lineBuf[0] == MARK_SENT {
          continue;
        } else if |lineBuf| > 0 && lineBuf[0] == MARK_UNSENT {
          allSent := false;
          break;
        } else {
          continue;
        }
      }
    }

    method UpdateRecord() returns (code: Code)
      requires fs.Some? && fs.value in disk.files
      modifies disk, this`pos
      ensures code == Ok && pos == posLineEnd
      ensures disk.files == old(disk.files)[fs.value := Overwrite(old(disk.files)[fs.value], posLineBegin, 'S' as byte)]
    {
      disk.files := disk.files[fs.value := Overwrite(disk.files[fs.value], posLineBegin, MARK_SENT)];
      pos := posLineEnd;
      code := Ok;
    }

    /** Marks whatever file today's name then stands for, at the position saved by the last read. */
    method UpdateRecordToday(today: Day, io: Io) returns (code: Code)
      modifies disk
      ensures code == if today !in old(disk.files) || io.NoOpen? then FileOpenFailed
                      else if io.NoLock? then FileLockFailed else Ok
      ensures disk.files ==
              if code.Ok?
              then old(disk.files)[today := Overwrite(old(disk.files)[today], posLineBeginTodayfile, 'S' as byte)]
              else old(disk.files)
    {
      if today !in disk.files || io.NoOpen? {
        return FileOpenFailed;
      }
      if io.NoLock? {
        return FileLockFailed;
      }
      disk.files := disk.files[today := Overwrite(disk.files[today], posLineBeginTodayfile, MARK_SENT)];
      code := Ok;
    }

    /** Picks the first file in directory order that is not today's, and opens it. */
    method GetFile(today: Day, fileList: seq<Day>, io: Io) returns (code: Code, kind: FileKind, s: Day)
      requires forall day :: day in fileList <==> day in disk.files
      modifies this
      ensures code == if io.NoDir? then DirOpenFailed else if kind.PastFile? && io.NoOpen? then FileOpenFailed else Ok
      ensures kind.Invalid? <==> io.NoDir?
      ensures kind.NoFile? <==> !io.NoDir? && disk.files == map[]
      ensures kind.TodayFile? <==> !io.NoDir? && disk.files.Keys == {today}
      ensures kind.PastFile? ==> s != today && s in disk.files
      ensures kind.PastFile? ==>
                exists i :: 0 <= i < |fileList| && fileList[i] == s && forall k :: 0 <= k < i ==> fileList[k] == today
      ensures kind.PastFile? ==> if code.Ok? then fs == Some(s) && pos == 0 else fs == None
      ensures !kind.PastFile? ==> fs == old(fs) && pos == old(pos)
    {
      code, s := Ok, today;
      if io.NoDir? {
        return DirOpenFailed, Invalid, s;
      }
      if fileList == [] {
        assert disk.files.Keys == {};
        return Ok, NoFile, s;
      }
      assert fileList[0] in disk.files;
      for i := 0 to |fileList|
        invariant forall k :: 0 <= k < i ==> fileList[k] == today
      {
        if fileList[i] != today {
          s, kind := fileList[i], PastFile;
          assert s in fileList;
          fs := None;
          if io.NoOpen? {
            return FileOpenFailed, kind, s;
          }
          fs, pos := Some(s), 0;
          return Ok, kind, s;
        }
      }
      assert disk.files.Keys == {today};
      kind := TodayFile;
    }

    method DeleteFile(file: Day, io: Io) returns (code: Code)
      modifies disk, this`fs
      ensures fs == None
      ensures code == if file in old(disk.files) && !io.NoRemove? then Ok else FileDeleteFailed
      ensures disk.files == if code.Ok? then old(disk.files) - {file} else old(disk.files)
    {
      fs := None;
      if file !in disk.files || io.NoRemove? {
        return FileDeleteFailed;
      }
      disk.files := disk.files - {file};
      code := Ok;
    }
  }

  // ---------------------------------------------------------------- files of records

  lemma {:induction false} RecordLinesFit(recs: seq<Rec>, k: nat)
    requires AreRecords(recs) && k <= |recs|
    ensures Start(recs, k) <= |EncodeAll(recs)| && LinesFit(EncodeAll(recs), Start(recs, k))
    decreases |recs| - k
  {
    StartBounds(recs, k);
    if k == |recs| {
    } else {
      NextRecord(recs, k);
      RecordLinesFit(recs, k + 1);
      LineOf(recs, k);
    }
  }

  /**
   The rescan of today's file and the incremental scan of a past file agree: from wherever all
   earlier records are already sent, both come to the oldest unsent record.
   */
  lemma IncrementalScanIsRescan(recs: seq<Rec>, k: nat)
    requires AreRecords(recs) && k <= |recs| && forall i :: 0 <= i < k ==> recs[i].sent
    ensures FindUnsent(EncodeAll(recs), Start(recs, k)) == FindUnsent(EncodeAll(recs), 0)
    ensures FirstUnsent(recs, k) == FirstUnsent(recs, 0)
  {
    ScanFinds(recs, k);
    ScanFinds(recs, 0);
    StartBounds(recs, 0);
    FirstUnsentIs(recs, 0, FirstUnsent(recs, k));
  }

  /**
   A position found by reading today's file stays the position of the same record under any
   appends, is still the first one found, and marking there marks exactly that record.
   */
  lemma AppendsAndMarksCommute(recs: seq<Rec>, more: seq<Rec>, b: nat)
    requires AreRecords(recs) && AreRecords(more)
    requires FindUnsent(EncodeAll(recs), 0) == Some(b)
    ensures FirstUnsent(recs, 0) < |recs|
    ensures FindUnsent(EncodeAll(recs + more), 0) == Some(b)
    ensures NextLine(EncodeAll(recs + more), b) == NextLine(EncodeAll(recs), b)
    ensures Overwrite(EncodeAll(recs + more), b, MARK_SENT) == EncodeAll(Sent(recs, FirstUnsent(recs, 0)) + more)
  {
    var j := FirstUnsent(recs, 0);
    ScanFromStart(recs);
    ScanAfterAppends(recs, more, j);
    MarkAfterAppends(recs, more, j);
  }

  lemma MarkAfterAppends(recs: seq<Rec>, more: seq<Rec>, j: nat)
    requires j < |recs|
    ensures Overwrite(EncodeAll(recs + more), Start(recs, j), MARK_SENT) == EncodeAll(Sent(recs, j) + more)
  {
    StartStable(recs, more, j);
    MarkingChangesOne(recs + more, j);
    assert Sent(recs + more, j) == Sent(recs, j) + more;
  }

  lemma ScanAfterAppends(recs: seq<Rec>, more: seq<Rec>, j: nat)
    requires AreRecords(recs) && AreRecords(more) && j == FirstUnsent(recs, 0) < |recs|
    ensures Start(recs + more, j) == Start(recs, j)
    ensures FindUnsent(EncodeAll(recs + more), 0) == Some(Start(recs, j))
    ensures NextLine(EncodeAll(recs + more), Start(recs, j)) == NextLine(EncodeAll(recs), Start(recs, j))
  {
    var all := recs + more;
    FirstUnsentIs(all, 0, j);
    ScanFromStart(all);
    StartStable(recs, more, j);
    StartStable(recs, more, j + 1);
    NextRecord(recs, j);
    NextRecord(all, j);
  }

  /** Over records a scan asks for each line up to the first unsent one, or up to the end, where it asks once more. */
  lemma {:induction false} ReadsOfRecords(recs: seq<Rec>, k: nat)
    requires AreRecords(recs) && k <= |recs|
    ensures ScanReads(EncodeAll(recs), Start(recs, k)) == FirstUnsent(recs, k) - k + 1
    decreases |recs| - k
  {
    StartBounds(recs, k);
    if k == |recs| {
    } else {
      NextRecord(recs, k);
      LineOf(recs, k);
      if recs[k].sent {
        ReadsOfRecords(recs, k + 1);
      }
    }
  }

  lemma ScanFromStart(recs: seq<Rec>)
    requires AreRecords(recs)
    ensures var j := FirstUnsent(recs, 0);
            FindUnsent(EncodeAll(recs), 0) == if j < |recs| then Some(Start(recs, j)) else None
  {
    StartBounds(recs, 0);
    ScanFinds(recs, 0);
  }

  // ---------------------------------------------------------------- what is put is what is read

  ghost predicate EndsInNewline(file: seq<byte>) {
    file == [] || file[|file| - 1] == NEWLINE
  }

  /** A line that ends in a newline is read the same whatever has been appended since. */
  lemma {:induction false} LineEndStays(pre: seq<byte>, more: seq<byte>, pos: nat, room: nat)
    requires pos < |pre| && EndsInNewline(pre)
    ensures LineEnd(pre + more, pos, room) == LineEnd(pre, pos, room)
    decreases room
  {
    if room != 0 && pre[pos] != NEWLINE {
      LineEndStays(pre, more, pos + 1, room - 1);
    }
  }

  lemma NextLineStays(pre: seq<byte>, more: seq<byte>, pos: nat)
    requires pos < |pre| && EndsInNewline(pre)
    ensures NextLine(pre + more, pos) == NextLine(pre, pos)
  {
    LineEndStays(pre, more, pos, PACKET_LINE_SIZE - 1);
  }

  /** A scan of a file that has grown finds what it found before, or else the first unsent line that is new. */
  lemma {:induction false} ScanGoesOn(pre: seq<byte>, more: seq<byte>, pos: nat)
    requires EndsInNewline(pre) && pos <= |pre|
    ensures FindUnsent(pre + more, pos) ==
            if FindUnsent(pre, pos).Some? then FindUnsent(pre, pos) else FindUnsent(pre + more, |pre|)
    decreases |pre| - pos
  {
    if pos < |pre| && pre[pos] != MARK_UNSENT {
      NextLineStays(pre, more, pos);
      ScanGoesOn(pre, more, NextLine(pre, pos));
    }
  }

  /**
   Writing a payload behind whatever lines a file already holds, and reading it back. An unsent
   line of the file comes first and is still handed on as before. With none, the rescan returns the
   payload and its newline from byte skip - 1 on, and the scan of the past file, which only lines that
   fit the buffer let through, the same without the newline. One byte skipped gives the payload back;
   two, as shipped, lose its first byte.
   */
  lemma RoundTrip(pre: seq<byte>, p: seq<byte>, skip: nat)
    requires EndsInNewline(pre) && IsPayload(p) && 1 <= skip <= |p| + 1
    ensures var file := pre + ([MARK_UNSENT] + (p + [NEWLINE]));
            && TodayRecord(file, skip) ==
               (if FindUnsent(pre, 0).Some? then TodayRecord(pre, skip) else Some(p[skip - 1..] + [NEWLINE]))
            && (LinesFit(pre, 0) ==>
                  && LinesFit(file, 0)
                  && PastRecord(file, 0, skip) ==
                     if FindUnsent(pre, 0).Some? then PastRecord(pre, 0, skip) else Some(p[skip - 1..]))
  {
    var r := Rec(false, p);
    assert [MARK_UNSENT] + (p + [NEWLINE]) == Encode(r);
    ScanGoesOn(pre, Encode(r), 0);
    if LinesFit(pre, 0) {
      LinesStillFit(pre, r, 0);
    }
    match FindUnsent(pre, 0)
    case Some(b) => LineStays(pre, Encode(r), b, skip);
    case None => NewLineRead(pre, r, skip);
  }

  /** A record put behind lines that fit makes a file of lines that fit. */
  lemma {:induction false} LinesStillFit(pre: seq<byte>, r: Rec, pos: nat)
    requires EndsInNewline(pre) && pos <= |pre| && LinesFit(pre, pos) && IsPayload(r.payload)
    ensures LinesFit(pre + Encode(r), pos)
    decreases |pre| - pos
  {
    var file := pre + Encode(r);
    if pos == |pre| {
      assert pre + Encode(r) + [] == file;
      LineAfter(pre, r, []);
      assert file[|file| - 1] == NEWLINE;
    } else {
      NextLineStays(pre, Encode(r), pos);
      LinesStillFit(pre, r, NextLine(pre, pos));
    }
  }

  lemma LineStays(pre: seq<byte>, more: seq<byte>, b: nat, skip: nat)
    requires EndsInNewline(pre) && FindUnsent(pre, 0) == Some(b) == FindUnsent(pre + more, 0)
    ensures TodayRecord(pre + more, skip) == TodayRecord(pre, skip)
    ensures PastRecord(pre + more, 0, skip) == PastRecord(pre, 0, skip)
  {
    NextLineStays(pre, more, b);
    var e := NextLine(pre, b);
    assert (pre + more)[b..e] == pre[b..e] && (pre + more)[b..e - 1] == pre[b..e - 1];
  }

  // No induction: unfolding the scanners on appended files costs more than the proof.
  lemma {:induction false} NewLineRead(pre: seq<byte>, r: Rec, skip: nat)
    requires IsPayload(r.payload) && !r.sent && 1 <= skip <= |r.payload| + 1
    requires FindUnsent(pre + Encode(r), 0) == FindUnsent(pre + Encode(r), |pre|)
    ensures TodayRecord(pre + Encode(r), skip) == Some(r.payload[skip - 1..] + [NEWLINE])
    ensures PastRecord(pre + Encode(r), 0, skip) == Some(r.payload[skip - 1..])
  {
    assert pre + Encode(r) + [] == pre + Encode(r);
    LineAfter(pre, r, []);
    LineTexts(r, skip);
    TextsOfLine(pre + Encode(r), |pre|, Encode(r), skip);
  }

  // No induction: unfolding the scanners costs more than the proof.
  lemma {:induction false} TextsOfLine(file: seq<byte>, b: nat, line: seq<byte>, skip: nat)
    requires FindUnsent(file, 0) == Some(b) && b < |file| && NextLine(file, b) == |file|
    requires file[b..] == line
    ensures TodayRecord(file, skip) == Some(CString(line, skip))
    ensures PastRecord(file, 0, skip) == Some(CString(line[..|line| - 1], skip))
  {
    LineSlices(file, b, |file|);
  }

  lemma LineSlices(file: seq<byte>, b: nat, e: nat)
    requires b < e == |file|
    ensures file[b..e] == file[b..] && file[b..e - 1] == file[b..][..|file[b..]| - 1]
  {
  }

  lemma LineTexts(r: Rec, skip: nat)
    requires IsPayload(r.payload) && 1 <= skip <= |r.payload| + 1
    ensures CString(Encode(r), skip) == r.payload[skip - 1..] + [NEWLINE]
    ensures CString(Encode(r)[..|Encode(r)| - 1], skip) == r.payload[skip - 1..]
  {
    TodayText(r, skip);
    PastText(r, skip);
    assert (r.payload + [NEWLINE])[skip - 1..] == r.payload[skip - 1..] + [NEWLINE];
  }
}
