/**
 What becomes of a mark that is written after midnight: the retransmitter opens the file that bears
 today's name by then, which is the new day's, and writes the mark where the old day's record lay.
 */
module LateMark {
  import opened Bytes
  import opened Options
  import opened PacketCodec
  import opened PacketFileMgr
  import opened LogFile
  import opened RexmitSystem

  /** Nothing has been acknowledged of a day that began after the record being marked was read. */
  lemma NewDayUnmarked(s: State, skip: nat)
    requires Inv(s, skip) && IsStale(s)
    ensures forall i: nat :: !Acked(s, s.today, i)
    ensures MarksOn(s, s.today) == 0
  {
    assert DayInv(s, s.today);
    assert !Acked(s, s.today, 0);
  }

  // ---------------------------------------------------------------- what the mark hits

  /** A byte of record i's line that a reader looks at: the mark, what is not skipped, or the newline. */
  predicate Looked(ps: Payloads, i: nat, at: nat, skip: nat)
    requires i < |ps|
  {
    var b, e := Offset(ps, i), Offset(ps, i + 1);
    b <= at < e && (at == b || b + skip <= at || at + 1 == e)
  }

  /** The mark that is due would go into the new day's file and change such a byte of record i. */
  predicate HitsRecord(s: State, i: nat, skip: nat) {
    && IsStale(s) && s.today in s.files && i < |PutsOn(s, s.today)|
    && s.control.begin < |s.files[s.today]| && s.files[s.today][s.control.begin] != MARK_SENT
    && Looked(PutsOn(s, s.today), i, s.control.begin, skip)
  }

  ghost predicate Hits(s: State, skip: nat) {
    exists i: nat :: HitsRecord(s, i, skip)
  }

  /** No byte of the new day's file changes, though the file may grow. */
  predicate Spares(s: State)
    requires IsStale(s)
  {
    s.today in s.files && s.control.begin < |s.files[s.today]| ==> s.files[s.today][s.control.begin] == MARK_SENT
  }

  /** A late mark loses no record, there and then, if and only if it changes no byte that a reader looks at. */
  lemma LateMarkExact(s: State, skip: nat)
    requires 1 <= skip && Inv(s, skip) && IsLate(s)
    ensures NothingLost(Apply(s, Mark, skip), skip) <==> !Hits(s, skip)
  {
    if Hits(s, skip) {
      var i: nat :| HitsRecord(s, i, skip);
      Damaged(s, i, skip);
    } else if Spares(s) {
      SparedKept(s, skip);
    } else {
      SkippedKept(s, skip);
    }
  }

  // ---------------------------------------------------------------- a mark that hits nothing

  /** What can still be read of a file can still be read after an append. */
  lemma ReadableStays(f: seq<byte>, f': seq<byte>, place: nat, p: seq<byte>, skip: nat)
    requires EndsInNewline(f) && f <= f' && Readable(f, place, p, skip)
    ensures Readable(f', place, p, skip)
  {
    var more, e := f'[|f|..], place + |p| + 2;
    assert f' == f + more;
    ReachedStays(f, more, 0, place);
    NextLineStays(f, more, place);
    assert f'[place..e] == f[place..e] && f'[place..e - 1] == f[place..e - 1];
    SameLineReadable(f, f', place, p, skip);
  }

  lemma SameLineReadable(f: seq<byte>, f': seq<byte>, place: nat, p: seq<byte>, skip: nat)
    requires Readable(f, place, p, skip) && place + |p| + 2 <= |f'|
    requires Reached(f', 0, place) && NextLine(f', place) == NextLine(f, place)
    requires f'[place..place + |p| + 2] == f[place..place + |p| + 2]
    requires f'[place..place + |p| + 1] == f[place..place + |p| + 1]
    ensures Readable(f', place, p, skip)
  {
    var n := |p| + 2;
    assert f'[place] == f'[place..place + n][0] == f[place..place + n][0];
    assert f'[place + n - 1] == f'[place..place + n][n - 1] == f[place..place + n][n - 1];
  }

  /** Where no file but today's changes, and that one only grows, nothing is lost that was put before. */
  lemma KeptWhereGrown(s: State, s': State, d: Day, i: nat, skip: nat)
    requires 1 <= skip && Inv(s, skip) && s'.acks == s.acks && i < |PutsOn(s, d)|
    requires PutsOn(s, d) <= PutsOn(s', d) && PlacesOn(s, d) <= PlacesOn(s', d)
    requires d in s.files ==> d in s'.files && s.files[d] <= s'.files[d]
    ensures Kept(s', d, i, skip)
  {
    DaysKept(s, skip);
    assert Kept(s, d, i, skip);
    if !Acked(s, d, i) {
      assert DayInv(s, d);
      FileEnds(PutsOn(s, d), MarksOn(s, d));
      ReadableStays(s.files[d], s'.files[d], PlacesOn(s, d)[i], PutsOn(s, d)[i], skip);
    }
  }

  lemma SparedKept(s: State, skip: nat)
    requires 1 <= skip && Inv(s, skip) && IsLate(s) && Spares(s)
    ensures NothingLost(Apply(s, Mark, skip), skip)
  {
    var s' := Apply(s, Mark, skip);
    SparedPrefix(s, skip);
    forall d: Day, i: nat | i < |PutsOn(s', d)|
      ensures Kept(s', d, i, skip)
    {
      KeptWhereGrown(s, s', d, i, skip);
    }
  }

  lemma SparedPrefix(s: State, skip: nat)
    requires IsLate(s) && Spares(s)
    ensures var files, files' := s.files, Apply(s, Mark, skip).files;
            files'.Keys == files.Keys && forall d :: d in files ==> files[d] <= files'[d]
  {
    if s.today in s.files {
      var f, b := s.files[s.today], s.control.begin;
      assert b < |f| ==> f[b := MARK_SENT] == f;
    }
  }

  /** A mark on a byte that is skipped makes a file of records that are read alike. */
  lemma SkippedMark(s: State, skip: nat) returns (qs: Payloads)
    requires 1 <= skip && Inv(s, skip) && IsStale(s) && !Hits(s, skip) && !Spares(s)
    ensures var ps, f := PutsOn(s, s.today), s.files[s.today];
            && ReadAlike(ps, qs, skip) && ArePayloads(qs)
            && f == FileOf(ps, 0) && Overwrite(f, s.control.begin, MARK_SENT) == FileOf(qs, 0)
  {
    var ps, at := PutsOn(s, s.today), s.control.begin;
    assert DayInv(s, s.today);
    NewDayUnmarked(s, skip);
    FileLength(ps, 0);
    var i := OffsetCovers(ps, at, |ps|);
    assert !HitsRecord(s, i, skip);
    var j := at - Offset(ps, i) - 1;
    SkippedByte(ps[i], j, skip);
    PayloadOverwritten(ps, 0, i, j, MARK_SENT);
    qs := OneByte(ps, i, j, MARK_SENT);
  }

  lemma SkippedKept(s: State, skip: nat)
    requires 1 <= skip && Inv(s, skip) && IsLate(s) && !Hits(s, skip) && !Spares(s)
    ensures NothingLost(Apply(s, Mark, skip), skip)
  {
    var s' := Apply(s, Mark, skip);
    var qs := SkippedMark(s, skip);
    forall d: Day, i: nat | i < |PutsOn(s', d)|
      ensures Kept(s', d, i, skip)
    {
      if d == s.today {
        assert PlacesOk(PlacesOn(s, d), PutsOn(s, d));
        AlikeReadable(PutsOn(s, d), qs, i, skip);
      } else {
        KeptWhereGrown(s, s', d, i, skip);
      }
    }
  }

  // ---------------------------------------------------------------- a mark that hits a record

  /** A text shows the bytes of its line from some on, up to a terminator or the end. */
  ghost predicate ShowsBytes(file: seq<byte>, from: nat, e: nat, text: seq<byte>) {
    && from + |text| <= e <= |file|
    && (forall k :: 0 <= k < |text| ==> text[k] == file[from + k])
    && (from + |text| < e ==> file[from + |text|] == 0)
  }

  lemma TextShows(file: seq<byte>, b: nat, e: nat, skip: nat)
    requires b + skip <= e <= |file|
    ensures ShowsBytes(file, b + skip, e, CString(file[b..e], skip))
  {
    var rest := file[b + skip..e];
    assert file[b..e][skip..] == rest;
    StopsAtNul(rest);
    SliceShows(file, b + skip, e, UpToNul(rest));
  }

  lemma SliceShows(file: seq<byte>, from: nat, e: nat, text: seq<byte>)
    requires from <= e <= |file| && text <= file[from..e]
    requires |text| < e - from ==> file[from..e][|text|] == 0
    ensures ShowsBytes(file, from, e, text)
  {
  }

  /** Where a byte of a record's line is in the text that the reader of today's file hands on. */
  lemma HandedAt(p: seq<byte>, skip: nat, k: nat)
    requires 1 <= skip <= k < |p| + 2
    ensures |TextOf(false, p, skip)| == |p| + 2 - skip
    ensures TextOf(false, p, skip)[k - skip] == Encode(Rec(false, p))[k]
  {
  }

  /** A line that shows the sent mark where the record had another byte is not read as that record. */
  lemma OtherText(file: seq<byte>, b: nat, e: nat, at: nat, p: seq<byte>, skip: nat, text: seq<byte>)
    requires 1 <= skip && b + skip <= at < b + |p| + 2 && ShowsBytes(file, b + skip, e, text)
    requires at < |file| && file[at] == MARK_SENT != Encode(Rec(false, p))[at - b]
    ensures text != TextOf(false, p, skip)
  {
    HandedAt(p, skip, at - b);
    assert at - b - skip < |text| ==> text[at - b - skip] == file[at];
  }

  /** The record that a late mark hits can no longer be read. */
  lemma Damaged(s: State, i: nat, skip: nat)
    requires 1 <= skip && Inv(s, skip) && IsLate(s) && HitsRecord(s, i, skip)
    ensures i < |PutsOn(s, s.today)| && !Kept(Apply(s, Mark, skip), s.today, i, skip)
  {
    var ps, f, at := PutsOn(s, s.today), s.files[s.today], s.control.begin;
    NewDayUnmarked(s, skip);
    assert DayInv(s, s.today) && PlacesOk(PlacesOn(s, s.today), ps);
    LineOfRecord(ps, 0, i);
    LineByte(f, Offset(ps, i), ps[i], at);
    LineSpoiled(Overwrite(f, at, MARK_SENT), Offset(ps, i), at, ps[i], skip);
    Unreadable(s, Apply(s, Mark, skip), i, skip);
  }

  lemma LineByte(f: seq<byte>, b: nat, p: seq<byte>, at: nat)
    requires b <= at < b + |p| + 2 <= |f| && f[b..b + |p| + 2] == Encode(Rec(false, p))
    ensures Encode(Rec(false, p))[at - b] == f[at]
  {
    var line := Encode(Rec(false, p));
    assert line[at - b] == f[b..b + |p| + 2][at - b];
  }

  lemma LineSpoiled(f: seq<byte>, b: nat, at: nat, p: seq<byte>, skip: nat)
    requires b <= at < b + |p| + 2 <= |f| && f[at] == MARK_SENT != Encode(Rec(false, p))[at - b]
    requires 1 <= skip && (at == b || b + skip <= at || at == b + |p| + 1)
    ensures !Readable(f, b, p, skip)
  {
    var e := b + |p| + 2;
    if Readable(f, b, p, skip) {
      ReadableParts(f, b, p, skip);
      TextShows(f, b, e, skip);
      OtherText(f, b, e, at, p, skip, TextOf(false, p, skip));
      assert false;
    }
  }

  lemma ReadableParts(file: seq<byte>, place: nat, p: seq<byte>, skip: nat)
    requires Readable(file, place, p, skip)
    ensures var e := place + |p| + 2;
            && e <= |file| && file[place] == MARK_UNSENT && file[e - 1] == NEWLINE
            && CString(file[place..e], skip) == TextOf(false, p, skip)
  {
  }

  /** A record not acknowledged is lost if its line cannot be read. */
  lemma Unreadable(s: State, s': State, i: nat, skip: nat)
    requires i < |PutsOn(s, s.today)| && PlacesOk(PlacesOn(s, s.today), PutsOn(s, s.today))
    requires s'.puts == s.puts && s'.places == s.places && s'.acks == s.acks && !Acked(s, s.today, i)
    requires s.today in s'.files
    requires !Readable(s'.files[s.today], Offset(PutsOn(s, s.today), i), PutsOn(s, s.today)[i], skip)
    ensures !Kept(s', s.today, i, skip)
  {
  }

  // ---------------------------------------------------------------- reading in chunks

  // What fgets takes of a line that is too long for the buffer.
  const CHUNK: nat := PACKET_LINE_SIZE - 1

  /** Bytes without a newline are read one after the other as long as there is room. */
  lemma {:induction false} LineEndSkips(file: seq<byte>, pos: nat, n: nat, room: nat)
    requires n <= room && pos + n <= |file| && forall i :: pos <= i < pos + n ==> file[i] != NEWLINE
    ensures LineEnd(file, pos, room) == LineEnd(file, pos + n, room - n)
    decreases n
  {
    if n == 0 {
    } else {
      LineEndSkips(file, pos + 1, n - 1, room - 1);
    }
  }

  /** Where one read ends that starts on a long stretch without a newline. */
  lemma ChunkEnds(file: seq<byte>, pos: nat, at: nat)
    requires pos <= at < |file| && forall i :: pos <= i < at ==> file[i] != NEWLINE
    ensures CHUNK <= at - pos ==> NextLine(file, pos) == pos + CHUNK
    ensures at - pos < CHUNK ==> at < NextLine(file, pos)
    ensures at - pos < CHUNK && file[at] == NEWLINE ==> NextLine(file, pos) == at + 1
  {
    if CHUNK <= at - pos {
      LineEndSkips(file, pos, CHUNK, CHUNK);
    } else {
      LineEndSkips(file, pos, at - pos, CHUNK);
    }
  }

  /** Behind a stretch without a newline, reading comes to a position if and only if whole chunks lead there. */
  lemma {:induction false} ReachedInChunks(file: seq<byte>, pos: nat, at: nat)
    requires pos <= at < |file| && forall i :: pos <= i < at ==> file[i] != NEWLINE
    ensures Reached(file, pos, at) <==> (at - pos) % CHUNK == 0
    decreases at - pos
  {
    if at == pos {
    } else if at - pos < CHUNK {
      ChunkEnds(file, pos, at);
      NotReached(file, NextLine(file, pos), at);
    } else {
      ChunkEnds(file, pos, at);
      ReachedInChunks(file, pos + CHUNK, at);
      assert (at - pos) % CHUNK == (at - (pos + CHUNK)) % CHUNK;
    }
  }

  lemma NotReached(file: seq<byte>, pos: nat, at: nat)
    requires at < pos
    ensures !Reached(file, pos, at)
  {
    if Reached(file, pos, at) {
      ReachedBehind(file, pos, at);
    }
  }

  // ---------------------------------------------------------------- a mark beyond the end

  /** A late mark, and then the next put. */
  function Glued(s: State, q: seq<byte>, skip: nat): State
    requires IsLate(s) && IsPayload(q)
  {
    Apply(Apply(s, Mark, skip), Put(q), skip)
  }

  /** The new day has a file, and the mark goes at or behind its end. */
  predicate IsStray(s: State) {
    IsLate(s) && s.today in s.files && |s.files[s.today]| <= s.control.begin
  }

  /** What a stray mark and the next put append: zeros up to the mark, and the record right behind it. */
  function Tail(s: State, q: seq<byte>): (t: seq<byte>)
    requires IsStray(s)
    ensures |t| == s.control.begin + 3 + |q| - |s.files[s.today]|
  {
    seq(s.control.begin - |s.files[s.today]|, _ => 0) + [MARK_SENT] + Encode(Rec(false, q))
  }

  lemma GluedFile(s: State, q: seq<byte>, skip: nat)
    requires IsStray(s) && IsPayload(q)
    ensures var s' := Glued(s, q, skip);
            && s'.files == s.files[s.today := s.files[s.today] + Tail(s, q)]
            && PutsOn(s', s.today) == PutsOn(s, s.today) + [q]
            && PlacesOn(s', s.today) == PlacesOn(s, s.today) + [s.control.begin + 1]
  {
    var f, hole := s.files[s.today], seq(s.control.begin - |s.files[s.today]|, _ => 0);
    assert (f + hole + [MARK_SENT]) + ([MARK_UNSENT] + (q + [NEWLINE])) == f + Tail(s, q);
  }

  /** No newline comes before the last byte of that. */
  lemma TailIsOneLine(s: State, q: seq<byte>)
    requires IsStray(s) && IsPayload(q)
    ensures var t := Tail(s, q);
            && t[|t| - 1] == NEWLINE && (forall i :: 0 <= i < |t| - 1 ==> t[i] != NEWLINE)
            && t[s.control.begin + 1 - |s.files[s.today]|..] == Encode(Rec(false, q))
  {
  }

  /** Whole chunks lead from the end of the file to right behind the stray mark. */
  predicate InStep(s: State)
    requires IsStray(s)
  {
    (s.control.begin + 1 - |s.files[s.today]|) % CHUNK == 0
  }

  /** Reading a file that has grown comes to where it ended, and on from there. */
  lemma ReachedBehindEnd(ps: Payloads, m: nat, t: seq<byte>, at: nat)
    requires ArePayloads(ps) && m <= |ps| && |FileOf(ps, m)| <= at
    ensures var f := FileOf(ps, m); Reached(f + t, 0, at) <==> Reached(f + t, |f|, at)
  {
    var f := FileOf(ps, m);
    FileLength(ps, m);
    FileEnds(ps, m);
    WalkReaches(ps, m, 0, |ps|);
    ReachedStays(f, t, 0, |f|);
    ReachedThrough(f + t, 0, |f|, at);
  }

  lemma TailReadable(f: seq<byte>, t: seq<byte>, at: nat, q: seq<byte>, skip: nat)
    requires |f| < at && at + |q| + 2 == |f| + |t| && t[at - |f|..] == Encode(Rec(false, q))
    requires (forall i :: 0 <= i < |t| - 1 ==> t[i] != NEWLINE) && IsPayload(q) && 1 <= skip
    requires Reached(f + t, 0, at) <==> Reached(f + t, |f|, at)
    ensures Readable(f + t, at, q, skip) <==> (at - |f|) % CHUNK == 0
  {
    TailLine(f, t, at, q);
    ReachedInChunks(f + t, |f|, at);
    if Reached(f + t, |f|, at) {
      LineReadable(f + t, at, q, skip);
    }
  }

  /** A rescan comes to the record behind a stray mark if and only if the buffer ends just before it. */
  lemma GluedReadable(s: State, q: seq<byte>, skip: nat)
    requires 1 <= skip && Inv(s, skip) && IsStray(s) && IsPayload(q)
    ensures Readable(s.files[s.today] + Tail(s, q), s.control.begin + 1, q, skip) <==> InStep(s)
  {
    assert DayInv(s, s.today);
    TailIsOneLine(s, q);
    ReachedBehindEnd(PutsOn(s, s.today), MarksOn(s, s.today), Tail(s, q), s.control.begin + 1);
    TailReadable(s.files[s.today], Tail(s, q), s.control.begin + 1, q, skip);
  }

  lemma TailLine(f: seq<byte>, t: seq<byte>, at: nat, q: seq<byte>)
    requires |f| < at && at + |q| + 2 == |f| + |t| && t[at - |f|..] == Encode(Rec(false, q)) && IsPayload(q)
    requires forall i :: 0 <= i < |t| - 1 ==> t[i] != NEWLINE
    ensures (f + t)[at..at + |q| + 2] == Encode(Rec(false, q)) && NextLine(f + t, at) == at + |q| + 2
    ensures forall i :: |f| <= i < at ==> (f + t)[i] != NEWLINE
  {
    assert (f + t)[at..at + |q| + 2] == t[at - |f|..];
    LineAfter((f + t)[..at], Rec(false, q), []);
    assert (f + t)[..at] + Encode(Rec(false, q)) + [] == f + t;
  }

  lemma EarlierKept(s: State, q: seq<byte>, d: Day, i: nat, skip: nat)
    requires 1 <= skip && Inv(s, skip) && IsStray(s) && IsPayload(q) && i < |PutsOn(s, d)|
    ensures var s' := Glued(s, q, skip); i < |PutsOn(s', d)| && Kept(s', d, i, skip)
  {
    GluedFile(s, q, skip);
    KeptWhereGrown(s, Glued(s, q, skip), d, i, skip);
  }

  lemma NextKept(s: State, q: seq<byte>, skip: nat)
    requires 1 <= skip && Inv(s, skip) && IsStray(s) && IsPayload(q)
    ensures var s', n := Glued(s, q, skip), |PutsOn(s, s.today)|;
            |PutsOn(s', s.today)| == n + 1 && (Kept(s', s.today, n, skip) <==> InStep(s))
  {
    var ps := PutsOn(s, s.today);
    GluedFile(s, q, skip);
    GluedReadable(s, q, skip);
    NewDayUnmarked(s, skip);
    assert PlacesOk(PlacesOn(s, s.today), ps);
    assert !Acked(s, s.today, |ps|);
  }

  /** Every record put by one state is kept in another. */
  ghost predicate AllKept(s: State, s': State, skip: nat) {
    forall d: Day, i: nat :: i < |PutsOn(s, d)| ==> i < |PutsOn(s', d)| && Kept(s', d, i, skip)
  }

  lemma EarlierAllKept(s: State, s': State, q: seq<byte>, skip: nat)
    requires 1 <= skip && Inv(s, skip) && IsStray(s) && IsPayload(q) && s' == Glued(s, q, skip)
    ensures AllKept(s, s', skip)
  {
    forall d: Day, i: nat | i < |PutsOn(s, d)|
      ensures i < |PutsOn(s', d)| && Kept(s', d, i, skip)
    {
      EarlierKept(s, q, d, i, skip);
    }
  }

  /**
   Where the harm of a mark beyond the end falls: all earlier records are kept, and the record put
   next, which follows the stray mark on one line, is kept if and only if whole chunks lead there.
   */
  lemma StrayMarkTakesNextPut(s: State, q: seq<byte>, skip: nat)
    requires 1 <= skip && Inv(s, skip) && IsStray(s) && IsPayload(q)
    ensures AllKept(s, Glued(s, q, skip), skip)
    ensures var s', n := Glued(s, q, skip), |PutsOn(s, s.today)|;
            |PutsOn(s', s.today)| == n + 1 && (Kept(s', s.today, n, skip) <==> InStep(s))
  {
    NextKept(s, q, skip);
    EarlierAllKept(s, Glued(s, q, skip), q, skip);
  }

  /** A late mark loses no record, neither then nor at the next put, exactly if it hits none and is in step if stray. */
  lemma LateMarkAndPutExact(s: State, q: seq<byte>, skip: nat)
    requires 1 <= skip && Inv(s, skip) && IsLate(s) && IsPayload(q)
    ensures NothingLost(Apply(s, Mark, skip), skip) && NothingLost(Glued(s, q, skip), skip)
            <==> !Hits(s, skip) && (IsStray(s) ==> InStep(s))
  {
    LateMarkExact(s, skip);
    if Hits(s, skip) {
    } else if Harmless(s, Mark) {
      StepKeeps(s, Mark, skip);
      PutKeeps(Apply(s, Mark, skip), q, skip);
      DaysKept(Glued(s, q, skip), skip);
    } else if IsStray(s) {
      StrayThenPut(s, q, skip);
    } else {
      SkippedThenPut(s, q, skip);
    }
  }

  lemma StrayThenPut(s: State, q: seq<byte>, skip: nat)
    requires 1 <= skip && Inv(s, skip) && IsStray(s) && IsPayload(q)
    ensures NothingLost(Glued(s, q, skip), skip) <==> InStep(s)
  {
    var s', n := Glued(s, q, skip), |PutsOn(s, s.today)|;
    NextKept(s, q, skip);
    EarlierAllKept(s, s', q, skip);
    GluedFile(s, q, skip);
    OneMorePut(s, s', n, skip);
  }

  lemma OneMorePut(s: State, s': State, n: nat, skip: nat)
    requires n == |PutsOn(s, s.today)| && |PutsOn(s', s.today)| == n + 1 && AllKept(s, s', skip)
    requires forall d: Day :: d != s.today ==> PutsOn(s', d) == PutsOn(s, d)
    ensures NothingLost(s', skip) <==> Kept(s', s.today, n, skip)
  {
    if Kept(s', s.today, n, skip) {
      forall d: Day, i: nat | i < |PutsOn(s', d)|
        ensures Kept(s', d, i, skip)
      {
        assert (d == s.today && i == n) || i < |PutsOn(s, d)|;
      }
    }
  }

  lemma SkippedThenPut(s: State, q: seq<byte>, skip: nat)
    requires 1 <= skip && Inv(s, skip) && IsLate(s) && !Hits(s, skip) && !Spares(s) && IsPayload(q)
    ensures NothingLost(Glued(s, q, skip), skip)
  {
    var s' := Glued(s, q, skip);
    var qs := SkippedFile(s, q, skip);
    forall d: Day, i: nat | i < |PutsOn(s', d)|
      ensures Kept(s', d, i, skip)
    {
      if d == s.today {
        AlikeReadable(PutsOn(s', d), qs, i, skip);
      } else {
        KeptWhereGrown(s, s', d, i, skip);
      }
    }
  }

  lemma SkippedFile(s: State, q: seq<byte>, skip: nat) returns (qs: Payloads)
    requires 1 <= skip && Inv(s, skip) && IsLate(s) && !Hits(s, skip) && !Spares(s) && IsPayload(q)
    ensures var s' := Glued(s, q, skip);
            && ReadAlike(PutsOn(s', s.today), qs, skip) && ArePayloads(qs)
            && s'.files == s.files[s.today := FileOf(qs, 0)]
            && PlacesOk(PlacesOn(s', s.today), PutsOn(s', s.today))
  {
    var qs0 := SkippedMark(s, skip);
    assert PlacesOk(PlacesOn(s, s.today), PutsOn(s, s.today));
    PutOnAlike(Apply(s, Mark, skip), qs0, q, skip);
    AlikeMore(PutsOn(s, s.today), qs0, q, skip);
    qs := qs0 + [q];
  }

  lemma AlikeMore(ps: Payloads, qs: Payloads, q: seq<byte>, skip: nat)
    requires ReadAlike(ps, qs, skip) && ArePayloads(qs) && IsPayload(q)
    ensures ReadAlike(ps + [q], qs + [q], skip) && ArePayloads(qs + [q])
  {
  }

  lemma PutOnAlike(s: State, qs: Payloads, q: seq<byte>, skip: nat)
    requires s.today in s.files && s.files[s.today] == FileOf(qs, 0) && IsPayload(q)
    requires ReadAlike(PutsOn(s, s.today), qs, skip) && PlacesOk(PlacesOn(s, s.today), PutsOn(s, s.today))
    ensures var s' := Apply(s, Put(q), skip);
            && s'.files == s.files[s.today := FileOf(qs + [q], 0)]
            && PutsOn(s', s.today) == PutsOn(s, s.today) + [q]
            && PlacesOk(PlacesOn(s', s.today), PutsOn(s', s.today))
  {
    var ps := PutsOn(s, s.today);
    Appended(qs, 0, q);
    FileLength(qs, 0);
    OffsetAlike(ps, qs, skip, |ps|);
    OnePlaceMore(PlacesOn(s, s.today), ps, q, Offset(ps, |ps|));
  }

  // ---------------------------------------------------------------- what the scans make of the glued line

  /** No unsent mark where the k-th chunk of a line starts. */
  predicate Quiet(file: seq<byte>, pos: nat, k: nat) {
    pos + CHUNK * k < |file| ==> file[pos + CHUNK * k] != MARK_UNSENT
  }

  /** A scan over one last line finds nothing if and only if no chunk of it starts with the unsent mark. */
  lemma {:induction false} ChunkScan(file: seq<byte>, pos: nat)
    requires pos < |file| ==> file[|file| - 1] == NEWLINE
    requires forall i :: pos <= i < |file| - 1 ==> file[i] != NEWLINE
    ensures FindUnsent(file, pos) == None <==> forall k: nat :: Quiet(file, pos, k)
    decreases |file| - pos
  {
    if |file| <= pos {
    } else if file[pos] == MARK_UNSENT {
      assert !Quiet(file, pos, 0);
    } else {
      ChunkEnds(file, pos, |file| - 1);
      ChunkScan(file, NextLine(file, pos));
      QuietFromNext(file, pos);
    }
  }

  lemma QuietShift(file: seq<byte>, pos: nat, next: nat, k: nat)
    requires next == pos + CHUNK
    ensures Quiet(file, pos, k + 1) <==> Quiet(file, next, k)
  {
    assert CHUNK * (k + 1) == CHUNK * k + CHUNK;
  }

  lemma QuietFromNext(file: seq<byte>, pos: nat)
    requires pos < |file| && file[pos] != MARK_UNSENT
    requires NextLine(file, pos) == pos + CHUNK || NextLine(file, pos) == |file| <= pos + CHUNK
    ensures (forall k: nat :: Quiet(file, pos, k)) <==> forall k: nat :: Quiet(file, NextLine(file, pos), k)
  {
    var next := NextLine(file, pos);
    if next == pos + CHUNK {
      if forall k: nat :: Quiet(file, next, k) {
        forall k: nat
          ensures Quiet(file, pos, k)
        {
          if k != 0 {
            QuietShift(file, pos, next, k - 1);
          }
        }
      }
      if forall k: nat :: Quiet(file, pos, k) {
        forall k: nat
          ensures Quiet(file, next, k)
        {
          QuietShift(file, pos, next, k);
        }
      }
    }
  }

  /** Behind the earlier records a rescan finds nothing iff no chunk of the glued line starts with the mark. */
  lemma StrayMarkHidesNextPut(s: State, q: seq<byte>, skip: nat)
    requires Inv(s, skip) && IsStray(s) && IsPayload(q)
    ensures var f, g := s.files[s.today], Glued(s, q, skip).files[s.today];
            FindUnsent(g, |f|) == None <==> forall k: nat :: Quiet(g, |f|, k)
  {
    var f, t := s.files[s.today], Tail(s, q);
    GluedFile(s, q, skip);
    TailIsOneLine(s, q);
    ChunkScan(f + t, |f|);
  }

  /**
   A glued line is read as one line exactly if it is no longer than a chunk. One in step is longer than
   the whole buffer, and get_record does not get past such a line once the day is over.
   */
  lemma StrayMarkOverlong(s: State, q: seq<byte>, skip: nat)
    requires Inv(s, skip) && IsStray(s) && IsPayload(q)
    ensures var f, g := s.files[s.today], Glued(s, q, skip).files[s.today];
            LinesFit(g, |f|) <==> |g| - |f| <= CHUNK
    ensures InStep(s) ==> PACKET_LINE_SIZE < |Glued(s, q, skip).files[s.today]| - |s.files[s.today]|
  {
    if InStep(s) {
      InStepIsLong(s);
    }
    var f, t := s.files[s.today], Tail(s, q);
    GluedFile(s, q, skip);
    TailIsOneLine(s, q);
    var g := f + t;
    ChunkEnds(g, |f|, |g| - 1);
    if CHUNK < |t| {
      assert g[|f| + CHUNK - 1] == t[CHUNK - 1];
    }
  }

  lemma InStepIsLong(s: State)
    requires IsStray(s) && InStep(s)
    ensures CHUNK <= s.control.begin + 1 - |s.files[s.today]|
  {
  }

  // ---------------------------------------------------------------- the form of the files

  /** The files stay nothing but lines of records if and only if the late mark changes nothing. */
  lemma LateMarkKeepsForm(s: State, skip: nat)
    requires Inv(s, skip) && IsLate(s)
    ensures OnlyRecords(Apply(s, Mark, skip)) <==> Harmless(s, Mark)
  {
    var s' := Apply(s, Mark, skip);
    if Harmless(s, Mark) {
      LateMarkKeeps(s, skip);
      DaysShow(s');
    } else if OnlyRecords(s') {
      var recs :| Shows(s', s.today, recs);
      NewDayUnmarked(s, skip);
      assert DayInv(s, s.today);
      NewDayIntact(s, s', recs);
      OverwriteChanges(s.files[s.today], s.control.begin);
      assert false;
    }
  }

  lemma NewDayIntact(s: State, s': State, recs: seq<Rec>)
    requires s.today in s.files && s.today in s'.files && s'.puts == s.puts && s'.acks == s.acks
    requires DayInv(s, s.today) && MarksOn(s, s.today) == 0 && Shows(s', s.today, recs)
    requires forall i: nat :: !Acked(s, s.today, i)
    ensures s'.files[s.today] == s.files[s.today]
  {
    forall i | 0 <= i < |recs|
      ensures recs[i] == Rec(false, PutsOn(s, s.today)[i])
    {
      assert !Acked(s, s.today, i);
    }
    assert recs == Recs(PutsOn(s, s.today), 0);
  }

  lemma OverwriteChanges(f: seq<byte>, b: nat)
    requires Overwrite(f, b, MARK_SENT) == f
    ensures b < |f| && f[b] == MARK_SENT
  {
    assert b < |Overwrite(f, b, MARK_SENT)| && Overwrite(f, b, MARK_SENT)[b] == MARK_SENT;
  }

  // ---------------------------------------------------------------- a run that loses a record

  lemma Extend(states: seq<State>, steps: seq<Step>, step: Step, skip: nat)
    requires IsRun(states, steps, skip) && Enabled(states[|steps|], step)
    ensures IsRun(states + [Apply(states[|steps|], step, skip)], steps + [step], skip)
    ensures NoHarm(states, steps) && Harmless(states[|steps|], step) ==>
              NoHarm(states + [Apply(states[|steps|], step, skip)], steps + [step])
  {
    var states', steps' := states + [Apply(states[|steps|], step, skip)], steps + [step];
    forall i | 0 <= i < |steps'|
      ensures Enabled(states'[i], steps'[i]) && states'[i + 1] == Apply(states'[i], steps'[i], skip)
      ensures NoHarm(states, steps) && Harmless(states[|steps|], step) ==> Harmless(states'[i], steps'[i])
    {
      if i < |steps| {
        assert states'[i] == states[i] && states'[i + 1] == states[i + 1] && steps'[i] == steps[i];
      }
    }
  }

  /** A first record has been put and today's file been chosen. */
  lemma OnePut(p: seq<byte>, skip: nat) returns (states: seq<State>, steps: seq<Step>)
    requires IsPayload(p)
    ensures steps == [Put(p), ChooseToday] && IsRun(states, steps, skip) && NoHarm(states, steps)
    ensures var s := states[2];
            && s.control == TodayNext && s.today == 0
            && s.files == map[0 := [MARK_UNSENT] + (p + [NEWLINE])]
  {
    var s := State(map[], 0, Choosing, map[], map[], map[], [], 0, 0);
    states, steps := [s], [];
    assert Content(s.files, 0) + ([MARK_UNSENT] + (p + [NEWLINE])) == [MARK_UNSENT] + (p + [NEWLINE]);
    Extend(states, steps, Put(p), skip);
    states, steps := states + [Apply(s, Put(p), skip)], [Put(p)];
    Extend(states, steps, ChooseToday, skip);
    states, steps := states + [Apply(states[1], ChooseToday, skip)], [Put(p), ChooseToday];
  }

  /** It has been read, posted and acknowledged. */
  lemma OnePosted(p: seq<byte>, skip: nat) returns (states: seq<State>, steps: seq<Step>)
    requires IsPayload(p) && 1 <= skip <= 2
    ensures steps == [Put(p), ChooseToday, ReadToday, PostAcked] && IsRun(states, steps, skip) && NoHarm(states, steps)
    ensures states[4].control == Posted(false, 0, 0, |p| + 2)
    ensures states[4].today == 0 && states[4].files.Keys == {0}
  {
    states, steps := OnePut(p, skip);
    ReadOnly(states[2], p, skip);
    Extend(states, steps, ReadToday, skip);
    states, steps := states + [Apply(states[2], ReadToday, skip)], [Put(p), ChooseToday, ReadToday];
    Extend(states, steps, PostAcked, skip);
    states, steps := states + [Apply(states[3], PostAcked, skip)], [Put(p), ChooseToday, ReadToday, PostAcked];
  }

  /** A run that loses a record: midnight and the first record of the new day come between a post and its mark. */
  lemma MidnightLosesARecord(p: seq<byte>, q: seq<byte>, skip: nat) returns (states: seq<State>, steps: seq<Step>)
    requires IsPayload(p) && IsPayload(q) && 1 <= skip <= 2
    ensures steps == [Put(p), ChooseToday, ReadToday, PostAcked, Midnight(1), Put(q), Mark]
    ensures IsRun(states, steps, skip) && !NothingLost(states[7], skip)
  {
    states, steps := OnePosted(p, skip);
    Extend(states, steps, Midnight(1), skip);
    states, steps := states + [Apply(states[4], Midnight(1), skip)], steps + [Midnight(1)];
    Extend(states, steps, Put(q), skip);
    states, steps := states + [Apply(states[5], Put(q), skip)], steps + [Put(q)];
    RunInv(states, steps, 6, skip);
    HitsFirst(states[5], q, skip);
    LateMarkExact(states[6], skip);
    Extend(states, steps, Mark, skip);
    states, steps := states + [Apply(states[6], Mark, skip)], steps + [Mark];
  }

  /** A mark due at the start of the file, after midnight and the first record of the new day. */
  lemma HitsFirst(s: State, q: seq<byte>, skip: nat)
    requires IsPayload(q) && s.control.Posted? && !s.control.past && s.control.day != s.today
    requires s.control.begin == 0 && s.today !in s.files
    ensures var s' := Apply(s, Put(q), skip); IsLate(s') && HitsRecord(s', 0, skip)
  {
    assert Content(s.files, s.today) + ([MARK_UNSENT] + (q + [NEWLINE])) == [MARK_UNSENT] + (q + [NEWLINE]);
  }

  /** Reading today's file of one record. */
  lemma ReadOnly(s: State, p: seq<byte>, skip: nat)
    requires IsPayload(p) && 1 <= skip <= 2
    requires s.today in s.files && s.files[s.today] == [MARK_UNSENT] + (p + [NEWLINE])
    ensures Read(false, s.today, s.files[s.today], 0, skip)
            == Posting(false, s.today, 0, |p| + 2, TextOf(false, p, skip))
  {
    Appended([], 0, p);
    assert FileOf([], 0) + ([MARK_UNSENT] + (p + [NEWLINE])) == [MARK_UNSENT] + (p + [NEWLINE]);
    assert [] + [p] == [p];
    ReadOf([p], 0, false, s.today, 0, skip);
    assert Offset([p], 1) == |p| + 2;
  }
}
