/**
 A day's file as one process appends to it and another marks it: the records in the order they
 were put, of which a first few are marked sent and the rest are not.
 */
module LogFile {
  import opened Bytes
  import opened Options
  import opened PacketCodec
  import PacketFileMgr
  import Rexmit

  type Payloads = seq<seq<byte>>

  ghost predicate ArePayloads(ps: Payloads) {
    forall i :: 0 <= i < |ps| ==> IsPayload(ps[i])
  }

  /** The records of these payloads, the first m of them sent. */
  function Recs(ps: Payloads, m: nat): (recs: seq<Rec>)
    ensures |recs| == |ps|
  {
    seq(|ps|, i requires 0 <= i < |ps| => Rec(i < m, ps[i]))
  }

  function FileOf(ps: Payloads, m: nat): seq<byte> {
    EncodeAll(Recs(ps, m))
  }

  /** Where the line of record i starts, whatever the marks. */
  function Offset(ps: Payloads, i: nat): nat
    requires i <= |ps|
  {
    if i == 0 then 0 else Offset(ps, i - 1) + |ps[i - 1]| + 2
  }

  /** What the reader of a past file, or of today's, hands on of a payload. */
  function TextOf(past: bool, p: seq<byte>, skip: nat): seq<byte> {
    if past then Rexmit.Handed(p, skip) else Rexmit.Handed(p + [NEWLINE], skip)
  }

  lemma {:induction false} StartIsOffset(ps: Payloads, m: nat, i: nat)
    requires i <= |ps|
    ensures Start(Recs(ps, m), i) == Offset(ps, i)
    decreases i
  {
    StartBounds(Recs(ps, m), 0);
    if 0 == i {
    } else {
      StartIsOffset(ps, m, i - 1);
      SplitAt(Recs(ps, m), i - 1);
    }
  }

  lemma {:induction false} OffsetStable(ps: Payloads, more: Payloads, i: nat)
    requires i <= |ps|
    ensures Offset(ps + more, i) == Offset(ps, i)
    decreases i
  {
    if 0 == i {
    } else {
      OffsetStable(ps, more, i - 1);
    }
  }

  lemma OffsetOfPrefix(ps: Payloads, qs: Payloads, i: nat)
    requires i <= |ps| && ps <= qs
    ensures Offset(qs, i) == Offset(ps, i)
  {
    assert qs == ps + qs[|ps|..];
    OffsetStable(ps, qs[|ps|..], i);
  }

  lemma FileLength(ps: Payloads, m: nat)
    ensures |FileOf(ps, m)| == Offset(ps, |ps|)
  {
    StartBounds(Recs(ps, m), |ps|);
    StartIsOffset(ps, m, |ps|);
  }

  /** Every byte of the file belongs to the line of some record. */
  lemma {:induction false} OffsetCovers(ps: Payloads, at: nat, n: nat) returns (i: nat)
    requires n <= |ps| && at < Offset(ps, n)
    ensures i < n && Offset(ps, i) <= at < Offset(ps, i + 1)
    decreases n
  {
    if Offset(ps, n - 1) <= at {
      i := n - 1;
    } else {
      i := OffsetCovers(ps, at, n - 1);
    }
  }

  // ---------------------------------------------------------------- what the scanners make of it

  lemma ScanFrom(ps: Payloads, m: nat, k: nat)
    requires ArePayloads(ps) && k <= m <= |ps|
    ensures Offset(ps, k) <= |FileOf(ps, m)|
    ensures FindUnsent(FileOf(ps, m), Offset(ps, k)) == if m < |ps| then Some(Offset(ps, m)) else None
  {
    var recs := Recs(ps, m);
    ScanFinds(recs, k);
    FirstUnsentIs(recs, k, m);
    StartIsOffset(ps, m, k);
    StartIsOffset(ps, m, m);
    StartBounds(recs, k);
  }

  /** Record i's line, read from its start. */
  lemma LineOfRecord(ps: Payloads, m: nat, i: nat)
    requires ArePayloads(ps) && m <= |ps| && i < |ps|
    ensures var file, b, e := FileOf(ps, m), Offset(ps, i), Offset(ps, i + 1);
            && b < e <= |file| && NextLine(file, b) == e
            && file[b..e] == Encode(Rec(i < m, ps[i]))
  {
    var recs := Recs(ps, m);
    NextRecord(recs, i);
    LineOf(recs, i);
    StartIsOffset(ps, m, i);
    StartIsOffset(ps, m, i + 1);
  }

  /** What a line hands on to either reader; named so that a proof passes it on as one fact. */
  predicate HandsTexts(file: seq<byte>, b: nat, e: nat, p: seq<byte>, skip: nat) {
    var hands :=
      && b < e <= |file|
      && CString(file[b..e], skip) == TextOf(false, p, skip)
      && CString(file[b..e - 1], skip) == TextOf(true, p, skip);
    hands
  }

  lemma TextsOfRecord(ps: Payloads, m: nat, i: nat, skip: nat)
    requires ArePayloads(ps) && m <= |ps| && i < |ps| && 1 <= skip
    ensures HandsTexts(FileOf(ps, m), Offset(ps, i), Offset(ps, i + 1), ps[i], skip)
  {
    LineOfRecord(ps, m, i);
    TextsOfLine(FileOf(ps, m), Offset(ps, i), Offset(ps, i + 1), Rec(i < m, ps[i]), skip);
  }

  lemma TextsOfLine(file: seq<byte>, b: nat, e: nat, r: Rec, skip: nat)
    requires b < e <= |file| && file[b..e] == Encode(r) && IsPayload(r.payload) && 1 <= skip
    ensures HandsTexts(file, b, e, r.payload, skip)
  {
    Rexmit.TextOfLine(file, b, e, r, skip);
    if skip <= |r.payload| + 2 {
      TodayText(r, skip);
    }
  }

  // ---------------------------------------------------------------- reading record by record

  /** Reading line by line from a position on comes to another position. */
  predicate Reached(file: seq<byte>, pos: nat, at: nat)
    decreases |file| - pos
  {
    pos == at || (pos < |file| && Reached(file, NextLine(file, pos), at))
  }

  /**
   A record can still be read: its line is unsent and ends where it ended when it was put, it hands on
   what was put to either reader, and a rescan line by line comes to it. Named so that a proof passes it
   on as one fact.
   */
  ghost predicate Readable(file: seq<byte>, place: nat, p: seq<byte>, skip: nat) {
    var e := place + |p| + 2;
    var readable :=
      && e <= |file| && file[place] == MARK_UNSENT && file[e - 1] == NEWLINE && NextLine(file, place) == e
      && HandsTexts(file, place, e, p, skip) && Reached(file, 0, place);
    readable
  }

  lemma {:induction false} WalkReaches(ps: Payloads, m: nat, k: nat, i: nat)
    requires ArePayloads(ps) && m <= |ps| && k <= i <= |ps|
    ensures Reached(FileOf(ps, m), Offset(ps, k), Offset(ps, i))
    decreases i - k
  {
    if k == i {
    } else {
      LineOfRecord(ps, m, k);
      WalkReaches(ps, m, k + 1, i);
    }
  }

  /** A day's file, to which one may therefore append. */
  lemma FileEnds(ps: Payloads, m: nat)
    requires ArePayloads(ps) && m <= |ps|
    ensures PacketFileMgr.EndsInNewline(FileOf(ps, m))
  {
    FileLength(ps, m);
    if ps == [] {
    } else {
      var n := |ps| - 1;
      LineOfRecord(ps, m, n);
      LastByte(FileOf(ps, m), Offset(ps, n), Rec(n < m, ps[n]));
    }
  }

  lemma LastByte(file: seq<byte>, b: nat, r: Rec)
    requires b < |file| && file[b..|file|] == Encode(r)
    ensures file[|file| - 1] == NEWLINE
  {
    assert file[|file| - 1] == file[b..|file|][|file| - 1 - b];
  }

  /** Reading goes the same way after an append. */
  lemma {:induction false} ReachedStays(pre: seq<byte>, more: seq<byte>, pos: nat, at: nat)
    requires PacketFileMgr.EndsInNewline(pre) && Reached(pre, pos, at)
    ensures Reached(pre + more, pos, at)
    decreases |pre| - pos
  {
    if pos == at {
    } else {
      PacketFileMgr.NextLineStays(pre, more, pos);
      ReachedStays(pre, more, NextLine(pre, pos), at);
    }
  }

  /** Reading never goes back. */
  lemma {:induction false} ReachedBehind(file: seq<byte>, pos: nat, at: nat)
    requires Reached(file, pos, at)
    ensures pos <= at
    decreases |file| - pos
  {
    if pos == at {
    } else {
      ReachedBehind(file, NextLine(file, pos), at);
    }
  }

  /** A position further on is reached from where reading comes through, or not at all. */
  lemma {:induction false} ReachedThrough(file: seq<byte>, pos: nat, mid: nat, at: nat)
    requires Reached(file, pos, mid) && mid <= at
    ensures Reached(file, pos, at) <==> Reached(file, mid, at)
    decreases |file| - pos
  {
    ReachedBehind(file, pos, mid);
    if pos == mid {
    } else {
      ReachedThrough(file, NextLine(file, pos), mid, at);
    }
  }

  /** The scan finds the first line start, of those that reading line by line comes to, that holds the unsent mark. */
  lemma {:induction false} FindsFirstReached(file: seq<byte>, pos: nat, b: nat)
    ensures FindUnsent(file, pos) == Some(b) <==>
            && Reached(file, pos, b) && b < |file| && file[b] == 'R' as int
            && forall a :: 0 <= a < b && Reached(file, pos, a) ==> file[a] != 'R' as int
    decreases |file| - pos
  {
    if |file| <= pos {
    } else if file[pos] == 'R' as int {
      assert Reached(file, pos, pos);
      if Reached(file, pos, b) {
        ReachedBehind(file, pos, b);
      }
      forall a | 0 <= a < pos
        ensures !Reached(file, pos, a)
      {
        if Reached(file, pos, a) {
          ReachedBehind(file, pos, a);
        }
      }
    } else {
      FindsFirstReached(file, NextLine(file, pos), b);
      forall a | 0 <= a
        ensures Reached(file, pos, a) <==> a == pos || Reached(file, NextLine(file, pos), a)
      {
      }
    }
  }

  lemma RecordReadable(ps: Payloads, m: nat, i: nat, skip: nat)
    requires ArePayloads(ps) && m <= i < |ps| && 1 <= skip
    ensures Readable(FileOf(ps, m), Offset(ps, i), ps[i], skip)
  {
    // a variable, because with the number itself the solver would unfold the walk
    var k: nat :| k == 0;
    LineOfRecord(ps, m, i);
    WalkReaches(ps, m, k, i);
    LineReadableTo(FileOf(ps, m), Offset(ps, k), Offset(ps, i), Offset(ps, i + 1), ps[i], skip);
  }

  lemma LineReadableTo(file: seq<byte>, start: nat, b: nat, e: nat, p: seq<byte>, skip: nat)
    requires IsPayload(p) && 1 <= skip && start == 0 && b + |p| + 2 == e <= |file|
    requires file[b..e] == Encode(Rec(false, p)) && NextLine(file, b) == e && Reached(file, start, b)
    ensures Readable(file, b, p, skip)
  {
    LineReadable(file, b, p, skip);
  }

  /** The line of an unsent record, wherever a rescan comes to it. */
  lemma LineReadable(file: seq<byte>, place: nat, p: seq<byte>, skip: nat)
    requires IsPayload(p) && 1 <= skip && place + |p| + 2 <= |file|
    requires file[place..place + |p| + 2] == Encode(Rec(false, p))
    requires NextLine(file, place) == place + |p| + 2 && Reached(file, 0, place)
    ensures Readable(file, place, p, skip)
  {
    TextsOfLine(file, place, place + |p| + 2, Rec(false, p), skip);
    LineEdges(file, place, p);
  }

  lemma LineEdges(file: seq<byte>, b: nat, p: seq<byte>)
    requires b + |p| + 2 <= |file| && file[b..b + |p| + 2] == Encode(Rec(false, p))
    ensures file[b] == MARK_UNSENT && file[b + |p| + 1] == NEWLINE
  {
    var line := file[b..b + |p| + 2];
    assert file[b] == line[0] && file[b + |p| + 1] == line[|p| + 1];
  }

  // ---------------------------------------------------------------- what is done to it

  lemma Appended(ps: Payloads, m: nat, p: seq<byte>)
    requires m <= |ps|
    ensures FileOf(ps, m) + ([MARK_UNSENT] + (p + [NEWLINE])) == FileOf(ps + [p], m)
  {
    AppendAdds(Recs(ps, m), p);
    assert Recs(ps + [p], m) == Recs(ps, m) + [Rec(false, p)];
  }

  lemma Marked(ps: Payloads, m: nat)
    requires m < |ps|
    ensures PacketFileMgr.Overwrite(FileOf(ps, m), Offset(ps, m), MARK_SENT) == FileOf(ps, m + 1)
  {
    MarkingChangesOne(Recs(ps, m), m);
    StartIsOffset(ps, m, m);
    assert Sent(Recs(ps, m), m) == Recs(ps, m + 1);
  }

  // ---------------------------------------------------------------- bytes that no reader looks at

  /** Two payloads that either reader hands on alike. */
  predicate SameTexts(p: seq<byte>, q: seq<byte>, skip: nat) {
    |p| == |q| && TextOf(true, p, skip) == TextOf(true, q, skip) && TextOf(false, p, skip) == TextOf(false, q, skip)
  }

  ghost predicate ReadAlike(ps: Payloads, qs: Payloads, skip: nat) {
    |ps| == |qs| && forall i :: 0 <= i < |ps| ==> SameTexts(ps[i], qs[i], skip)
  }

  lemma {:induction false} OffsetAlike(ps: Payloads, qs: Payloads, skip: nat, i: nat)
    requires ReadAlike(ps, qs, skip) && i <= |ps|
    ensures Offset(qs, i) == Offset(ps, i)
    decreases i
  {
    if 0 == i {
    } else {
      OffsetAlike(ps, qs, skip, i - 1);
    }
  }

  /** What of a payload is skipped can be overwritten. */
  lemma SkippedByte(p: seq<byte>, j: nat, skip: nat)
    requires IsPayload(p) && j < |p| && j + 1 < skip
    ensures IsPayload(p[j := MARK_SENT]) && SameTexts(p, p[j := MARK_SENT], skip)
  {
    var q := p[j := MARK_SENT];
    if skip <= |p| {
      assert q[skip - 1..] == p[skip - 1..];
    }
    if skip <= |p| + 1 {
      assert (q + [NEWLINE])[skip - 1..] == (p + [NEWLINE])[skip - 1..];
    }
  }

  function OneByte(ps: Payloads, i: nat, j: nat, x: byte): Payloads
    requires i < |ps| && j < |ps[i]|
  {
    var q: seq<byte> := ps[i][j := x];
    ps[i := q]
  }

  /** Overwriting a byte of a payload leaves a file of records, one of them with that payload. */
  lemma PayloadOverwritten(ps: Payloads, m: nat, i: nat, j: nat, x: byte)
    requires m <= i < |ps| && j < |ps[i]|
    ensures PacketFileMgr.Overwrite(FileOf(ps, m), Offset(ps, i) + 1 + j, x) == FileOf(OneByte(ps, i, j, x), m)
  {
    var recs, recs' := Recs(ps, m), Recs(OneByte(ps, i, j, x), m);
    SplitAt(recs, i);
    SplitAt(recs', i);
    StartIsOffset(ps, m, i);
    OthersStay(ps, m, i, j, x);
    LineOverwritten(EncodeAll(recs[..i]), ps[i], j, x, EncodeAll(recs[i + 1..]));
  }

  lemma OthersStay(ps: Payloads, m: nat, i: nat, j: nat, x: byte)
    requires m <= i < |ps| && j < |ps[i]|
    ensures var recs, recs' := Recs(ps, m), Recs(OneByte(ps, i, j, x), m);
            && recs'[..i] == recs[..i] && recs'[i + 1..] == recs[i + 1..]
            && recs[i] == Rec(false, ps[i]) && recs'[i] == Rec(false, ps[i][j := x])
  {
  }

  lemma LineOverwritten(before: seq<byte>, p: seq<byte>, j: nat, x: byte, after: seq<byte>)
    requires j < |p|
    ensures PacketFileMgr.Overwrite(before + Encode(Rec(false, p)) + after, |before| + 1 + j, x) ==
            before + Encode(Rec(false, p[j := x])) + after
  {
  }

  /** A file that is read alike holds every record of the other where the other holds it. */
  lemma AlikeReadable(ps: Payloads, qs: Payloads, i: nat, skip: nat)
    requires ReadAlike(ps, qs, skip) && ArePayloads(qs) && i < |ps| && 1 <= skip
    ensures Readable(FileOf(qs, 0), Offset(ps, i), ps[i], skip)
  {
    OffsetAlike(ps, qs, skip, i);
    RecordReadable(qs, 0, i, skip);
    TextsReadable(FileOf(qs, 0), Offset(ps, i), ps[i], qs[i], skip);
  }

  lemma TextsReadable(file: seq<byte>, place: nat, p: seq<byte>, q: seq<byte>, skip: nat)
    requires Readable(file, place, q, skip) && SameTexts(p, q, skip)
    ensures Readable(file, place, p, skip)
  {
  }
}
