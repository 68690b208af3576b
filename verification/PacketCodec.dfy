/**
 The record log of packetfilemgr/packetfilemgr.cpp as bytes: one line per record, its first byte
 a mark that is overwritten in place, and what the two line scanners make of such a file.
 */
module PacketCodec {
  import opened Bytes
  import opened Options

  const MARK_UNSENT: byte := 0x52
  const MARK_SENT: byte := 0x53
  const NEWLINE: byte := 0x0A
  const PACKET_LINE_SIZE := 1024

  // ---------------------------------------------------------------- records and their bytes

  datatype Rec = Rec(sent: bool, payload: seq<byte>)

  /** What a record may hold: something, on one line, without a C terminator, that fits the line buffer. */
  predicate IsPayload(p: seq<byte>) {
    && 0 < |p| <= PACKET_LINE_SIZE - 3
    && forall i :: 0 <= i < |p| ==> p[i] != NEWLINE && p[i] != 0
  }

  predicate AreRecords(recs: seq<Rec>) {
    forall k :: 0 <= k < |recs| ==> IsPayload(recs[k].payload)
  }

  function Mark(sent: bool): byte {
    if sent then MARK_SENT else MARK_UNSENT
  }

  function Encode(r: Rec): (line: seq<byte>)
    ensures |line| == |r.payload| + 2
  {
    [Mark(r.sent)] + r.payload + [NEWLINE]
  }

  function EncodeAll(recs: seq<Rec>): seq<byte> {
    if recs == [] then [] else Encode(recs[0]) + EncodeAll(recs[1..])
  }

  /** Where record k starts. */
  function Start(recs: seq<Rec>, k: nat): nat
    requires k <= |recs|
  {
    |EncodeAll(recs[..k])|
  }

  // ---------------------------------------------------------------- the scanners

  /** One past what fgets reads from a position: a newline, a full buffer or the end of the file. */
  function LineEnd(file: seq<byte>, pos: nat, room: nat): (e: nat)
    ensures pos <= e
    ensures pos < |file| && 0 < room ==> pos < e <= |file|
    decreases room
  {
    if |file| <= pos || room == 0 then pos
    else if file[pos] == NEWLINE then pos + 1
    else LineEnd(file, pos + 1, room - 1)
  }

  function NextLine(file: seq<byte>, pos: nat): (e: nat)
    ensures pos <= e && (pos < |file| ==> pos < e <= |file|)
  {
    LineEnd(file, pos, PACKET_LINE_SIZE - 1)
  }

  /** The first line from a position on that is marked unsent. */
  function FindUnsent(file: seq<byte>, pos: nat): (r: Option<nat>)
    ensures r.Some? ==> pos <= r.value < |file| && file[r.value] == MARK_UNSENT
    decreases |file| - pos
  {
    if |file| <= pos then None
    else if file[pos] == MARK_UNSENT then Some(pos)
    else FindUnsent(file, NextLine(file, pos))
  }

  /** The C string that starts some way into a zero-filled line buffer. */
  function CString(line: seq<byte>, skip: nat): (s: seq<byte>) {
    if |line| <= skip then [] else UpToNul(line[skip..])
  }

  function UpToNul(s: seq<byte>): seq<byte> {
    if s == [] || s[0] == 0 then [] else [s[0]] + UpToNul(s[1..])
  }

  /** What a rescan from the start of the file reads: a whole line, from some bytes in. */
  function TodayRecord(file: seq<byte>, skip: nat): Option<seq<byte>> {
    match FindUnsent(file, 0)
    case None => None
    case Some(b) => Some(CString(file[b..NextLine(file, b)], skip))
  }

  /** What a scan going on from a position reads: the line without its newline. */
  function PastRecord(file: seq<byte>, pos: nat, skip: nat): Option<seq<byte>> {
    match FindUnsent(file, pos)
    case None => None
    case Some(b) => Some(CString(file[b..NextLine(file, b) - 1], skip))
  }

  // ---------------------------------------------------------------- concatenation and offsets

  lemma {:induction false} EncodeConcat(a: seq<Rec>, b: seq<Rec>)
    ensures EncodeAll(a + b) == EncodeAll(a) + EncodeAll(b)
  {
    if a == [] {
      assert a + b == b;
    } else {
      assert (a + b)[1..] == a[1..] + b;
      EncodeConcat(a[1..], b);
    }
  }

  /** A file splits at a record into what lies before, the record's line, and what lies after. */
  lemma SplitAt(recs: seq<Rec>, k: nat)
    requires k < |recs|
    ensures EncodeAll(recs) == EncodeAll(recs[..k]) + Encode(recs[k]) + EncodeAll(recs[k + 1..])
    ensures Start(recs, k + 1) == Start(recs, k) + |Encode(recs[k])|
  {
    assert recs == recs[..k] + recs[k..];
    EncodeConcat(recs[..k], recs[k..]);
    assert recs[k..][1..] == recs[k + 1..];
    assert recs[..k + 1] == recs[..k] + [recs[k]];
    EncodeConcat(recs[..k], [recs[k]]);
    assert EncodeAll([recs[k]]) == Encode(recs[k]) + EncodeAll([recs[k]][1..]);
  }

  lemma StartBounds(recs: seq<Rec>, k: nat)
    requires k <= |recs|
    ensures Start(recs, k) <= |EncodeAll(recs)|
    ensures Start(recs, |recs|) == |EncodeAll(recs)| && Start(recs, 0) == 0
  {
    assert recs == recs[..k] + recs[k..];
    EncodeConcat(recs[..k], recs[k..]);
    assert recs[..|recs|] == recs;
  }

  /** Appends do not move the records already there. */
  lemma StartStable(recs: seq<Rec>, more: seq<Rec>, k: nat)
    requires k <= |recs|
    ensures Start(recs + more, k) == Start(recs, k)
  {
    assert (recs + more)[..k] == recs[..k];
  }

  // ---------------------------------------------------------------- lines and marks

  lemma {:induction false} LineEndPasses(before: seq<byte>, p: seq<byte>, after: seq<byte>, room: nat)
    requires |p| < room && forall i :: 0 <= i < |p| ==> p[i] != NEWLINE
    ensures LineEnd(before + p + [NEWLINE] + after, |before|, room) == |before| + |p| + 1
    decreases |p|
  {
    var file := before + p + [NEWLINE] + after;
    if p == [] {
    } else {
      assert file == (before + [p[0]]) + p[1..] + [NEWLINE] + after;
      LineEndPasses(before + [p[0]], p[1..], after, room - 1);
    }
  }

  lemma {:induction false} LineEndBounds(file: seq<byte>, pos: nat, room: nat)
    requires pos < |file| && 0 < room
    ensures var e := LineEnd(file, pos, room);
            && pos < e <= |file| && e <= pos + room
            && (forall i :: pos <= i < e - 1 ==> file[i] != NEWLINE)
            && (e == |file| || e == pos + room || file[e - 1] == NEWLINE)
    decreases room
  {
    if file[pos] == NEWLINE || room == 1 || pos + 1 == |file| {
    } else {
      LineEndBounds(file, pos + 1, room - 1);
    }
  }

  /** One read goes through the first newline, if that is among the next 1023 bytes, or else takes those. */
  lemma NextLineExact(file: seq<byte>, pos: nat)
    requires pos < |file|
    ensures var e := NextLine(file, pos);
            && pos < e <= |file| && e <= pos + 1023
            && (forall i :: pos <= i < e - 1 ==> file[i] != '\n' as int)
            && (e == |file| || e == pos + 1023 || file[e - 1] == '\n' as int)
  {
    LineEndBounds(file, pos, PACKET_LINE_SIZE - 1);
  }

  /** A text without terminators can be put exactly if its line is read back in one piece. */
  lemma PayloadIsOneLine(p: seq<byte>)
    requires p != [] && 0 !in p
    ensures IsPayload(p) <==> NextLine(Encode(Rec(false, p)), 0) == |p| + 2
  {
    var line := Encode(Rec(false, p));
    if IsPayload(p) {
      LineAfter([], Rec(false, p), []);
      assert [] + line + [] == line;
    } else {
      NextLineExact(line, 0);
      assert forall i :: 0 <= i < |p| ==> p[i] == line[1 + i] && p[i] in p;
    }
  }

  /** Reading a line from the start of a record ends at the start of the next one. */
  lemma NextRecord(recs: seq<Rec>, k: nat)
    requires AreRecords(recs) && k < |recs|
    ensures Start(recs, k) < |EncodeAll(recs)|
    ensures EncodeAll(recs)[Start(recs, k)] == Mark(recs[k].sent)
    ensures NextLine(EncodeAll(recs), Start(recs, k)) == Start(recs, k + 1)
  {
    SplitAt(recs, k);
    LineAfter(EncodeAll(recs[..k]), recs[k], EncodeAll(recs[k + 1..]));
  }

  lemma LineAfter(before: seq<byte>, r: Rec, after: seq<byte>)
    requires IsPayload(r.payload)
    ensures (before + Encode(r) + after)[|before|] == Mark(r.sent)
    ensures NextLine(before + Encode(r) + after, |before|) == |before| + |Encode(r)|
  {
    var body := [Mark(r.sent)] + r.payload;
    assert before + Encode(r) + after == before + body + [NEWLINE] + after;
    LineEndPasses(before, body, after, PACKET_LINE_SIZE - 1);
  }

  /** The bytes of record k's line. */
  lemma LineOf(recs: seq<Rec>, k: nat)
    requires k < |recs|
    ensures Start(recs, k) <= Start(recs, k + 1) <= |EncodeAll(recs)|
    ensures EncodeAll(recs)[Start(recs, k)..Start(recs, k + 1)] == Encode(recs[k])
    ensures 0 < Start(recs, k + 1) && EncodeAll(recs)[Start(recs, k + 1) - 1] == NEWLINE
  {
    SplitAt(recs, k);
    StartBounds(recs, k + 1);
    var file, b, e := EncodeAll(recs), Start(recs, k), Start(recs, k + 1);
    assert file[b..e] == Encode(recs[k]);
    assert file[e - 1] == file[b..e][e - 1 - b];
  }

  /** The first unsent record at or after a given one, or the number of records. */
  function FirstUnsent(recs: seq<Rec>, k: nat): (j: nat)
    requires k <= |recs|
    ensures k <= j <= |recs| && (j < |recs| ==> !recs[j].sent)
    ensures forall i :: k <= i < j ==> recs[i].sent
    decreases |recs| - k
  {
    if k == |recs| || !recs[k].sent then k else FirstUnsent(recs, k + 1)
  }

  lemma {:induction false} FirstUnsentIs(recs: seq<Rec>, k: nat, j: nat)
    requires k <= j <= |recs| && (j < |recs| ==> !recs[j].sent)
    requires forall i :: k <= i < j ==> recs[i].sent
    ensures FirstUnsent(recs, k) == j
    decreases j - k
  {
    if k == j {
    } else {
      FirstUnsentIs(recs, k + 1, j);
    }
  }

  /** Scanning from the start of a record finds the first unsent record from there on. */
  lemma {:induction false} ScanFinds(recs: seq<Rec>, k: nat)
    requires AreRecords(recs) && k <= |recs|
    ensures var j := FirstUnsent(recs, k);
            FindUnsent(EncodeAll(recs), Start(recs, k)) == if j < |recs| then Some(Start(recs, j)) else None
    decreases |recs| - k
  {
    StartBounds(recs, k);
    if k == |recs| {
    } else {
      NextRecord(recs, k);
      if recs[k].sent {
        ScanFinds(recs, k + 1);
      }
    }
  }

  function Sent(recs: seq<Rec>, k: nat): seq<Rec>
    requires k < |recs|
  {
    recs[k := Rec(true, recs[k].payload)]
  }

  /** Overwriting one mark byte changes that one record, and no position moves. */
  lemma MarkingChangesOne(recs: seq<Rec>, k: nat)
    requires k < |recs|
    ensures Start(recs, k) < |EncodeAll(recs)|
    ensures EncodeAll(recs)[Start(recs, k) := MARK_SENT] == EncodeAll(Sent(recs, k))
    ensures forall j :: 0 <= j <= |recs| ==> Start(Sent(recs, k), j) == Start(recs, j)
  {
    var recs' := Sent(recs, k);
    SplitAt(recs, k);
    SplitAt(recs', k);
    assert recs'[..k] == recs[..k] && recs'[k + 1..] == recs[k + 1..];
    MarkingBytes(EncodeAll(recs[..k]), recs[k], EncodeAll(recs[k + 1..]));
    forall j | 0 <= j <= |recs|
      ensures Start(recs', j) == Start(recs, j)
    {
      SameLengths(recs'[..j], recs[..j]);
    }
  }

  lemma MarkingBytes(before: seq<byte>, r: Rec, after: seq<byte>)
    ensures (before + Encode(r) + after)[|before| := MARK_SENT] == before + Encode(Rec(true, r.payload)) + after
  {
  }

  lemma {:induction false} SameLengths(a: seq<Rec>, b: seq<Rec>)
    requires |a| == |b| && forall i :: 0 <= i < |a| ==> a[i].payload == b[i].payload
    ensures |EncodeAll(a)| == |EncodeAll(b)|
  {
    if a == [] {
    } else {
      SameLengths(a[1..], b[1..]);
    }
  }

  /** What put_today_record writes is one more unsent record. */
  lemma AppendAdds(recs: seq<Rec>, p: seq<byte>)
    ensures EncodeAll(recs) + ([MARK_UNSENT] + (p + [NEWLINE])) == EncodeAll(recs + [Rec(false, p)])
  {
    EncodeConcat(recs, [Rec(false, p)]);
    assert EncodeAll([Rec(false, p)]) == Encode(Rec(false, p)) + EncodeAll([Rec(false, p)][1..]);
    assert [MARK_UNSENT] + (p + [NEWLINE]) == Encode(Rec(false, p));
  }

  // ---------------------------------------------------------------- reading a whole file back

  /** The records of a file, line by line; a line with neither mark is none. */
  function Parse(file: seq<byte>, pos: nat): seq<Rec>
    decreases |file| - pos
  {
    if |file| <= pos then []
    else
      var e := NextLine(file, pos);
      if file[pos] == MARK_SENT || file[pos] == MARK_UNSENT then
        [Rec(file[pos] == MARK_SENT, if pos + 1 < e then file[pos + 1..e - 1] else [])] + Parse(file, e)
      else Parse(file, e)
  }

  lemma {:induction false} ParseFrom(recs: seq<Rec>, k: nat)
    requires AreRecords(recs) && k <= |recs|
    ensures Parse(EncodeAll(recs), Start(recs, k)) == recs[k..]
    decreases |recs| - k
  {
    if k == |recs| {
      StartBounds(recs, k);
    } else {
      NextRecord(recs, k);
      LineOf(recs, k);
      ParseLine(EncodeAll(recs), Start(recs, k), Start(recs, k + 1), recs[k]);
      ParseFrom(recs, k + 1);
      assert recs[k..] == [recs[k]] + recs[k + 1..];
    }
  }

  lemma ParseLine(file: seq<byte>, b: nat, e: nat, r: Rec)
    requires b < e <= |file| && NextLine(file, b) == e && file[b..e] == Encode(r)
    ensures Parse(file, b) == [r] + Parse(file, e)
  {
    LineParts(file, b, e, r);
    ParseStep(file, b, e, r);
  }

  /** The mark and the payload in a record's line. */
  lemma LineParts(file: seq<byte>, b: nat, e: nat, r: Rec)
    requires b < e <= |file| && file[b..e] == Encode(r)
    ensures b + 1 < e && file[b] == Mark(r.sent) && file[b + 1..e - 1] == r.payload
  {
    var line, n := file[b..e], |r.payload|;
    assert e - b == n + 2 && line[0] == file[b];
    forall i | 0 <= i < n
      ensures file[b + 1 + i] == r.payload[i]
    {
      assert line[1 + i] == file[b + 1 + i];
    }
  }

  lemma ParseStep(file: seq<byte>, b: nat, e: nat, r: Rec)
    requires b + 1 < e <= |file| && NextLine(file, b) == e
    requires file[b] == Mark(r.sent) && file[b + 1..e - 1] == r.payload
    ensures Parse(file, b) == [r] + Parse(file, e)
  {
  }

  /** Parsing gives the records back, so no two lists of records make the same file. */
  lemma ParseInverts(recs: seq<Rec>)
    requires AreRecords(recs)
    ensures Parse(EncodeAll(recs), 0) == recs
  {
    StartBounds(recs, 0);
    ParseFrom(recs, 0);
  }

  /** Parsing a marked file gives the old list with that one entry turned sent. */
  lemma MarkParses(recs: seq<Rec>, k: nat)
    requires AreRecords(recs) && k < |recs|
    ensures Start(recs, k) < |EncodeAll(recs)|
    ensures Parse(EncodeAll(recs)[Start(recs, k) := MARK_SENT], 0) == Sent(recs, k)
  {
    MarkingChangesOne(recs, k);
    ParseInverts(Sent(recs, k));
  }

  /** Parsing a file that has been put to gives the old list and the new record, unsent. */
  lemma PutParses(recs: seq<Rec>, p: seq<byte>)
    requires AreRecords(recs) && IsPayload(p)
    ensures Parse(EncodeAll(recs) + ([MARK_UNSENT] + (p + [NEWLINE])), 0) == recs + [Rec(false, p)]
  {
    AppendAdds(recs, p);
    ParseInverts(recs + [Rec(false, p)]);
  }

  // ---------------------------------------------------------------- what a reader hands on

  lemma {:induction false} NoNulKeepsAll(s: seq<byte>)
    requires forall i :: 0 <= i < |s| ==> s[i] != 0
    ensures UpToNul(s) == s
  {
    if s == [] {
    } else {
      NoNulKeepsAll(s[1..]);
    }
  }

  lemma {:induction false} StopsAtNul(s: seq<byte>)
    ensures UpToNul(s) <= s && 0 !in UpToNul(s) && (|UpToNul(s)| < |s| ==> s[|UpToNul(s)|] == 0)
  {
    if s == [] || s[0] == 0 {
    } else {
      StopsAtNul(s[1..]);
    }
  }

  /** The line as fgets leaves it, with its newline, from a number of bytes in. */
  lemma TodayText(r: Rec, skip: nat)
    requires IsPayload(r.payload) && 1 <= skip <= |r.payload| + 2
    ensures CString(Encode(r), skip) == (r.payload + [NEWLINE])[skip - 1..]
  {
    var line := Encode(r);
    if skip < |line| {
      assert line[skip..] == (r.payload + [NEWLINE])[skip - 1..];
      NoNulKeepsAll(line[skip..]);
    }
  }

  /** The line as getline leaves it, without its newline. */
  lemma PastText(r: Rec, skip: nat)
    requires IsPayload(r.payload) && 1 <= skip <= |r.payload| + 1
    ensures CString(Encode(r)[..|r.payload| + 1], skip) == r.payload[skip - 1..]
  {
    var line := Encode(r)[..|r.payload| + 1];
    if skip < |line| {
      assert line[skip..] == r.payload[skip - 1..];
      NoNulKeepsAll(line[skip..]);
    }
  }
}
