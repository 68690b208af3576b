/**
 The record log as a system: the gateway appends records to today's file while the retransmitter
 of rexmit/rexmit.cpp scans files, posts, marks and deletes, is killed at any point and started
 again, and the day changes. A state holds the bytes of every file; what was put, marked and
 acknowledged is recorded beside them, and neither the files nor the control ever depend on that
 record.
 */
module RexmitSystem {
  import opened Bytes
  import opened Options
  import opened PacketCodec
  import opened PacketFileMgr
  import opened LogFile

  /** A record is named by its day and its number among the records put on that day. */
  type Key = (Day, nat)

  /** An acknowledged post: which record it was, where its line was read, and what was posted. */
  datatype Ack = Ack(key: Key, begin: nat, text: seq<byte>)

  datatype Control =
    | Choosing
    | TodayNext
    | PastNext(name: Day, pos: nat)
    | Posting(past: bool, day: Day, begin: nat, end: nat, text: seq<byte>)
    | Posted(past: bool, day: Day, begin: nat, end: nat)
    | AllSent(name: Day)
    | Exited

  datatype State = State(
    files: Files, today: Day, control: Control,
    puts: map<Day, Payloads>, places: map<Day, seq<nat>>, marks: map<Day, nat>, acks: seq<Ack>,
    crashes: nat, missed: nat)

  datatype Step =
    | Put(p: seq<byte>)       // the gateway, at any time
    | PutFailed               // it cannot lock or write today's file, but has created it
    | Midnight(day: Day)
    | ChooseNone
    | ChooseToday
    | ChoosePast(name: Day)
    | ReadPast
    | ReadToday
    | PostUnanswered
    | PostAcked
    | Mark
    | MarkRefused             // today's file cannot be opened or locked; the loop ignores that
    | Delete
    | Failure                 // a directory or file that cannot be read, or a file that cannot be deleted
    | Crash
    | Restart

  function PutsOn(s: State, d: Day): Payloads {
    if d in s.puts then s.puts[d] else []
  }

  /** Where each of a day's records was appended. */
  function PlacesOn(s: State, d: Day): seq<nat> {
    if d in s.places then s.places[d] else []
  }

  function Count(marks: map<Day, nat>, d: Day): nat {
    if d in marks then marks[d] else 0
  }

  /** How many of a day's records have been marked. */
  function MarksOn(s: State, d: Day): nat {
    Count(s.marks, d)
  }

  predicate Enabled(s: State, step: Step) {
    match step
    case Put(p) => IsPayload(p)
    case PutFailed => true
    case Midnight(day) => s.today < day
    case ChooseNone => s.control.Choosing? && s.files == map[]
    case ChooseToday => s.control.Choosing? && s.files.Keys == {s.today}
    case ChoosePast(name) => s.control.Choosing? && name in s.files && name != s.today
    case ReadPast => s.control.PastNext? && s.control.name in s.files
    case ReadToday => s.control.TodayNext?
    case PostUnanswered => s.control.Posting?
    case PostAcked => s.control.Posting?
    case Mark => s.control.Posted? && (s.control.past ==> s.control.day in s.files)
    case MarkRefused => s.control.Posted? && !s.control.past
    case Delete => s.control.AllSent?
    case Failure => s.control.Choosing? || s.control.TodayNext? || s.control.PastNext? || s.control.AllSent?
    case Crash => true
    case Restart => s.control.Exited?
  }

  /** A line as the reader of a past file, or of today's, gets to see it. */
  function TextIn(file: seq<byte>, past: bool, b: nat, e: nat, skip: nat): seq<byte>
    requires b < e <= |file|
  {
    CString(file[b..if past then e - 1 else e], skip)
  }

  /** What reading a line leads to, from where the scan found it. */
  function Read(past: bool, day: Day, file: seq<byte>, pos: nat, skip: nat): Control {
    match FindUnsent(file, pos)
    case None => if past then AllSent(day) else Choosing
    case Some(b) =>
      var e := NextLine(file, b);
      var text := TextIn(file, past, b, e, skip);
      if text == [] then Choosing else Posting(past, day, b, e, text)
  }

  /** Where the mark goes: the open past file, or whatever file bears today's name by then. */
  function MarkedFiles(s: State): Files
    requires Enabled(s, Mark)
  {
    var day := if s.control.past then s.control.day else s.today;
    if day in s.files then s.files[day := Overwrite(s.files[day], s.control.begin, MARK_SENT)] else s.files
  }

  /** A record read as one of today's is still in hand after midnight. */
  predicate IsStale(s: State) {
    (s.control.Posting? || s.control.Posted?) && !s.control.past && s.control.day != s.today
  }

  /** And its mark is written then. */
  predicate IsLate(s: State) {
    s.control.Posted? && IsStale(s)
  }

  function Apply(s: State, step: Step, skip: nat): State
    requires Enabled(s, step)
  {
    match step
    case Put(p) =>
      s.(files := s.files[s.today := Content(s.files, s.today) + ([MARK_UNSENT] + (p + [NEWLINE]))],
         puts := s.puts[s.today := PutsOn(s, s.today) + [p]],
         places := s.places[s.today := PlacesOn(s, s.today) + [|Content(s.files, s.today)|]])
    case PutFailed => s.(files := s.files[s.today := Content(s.files, s.today)])
    case Midnight(day) => s.(today := day)
    case ChooseNone => s
    case ChooseToday => s.(control := TodayNext)
    case ChoosePast(name) => s.(control := PastNext(name, 0))
    case ReadPast => s.(control := Read(true, s.control.name, s.files[s.control.name], s.control.pos, skip))
    case ReadToday =>
      s.(control := if s.today in s.files then Read(false, s.today, s.files[s.today], 0, skip) else Exited)
    case PostUnanswered => s
    case PostAcked =>
      var c := s.control;
      s.(control := Posted(c.past, c.day, c.begin, c.end),
         acks := s.acks + [Ack((c.day, MarksOn(s, c.day)), c.begin, c.text)])
    case Mark =>
      var c := s.control;
      s.(files := MarkedFiles(s),
         control := if c.past then PastNext(c.day, c.end) else Choosing,
         marks := if IsLate(s) then s.marks else s.marks[c.day := MarksOn(s, c.day) + 1],
         missed := if IsLate(s) then s.missed + 1 else s.missed)
    case MarkRefused => s.(control := Choosing, missed := s.missed + 1)
    case Delete => s.(files := s.files - {s.control.name}, control := Choosing)
    case Failure => s.(control := if s.control.Choosing? || s.control.TodayNext? then Exited else Choosing)
    case Crash => s.(control := Choosing, crashes := s.crashes + 1)
    case Restart => s.(control := Choosing)
  }

  ghost predicate Initial(s: State) {
    && s.files == map[] && s.puts == map[] && s.places == map[] && s.marks == map[] && s.acks == []
    && s.control.Choosing? && s.crashes == s.missed == 0
  }

  // ---------------------------------------------------------------- what is to hold

  function Keys(acks: seq<Ack>): set<Key> {
    set a | a in acks :: a.key
  }

  ghost predicate Acked(s: State, d: Day, i: nat) {
    (d, i) in Keys(s.acks)
  }

  /** A day's file is nothing but the lines of what was put on it, and a line marked sent was acknowledged. */
  ghost predicate Shows(s: State, d: Day, recs: seq<Rec>)
    requires d in s.files
  {
    && s.files[d] == EncodeAll(recs) && |recs| == |PutsOn(s, d)|
    && forall i :: 0 <= i < |recs| ==> recs[i].payload == PutsOn(s, d)[i] && (recs[i].sent ==> Acked(s, d, i))
  }

  /** Every file has that form, and of every file that is gone everything was acknowledged. */
  ghost predicate OnlyRecords(s: State) {
    forall d: Day ::
      if d in s.files then exists recs :: Shows(s, d, recs)
      else forall i :: 0 <= i < |PutsOn(s, d)| ==> Acked(s, d, i)
  }

  /** A record is kept: it was acknowledged, or it can still be read. */
  ghost predicate Kept(s: State, d: Day, i: nat, skip: nat)
    requires i < |PutsOn(s, d)|
  {
    || Acked(s, d, i)
    || (d in s.files && i < |PlacesOn(s, d)| && Readable(s.files[d], PlacesOn(s, d)[i], PutsOn(s, d)[i], skip))
  }

  ghost predicate NothingLost(s: State, skip: nat) {
    forall d: Day, i: nat :: i < |PutsOn(s, d)| ==> Kept(s, d, i, skip)
  }

  /** A late mark changes nothing if there is no file yet, or already that byte at that place. */
  predicate Harmless(s: State, step: Step) {
    step == Mark && IsLate(s) ==>
      s.today in s.files ==>
        s.control.begin < |s.files[s.today]| && s.files[s.today][s.control.begin] == MARK_SENT
  }

  // ---------------------------------------------------------------- the invariant

  ghost predicate DayOk(files: Files, today: Day, ps: Payloads, m: nat, keys: set<Key>, d: Day) {
    && m <= |ps| && ArePayloads(ps)
    && (if d in files then d <= today && files[d] == FileOf(ps, m) else m == |ps| && (today <= d ==> ps == []))
    && forall i :: 0 <= i < m ==> (d, i) in keys
  }

  ghost predicate DayInv(s: State, d: Day) {
    DayOk(s.files, s.today, PutsOn(s, d), MarksOn(s, d), Keys(s.acks), d)
  }

  /** Every record was appended where its line starts among the lines of its day. */
  ghost predicate PlacesOk(places: seq<nat>, ps: Payloads) {
    |places| == |ps| && forall i :: 0 <= i < |ps| ==> places[i] == Offset(ps, i)
  }

  ghost predicate PlacesInv(s: State) {
    forall d: Day {:trigger PlacesOk(PlacesOn(s, d), PutsOn(s, d))} :: PlacesOk(PlacesOn(s, d), PutsOn(s, d))
  }

  ghost predicate DaysInv(s: State) {
    forall d: Day {:trigger DayInv(s, d)} :: DayInv(s, d)
  }

  /** The record being handled is the first of its day that is not marked, and lies where it was read. */
  ghost predicate Holding(s: State, past: bool, d: Day, begin: nat, end: nat) {
    var ps, m := PutsOn(s, d), MarksOn(s, d);
    && d in s.files && m < |ps|
    && begin == Offset(ps, m) && end == Offset(ps, m + 1)
    && (if past then d < s.today else d <= s.today && forall a :: a in s.acks ==> a.key.0 <= d)
  }

  ghost predicate ControlInv(s: State, skip: nat) {
    match s.control
    case PastNext(d, pos) =>
      && d in s.files && d < s.today
      && (pos == 0 || (MarksOn(s, d) <= |PutsOn(s, d)| && pos == Offset(PutsOn(s, d), MarksOn(s, d))))
    case Posting(past, d, begin, end, text) =>
      Holding(s, past, d, begin, end) && text == TextOf(past, PutsOn(s, d)[MarksOn(s, d)], skip) != []
    case Posted(past, d, begin, end) =>
      && Holding(s, past, d, begin, end) && Acked(s, d, MarksOn(s, d))
      && TextOf(past, PutsOn(s, d)[MarksOn(s, d)], skip) != []
    case AllSent(d) =>
      d in s.files && d < s.today && MarksOn(s, d) == |PutsOn(s, d)|
    case _ => true
  }

  /** What was acknowledged is what was put, and none of it lies behind the first unmarked record. */
  ghost predicate AckOk(a: Ack, today: Day, ps: Payloads, m: nat, skip: nat) {
    && a.key.0 <= today && a.key.1 <= m && a.key.1 < |ps|
    && a.begin == Offset(ps, a.key.1) && a.text != []
    && (a.text == TextOf(true, ps[a.key.1], skip) || a.text == TextOf(false, ps[a.key.1], skip))
  }

  ghost predicate AckInv(s: State, a: Ack, skip: nat) {
    AckOk(a, s.today, PutsOn(s, a.key.0), MarksOn(s, a.key.0), skip)
  }

  ghost predicate AcksInv(s: State, skip: nat) {
    forall a {:trigger AckInv(s, a, skip)} :: a in s.acks ==> AckInv(s, a, skip)
  }

  ghost predicate InOrder(acks: seq<Ack>) {
    forall x, y :: 0 <= x < y < |acks| && acks[x].key.0 == acks[y].key.0 ==> acks[x].key.1 <= acks[y].key.1
  }

  /** The record whose mark is about to be written. */
  function Window(s: State): set<Key> {
    if s.control.Posted? then {(s.control.day, MarksOn(s, s.control.day))} else {}
  }

  /** Records acknowledged but not marked, and not about to be: they will be posted again. */
  function Unmarked(keys: set<Key>, marks: map<Day, nat>, window: set<Key>): set<Key> {
    set k | k in keys && k.1 == Count(marks, k.0) && k !in window
  }

  function Pending(s: State): set<Key> {
    Unmarked(Keys(s.acks), s.marks, Window(s))
  }

  /** Every post beyond the first of a record, made or still to come, is paid for by a mark that was not written. */
  ghost predicate Paid(s: State) {
    |s.acks| + |Pending(s)| <= |Keys(s.acks)| + s.crashes + s.missed
  }

  ghost predicate Inv(s: State, skip: nat) {
    DaysInv(s) && PlacesInv(s) && AcksInv(s, skip) && ControlInv(s, skip) && InOrder(s.acks) && Paid(s)
  }

  // ---------------------------------------------------------------- what a step leaves alone

  /** Files, puts and marks stay, acknowledgements are added, time passes. */
  lemma DaysStay(s: State, s': State)
    requires DaysInv(s)
    requires s'.files == s.files && s'.puts == s.puts && s'.marks == s.marks
    requires s.today <= s'.today && Keys(s.acks) <= Keys(s'.acks)
    ensures DaysInv(s')
  {
    forall d: Day
      ensures DayInv(s', d)
    {
      assert DayInv(s, d);
    }
  }

  /** More is put and marked. */
  lemma AcksStay(s: State, s': State, skip: nat)
    requires AcksInv(s, skip) && s'.acks == s.acks && s.today <= s'.today
    requires forall d: Day :: PutsOn(s, d) <= PutsOn(s', d) && MarksOn(s, d) <= MarksOn(s', d)
    ensures AcksInv(s', skip)
  {
    forall a | a in s'.acks
      ensures AckInv(s', a, skip)
    {
      assert AckInv(s, a, skip);
      OffsetOfPrefix(PutsOn(s, a.key.0), PutsOn(s', a.key.0), a.key.1);
    }
  }

  lemma PlacesStay(s: State, s': State)
    requires PlacesInv(s) && s'.puts == s.puts && s'.places == s.places
    ensures PlacesInv(s')
  {
    forall d: Day
      ensures PlacesOk(PlacesOn(s', d), PutsOn(s', d))
    {
      assert PlacesOk(PlacesOn(s, d), PutsOn(s, d));
    }
  }

  lemma PaidStays(s: State, s': State)
    requires Paid(s) && s'.acks == s.acks && s'.marks == s.marks && s'.crashes == s.crashes && s'.missed == s.missed
    requires s'.control == s.control || (!s.control.Posted? && !s'.control.Posted?)
    ensures Paid(s')
  {
  }

  lemma InitialInv(s: State, skip: nat)
    requires Initial(s)
    ensures Inv(s, skip)
  {
    assert Keys(s.acks) == {} && Pending(s) == {};
  }

  /** Nothing but the control changes, to a place where no mark is due. */
  lemma ControlMoves(s: State, c: Control, skip: nat)
    requires Inv(s, skip) && !s.control.Posted? && !c.Posted? && ControlInv(s.(control := c), skip)
    ensures Inv(s.(control := c), skip)
  {
    var s' := s.(control := c);
    PaidStays(s, s');
    DaysStay(s, s');
    AcksStay(s, s', skip);
    PlacesStay(s, s');
  }

  // ---------------------------------------------------------------- each step keeps the invariant

  lemma AckedByNow(s: State, skip: nat)
    requires AcksInv(s, skip)
    ensures forall a :: a in s.acks ==> a.key.0 <= s.today
  {
    forall a | a in s.acks
      ensures a.key.0 <= s.today
    {
      assert AckInv(s, a, skip);
    }
  }

  lemma ReadFinds(s: State, past: bool, d: Day, pos: nat, skip: nat)
    requires 1 <= skip && DaysInv(s) && AcksInv(s, skip) && d in s.files
    requires pos == 0 || (MarksOn(s, d) <= |PutsOn(s, d)| && pos == Offset(PutsOn(s, d), MarksOn(s, d)))
    requires if past then d < s.today else d == s.today
    ensures ControlInv(s.(control := Read(past, d, s.files[d], pos, skip)), skip)
  {
    assert DayInv(s, d);
    AckedByNow(s, skip);
    ReadOf(PutsOn(s, d), MarksOn(s, d), past, d, pos, skip);
  }

  /** Reading on comes to the first record not marked, or to the end. */
  lemma ReadOf(ps: Payloads, m: nat, past: bool, d: Day, pos: nat, skip: nat)
    requires 1 <= skip && ArePayloads(ps) && m <= |ps| && (pos == 0 || pos == Offset(ps, m))
    ensures Read(past, d, FileOf(ps, m), pos, skip) ==
            if m == |ps| then (if past then AllSent(d) else Choosing)
            else if TextOf(past, ps[m], skip) == [] then Choosing
            else Posting(past, d, Offset(ps, m), Offset(ps, m + 1), TextOf(past, ps[m], skip))
  {
    ScanOn(ps, m, pos);
    if m < |ps| {
      LineRead(ps, m, past, skip);
      ReadLine(FileOf(ps, m), past, d, pos, skip, Offset(ps, m), Offset(ps, m + 1), TextOf(past, ps[m], skip));
    } else {
      ReadToEnd(FileOf(ps, m), past, d, pos, skip);
    }
  }

  lemma ScanOn(ps: Payloads, m: nat, pos: nat)
    requires ArePayloads(ps) && m <= |ps| && (pos == 0 || pos == Offset(ps, m))
    ensures FindUnsent(FileOf(ps, m), pos) == if m < |ps| then Some(Offset(ps, m)) else None
  {
    ScanFrom(ps, m, 0);
    ScanFrom(ps, m, m);
  }

  lemma LineRead(ps: Payloads, m: nat, past: bool, skip: nat)
    requires 1 <= skip && ArePayloads(ps) && m < |ps|
    ensures var file, b, e := FileOf(ps, m), Offset(ps, m), Offset(ps, m + 1);
            b < e <= |file| && NextLine(file, b) == e && TextIn(file, past, b, e, skip) == TextOf(past, ps[m], skip)
  {
    LineOfRecord(ps, m, m);
    TextsOfRecord(ps, m, m, skip);
    TextHanded(FileOf(ps, m), past, Offset(ps, m), Offset(ps, m + 1), ps[m], skip);
  }

  lemma TextHanded(file: seq<byte>, past: bool, b: nat, e: nat, p: seq<byte>, skip: nat)
    requires HandsTexts(file, b, e, p, skip)
    ensures b < e <= |file| && TextIn(file, past, b, e, skip) == TextOf(past, p, skip)
  {
  }

  lemma ReadLine(file: seq<byte>, past: bool, d: Day, pos: nat, skip: nat, b: nat, e: nat, text: seq<byte>)
    requires FindUnsent(file, pos) == Some(b) && b < e <= |file| && NextLine(file, b) == e
    requires TextIn(file, past, b, e, skip) == text
    ensures Read(past, d, file, pos, skip) == if text == [] then Choosing else Posting(past, d, b, e, text)
  {
  }

  lemma ReadToEnd(file: seq<byte>, past: bool, d: Day, pos: nat, skip: nat)
    requires FindUnsent(file, pos) == None
    ensures Read(past, d, file, pos, skip) == if past then AllSent(d) else Choosing
  {
  }

  lemma PutDays(s: State, p: seq<byte>, skip: nat)
    requires DaysInv(s) && IsPayload(p)
    ensures DaysInv(Apply(s, Put(p), skip))
  {
    var s' := Apply(s, Put(p), skip);
    forall d: Day
      ensures DayInv(s', d)
    {
      assert DayInv(s, d);
      if d == s.today {
        Appended(PutsOn(s, d), MarksOn(s, d), p);
      }
    }
  }

  /** A put appends where the day's lines end. */
  lemma PutPlaces(s: State, p: seq<byte>, skip: nat)
    requires DaysInv(s) && PlacesInv(s) && IsPayload(p)
    ensures PlacesInv(Apply(s, Put(p), skip))
  {
    var s' := Apply(s, Put(p), skip);
    forall d: Day
      ensures PlacesOk(PlacesOn(s', d), PutsOn(s', d))
    {
      assert PlacesOk(PlacesOn(s, d), PutsOn(s, d));
      if d == s.today {
        assert DayInv(s, d);
        FileLength(PutsOn(s, d), MarksOn(s, d));
        OnePlaceMore(PlacesOn(s, d), PutsOn(s, d), p, |Content(s.files, d)|);
      }
    }
  }

  lemma OnePlaceMore(places: seq<nat>, ps: Payloads, p: seq<byte>, at: nat)
    requires PlacesOk(places, ps) && at == Offset(ps, |ps|)
    ensures PlacesOk(places + [at], ps + [p])
  {
    forall i | 0 <= i < |ps| + 1
      ensures (places + [at])[i] == Offset(ps + [p], i)
    {
      OffsetStable(ps, [p], i);
    }
  }

  /** An append moves nothing that was found before. */
  lemma PutControl(s: State, p: seq<byte>, skip: nat)
    requires ControlInv(s, skip) && IsPayload(p)
    ensures ControlInv(Apply(s, Put(p), skip), skip)
  {
    if (s.control.Posting? || s.control.Posted?) && s.control.day == s.today {
      OffsetStable(PutsOn(s, s.today), [p], MarksOn(s, s.today));
      OffsetStable(PutsOn(s, s.today), [p], MarksOn(s, s.today) + 1);
    }
  }

  lemma PutKeeps(s: State, p: seq<byte>, skip: nat)
    requires Inv(s, skip) && IsPayload(p)
    ensures Inv(Apply(s, Put(p), skip), skip)
  {
    var s' := Apply(s, Put(p), skip);
    PaidStays(s, s');
    PutDays(s, p, skip);
    PutPlaces(s, p, skip);
    AcksStay(s, s', skip);
    PutControl(s, p, skip);
  }

  lemma PutFailedDays(s: State, skip: nat)
    requires DaysInv(s)
    ensures DaysInv(Apply(s, PutFailed, skip))
  {
    var s' := Apply(s, PutFailed, skip);
    forall d: Day
      ensures DayInv(s', d)
    {
      assert DayInv(s, d);
      assert FileOf([], 0) == [];
    }
  }

  lemma PutFailedKeeps(s: State, skip: nat)
    requires Inv(s, skip)
    ensures Inv(Apply(s, PutFailed, skip), skip)
  {
    var s' := Apply(s, PutFailed, skip);
    PaidStays(s, s');
    PutFailedDays(s, skip);
    AcksStay(s, s', skip);
    PlacesStay(s, s');
  }

  lemma MidnightKeeps(s: State, day: Day, skip: nat)
    requires Inv(s, skip) && s.today < day
    ensures Inv(Apply(s, Midnight(day), skip), skip)
  {
    var s' := Apply(s, Midnight(day), skip);
    PaidStays(s, s');
    DaysStay(s, s');
    AcksStay(s, s', skip);
    PlacesStay(s, s');
    MidnightControl(s, day, skip);
  }

  lemma MidnightControl(s: State, day: Day, skip: nat)
    requires ControlInv(s, skip) && s.today < day
    ensures ControlInv(s.(today := day), skip)
  {
  }

  lemma KeysOfOneMore(acks: seq<Ack>, a: Ack)
    ensures Keys(acks + [a]) == Keys(acks) + {a.key}
  {
    assert forall x :: x in acks + [a] <==> x in acks || x == a;
  }

  lemma UnmarkedAfterAck(keys: set<Key>, marks: map<Day, nat>, key: Key)
    requires key.1 == Count(marks, key.0)
    ensures |Unmarked(keys + {key}, marks, {key})| == |Unmarked(keys, marks, {})| - if key in keys then 1 else 0
  {
    assert Unmarked(keys + {key}, marks, {key}) == Unmarked(keys, marks, {}) - {key};
  }

  lemma AckPaid(s: State, s': State, key: Key)
    requires Paid(s) && s.control.Posting? && Window(s') == {key}
    requires s'.marks == s.marks && key.1 == Count(s.marks, key.0)
    requires |s'.acks| == |s.acks| + 1 && Keys(s'.acks) == Keys(s.acks) + {key}
    requires s'.crashes == s.crashes && s'.missed == s.missed
    ensures Paid(s')
  {
    UnmarkedAfterAck(Keys(s.acks), s.marks, key);
    if key in Keys(s.acks) {
      assert Keys(s'.acks) == Keys(s.acks);
    }
  }

  lemma AckAcks(s: State, a: Ack, s': State, skip: nat)
    requires AcksInv(s, skip) && AckInv(s, a, skip) && InOrder(s.acks) && a.key.1 == MarksOn(s, a.key.0)
    requires s'.acks == s.acks + [a] && s'.today == s.today && s'.puts == s.puts && s'.marks == s.marks
    ensures AcksInv(s', skip) && InOrder(s'.acks)
  {
    forall x | x in s'.acks
      ensures AckInv(s', x, skip)
    {
      assert x == a || AckInv(s, x, skip);
    }
    forall x | 0 <= x < |s.acks| && s.acks[x].key.0 == a.key.0
      ensures s.acks[x].key.1 <= a.key.1
    {
      assert AckInv(s, s.acks[x], skip);
    }
  }

  lemma AckKeeps(s: State, skip: nat)
    requires Inv(s, skip) && s.control.Posting?
    ensures Inv(Apply(s, PostAcked, skip), skip)
  {
    var s' := Apply(s, PostAcked, skip);
    var key := (s.control.day, MarksOn(s, s.control.day));
    var a := Ack(key, s.control.begin, s.control.text);
    KeysOfOneMore(s.acks, a);
    AckPaid(s, s', key);
    AckAcks(s, a, s', skip);
    DaysStay(s, s');
    PlacesStay(s, s');
  }

  lemma MarkDay(s: State, skip: nat)
    requires s.control.Posted? && !IsLate(s) && DayInv(s, s.control.day) && ControlInv(s, skip)
    ensures DayInv(Apply(s, Mark, skip), s.control.day)
  {
    Marked(PutsOn(s, s.control.day), MarksOn(s, s.control.day));
  }

  lemma MarkDays(s: State, skip: nat)
    requires DaysInv(s) && ControlInv(s, skip) && s.control.Posted? && !IsLate(s)
    ensures DaysInv(Apply(s, Mark, skip))
  {
    forall d: Day
      ensures DayInv(Apply(s, Mark, skip), d)
    {
      assert DayInv(s, d);
      if d == s.control.day {
        MarkDay(s, skip);
      }
    }
  }

  lemma KeysBehind(s: State, skip: nat)
    requires AcksInv(s, skip)
    ensures forall k :: k in Keys(s.acks) ==> k.1 <= MarksOn(s, k.0)
  {
    forall k | k in Keys(s.acks)
      ensures k.1 <= MarksOn(s, k.0)
    {
      var a :| a in s.acks && a.key == k;
      assert AckInv(s, a, skip);
    }
  }

  lemma UnmarkedAfterMark(keys: set<Key>, marks: map<Day, nat>, d: Day)
    requires forall k :: k in keys ==> k.1 <= Count(marks, k.0)
    ensures Unmarked(keys, marks[d := Count(marks, d) + 1], {}) == Unmarked(keys, marks, {(d, Count(marks, d))})
  {
  }

  lemma MarkPaid(s: State, s': State, d: Day)
    requires Paid(s) && Window(s) == {(d, Count(s.marks, d))} && Window(s') == {}
    requires forall k :: k in Keys(s.acks) ==> k.1 <= Count(s.marks, k.0)
    requires s'.acks == s.acks && s'.marks == s.marks[d := Count(s.marks, d) + 1]
    requires s'.crashes == s.crashes && s'.missed == s.missed
    ensures Paid(s')
  {
    UnmarkedAfterMark(Keys(s.acks), s.marks, d);
  }

  lemma MarkPays(s: State, skip: nat)
    requires AcksInv(s, skip) && Paid(s) && s.control.Posted? && s.control.day in s.files && !IsLate(s)
    ensures Paid(Apply(s, Mark, skip))
  {
    KeysBehind(s, skip);
    MarkPaid(s, Apply(s, Mark, skip), s.control.day);
  }

  /** The stream goes on behind the record marked. */
  lemma MarkControl(s: State, skip: nat)
    requires ControlInv(s, skip) && s.control.Posted? && !IsLate(s)
    ensures ControlInv(Apply(s, Mark, skip), skip)
  {
  }

  lemma MarkKeeps(s: State, skip: nat)
    requires Inv(s, skip) && s.control.Posted? && !IsLate(s)
    ensures Inv(Apply(s, Mark, skip), skip)
  {
    MarkDays(s, skip);
    MarkPays(s, skip);
    MarkControl(s, skip);
    AcksStay(s, Apply(s, Mark, skip), skip);
    PlacesStay(s, Apply(s, Mark, skip));
  }

  lemma UnmarkedReleased(keys: set<Key>, marks: map<Day, nat>, window: set<Key>)
    ensures |Unmarked(keys, marks, {})| <= |Unmarked(keys, marks, window)| + |window|
  {
    var some, all := Unmarked(keys, marks, window), Unmarked(keys, marks, {});
    assert all == some + (all - some) && all - some <= window;
    SmallerSet(all - some, window);
  }

  lemma SmallerSet(a: set<Key>, b: set<Key>)
    requires a <= b
    ensures |a| <= |b|
  {
    assert b == a + (b - a);
  }

  lemma GivesUpPaid(s: State, s': State)
    requires Paid(s) && s'.acks == s.acks && s'.marks == s.marks && Window(s') == {}
    requires s'.crashes + s'.missed == s.crashes + s.missed + 1
    ensures Paid(s')
  {
    UnmarkedReleased(Keys(s.acks), s.marks, Window(s));
  }

  /** The control goes back to choosing with a mark possibly not written, which is counted. */
  lemma GivesUp(s: State, s': State, skip: nat)
    requires Inv(s, skip)
    requires s' == s.(control := Choosing, crashes := s'.crashes, missed := s'.missed)
    requires s'.crashes + s'.missed == s.crashes + s.missed + 1
    ensures Inv(s', skip)
  {
    GivesUpPaid(s, s');
    DaysStay(s, s');
    AcksStay(s, s', skip);
    PlacesStay(s, s');
  }

  lemma DeleteKeeps(s: State, skip: nat)
    requires Inv(s, skip) && s.control.AllSent?
    ensures Inv(Apply(s, Delete, skip), skip)
  {
    var s' := Apply(s, Delete, skip);
    PaidStays(s, s');
    forall d: Day
      ensures DayInv(s', d)
    {
      assert DayInv(s, d);
    }
    AcksStay(s, s', skip);
    PlacesStay(s, s');
  }

  lemma ReadKeeps(s: State, step: Step, skip: nat)
    requires 1 <= skip && Inv(s, skip) && (step == ReadPast || step == ReadToday) && Enabled(s, step)
    ensures Inv(Apply(s, step, skip), skip)
  {
    if step == ReadPast {
      ReadFinds(s, true, s.control.name, s.control.pos, skip);
    } else if s.today in s.files {
      ReadFinds(s, false, s.today, 0, skip);
    }
    ControlMoves(s, Apply(s, step, skip).control, skip);
  }

  lemma LateMarkKeeps(s: State, skip: nat)
    requires Inv(s, skip) && IsLate(s) && Harmless(s, Mark)
    ensures Inv(Apply(s, Mark, skip), skip)
  {
    if s.today in s.files {
      var f, b := s.files[s.today], s.control.begin;
      assert f[b := MARK_SENT] == f;
      assert s.files[s.today := f] == s.files;
    }
    GivesUp(s, Apply(s, Mark, skip), skip);
  }

  lemma MoveKeeps(s: State, step: Step, skip: nat)
    requires Inv(s, skip) && Enabled(s, step)
    requires
      || step.ChooseNone? || step.ChooseToday? || step.ChoosePast?
      || step.PostUnanswered? || step.Failure? || step.Restart?
    ensures Inv(Apply(s, step, skip), skip)
  {
    if step.ChoosePast? {
      assert DayInv(s, step.name);
    }
    if !step.ChooseNone? && !step.PostUnanswered? {
      ControlMoves(s, Apply(s, step, skip).control, skip);
    }
  }

  /** Whatever happens next, other than a harmful late mark, the invariant stays. */
  lemma StepKeeps(s: State, step: Step, skip: nat)
    requires 1 <= skip && Inv(s, skip) && Enabled(s, step) && Harmless(s, step)
    ensures Inv(Apply(s, step, skip), skip)
  {
    match step
    case Put(p) => PutKeeps(s, p, skip);
    case PutFailed => PutFailedKeeps(s, skip);
    case Midnight(day) => MidnightKeeps(s, day, skip);
    case ReadPast => ReadKeeps(s, step, skip);
    case ReadToday => ReadKeeps(s, step, skip);
    case PostAcked => AckKeeps(s, skip);
    case Mark => if IsLate(s) { LateMarkKeeps(s, skip); } else { MarkKeeps(s, skip); }
    case Crash => GivesUp(s, Apply(s, step, skip), skip);
    case MarkRefused => GivesUp(s, Apply(s, step, skip), skip);
    case Delete => DeleteKeeps(s, skip);
    case _ => MoveKeeps(s, step, skip);
  }

  // ---------------------------------------------------------------- over whole runs

  ghost predicate IsRun(states: seq<State>, steps: seq<Step>, skip: nat) {
    && |states| == |steps| + 1 && Initial(states[0])
    && forall i :: 0 <= i < |steps| ==>
         Enabled(states[i], steps[i]) && states[i + 1] == Apply(states[i], steps[i], skip)
  }

  /** No mark of the run is written after midnight into another day's file and changes it. */
  ghost predicate NoHarm(states: seq<State>, steps: seq<Step>)
    requires |steps| <= |states|
  {
    forall i :: 0 <= i < |steps| ==> Harmless(states[i], steps[i])
  }

  lemma {:induction false} RunInv(states: seq<State>, steps: seq<Step>, n: nat, skip: nat)
    requires 1 <= skip && IsRun(states, steps, skip) && NoHarm(states, steps) && n <= |steps|
    ensures Inv(states[n], skip)
    decreases n
  {
    if n == 0 {
      InitialInv(states[0], skip);
    } else {
      RunInv(states, steps, n - 1, skip);
      StepKeeps(states[n - 1], steps[n - 1], skip);
    }
  }

  lemma DayShows(s: State, d: Day)
    requires DayInv(s, d)
    ensures if d in s.files then Shows(s, d, Recs(PutsOn(s, d), MarksOn(s, d)))
            else forall i :: 0 <= i < |PutsOn(s, d)| ==> Acked(s, d, i)
  {
  }

  /**
   Every record ever put was acknowledged, or can still be read where it was put; and the files hold
   nothing but lines of records.
   */
  lemma NoRecordLost(states: seq<State>, steps: seq<Step>, n: nat, skip: nat)
    requires 1 <= skip && IsRun(states, steps, skip) && NoHarm(states, steps) && n <= |steps|
    ensures NothingLost(states[n], skip) && OnlyRecords(states[n])
  {
    RunInv(states, steps, n, skip);
    DaysShow(states[n]);
    DaysKept(states[n], skip);
  }

  lemma DaysKept(s: State, skip: nat)
    requires 1 <= skip && DaysInv(s) && PlacesInv(s)
    ensures NothingLost(s, skip)
  {
    forall d: Day, i: nat | i < |PutsOn(s, d)|
      ensures Kept(s, d, i, skip)
    {
      assert DayInv(s, d);
      if MarksOn(s, d) <= i {
        assert PlacesOk(PlacesOn(s, d), PutsOn(s, d));
        RecordReadable(PutsOn(s, d), MarksOn(s, d), i, skip);
      }
    }
  }

  lemma DaysShow(s: State)
    requires DaysInv(s)
    ensures OnlyRecords(s)
  {
    forall d: Day
      ensures if d in s.files then exists recs :: Shows(s, d, recs)
              else forall i :: 0 <= i < |PutsOn(s, d)| ==> Acked(s, d, i)
    {
      assert DayInv(s, d);
      DayShows(s, d);
    }
  }

  lemma {:induction false} DistinctKeys(acks: seq<Ack>)
    ensures |Keys(acks)| <= |acks|
    ensures |Keys(acks)| == |acks| ==> forall x, y :: 0 <= x < y < |acks| ==> acks[x].key != acks[y].key
  {
    if acks == [] {
      assert Keys(acks) == {};
    } else {
      var n := |acks| - 1;
      assert acks == acks[..n] + [acks[n]];
      KeysOfOneMore(acks[..n], acks[n]);
      DistinctKeys(acks[..n]);
      LastIsNew(acks, n);
    }
  }

  lemma LastIsNew(acks: seq<Ack>, n: nat)
    requires |acks| == n + 1 && Keys(acks) == Keys(acks[..n]) + {acks[n].key}
    ensures |Keys(acks)| <= |Keys(acks[..n])| + 1
    ensures |Keys(acks)| == |Keys(acks[..n])| + 1 ==> forall x :: 0 <= x < n ==> acks[x].key != acks[n].key
  {
    if acks[n].key in Keys(acks[..n]) {
      assert Keys(acks) == Keys(acks[..n]);
    } else {
      forall x | 0 <= x < n
        ensures acks[x].key != acks[n].key
      {
        assert acks[..n][x] in acks[..n];
        assert acks[x].key in Keys(acks[..n]);
      }
    }
  }

  /** A record is acknowledged a second time only for a mark that a crash or a missed file swallowed. */
  lemma DuplicatesPaid(states: seq<State>, steps: seq<Step>, n: nat, skip: nat)
    requires 1 <= skip && IsRun(states, steps, skip) && NoHarm(states, steps) && n <= |steps|
    ensures var s := states[n];
            && |s.acks| <= |Keys(s.acks)| + s.crashes + s.missed
            && (s.crashes == s.missed == 0 ==>
                  forall x, y :: 0 <= x < y < |s.acks| ==> s.acks[x].key != s.acks[y].key)
  {
    RunInv(states, steps, n, skip);
    DistinctKeys(states[n].acks);
  }

  /** What was acknowledged of a day is what was put, from the first record on, in order and without a gap. */
  lemma DeliveredInOrder(states: seq<State>, steps: seq<Step>, n: nat, skip: nat, x: nat)
    requires 1 <= skip && IsRun(states, steps, skip) && NoHarm(states, steps) && n <= |steps|
    requires x < |states[n].acks|
    ensures var s := states[n]; var (d, i) := s.acks[x].key; var text := s.acks[x].text;
            && i < |PutsOn(s, d)| && s.acks[x].begin == Offset(PutsOn(s, d), i)
            && (text == TextOf(true, PutsOn(s, d)[i], skip) || text == TextOf(false, PutsOn(s, d)[i], skip))
            && (forall j :: 0 <= j < i ==> Acked(s, d, j))
            && (forall y :: 0 <= y < x && s.acks[y].key.0 == d ==> s.acks[y].key.1 <= i)
  {
    var s := states[n];
    RunInv(states, steps, n, skip);
    assert AckInv(s, s.acks[x], skip);
    assert DayInv(s, s.acks[x].key.0);
  }

  /** A file disappears only in a deletion, on a later day, with all that was put on it acknowledged. */
  lemma DeletedOnlyWhenAcknowledged(states: seq<State>, steps: seq<Step>, n: nat, skip: nat, d: Day)
    requires 1 <= skip && IsRun(states, steps, skip) && NoHarm(states, steps) && n < |steps|
    requires d in states[n].files && d !in states[n + 1].files
    ensures steps[n] == Delete && d < states[n].today
    ensures forall i :: 0 <= i < |PutsOn(states[n], d)| ==> Acked(states[n], d, i)
  {
    RunInv(states, steps, n, skip);
    assert DayInv(states[n], d);
  }
}
