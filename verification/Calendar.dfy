/**
 Weekly collection plans: the seven-bit day mask of timerlist/timer.cpp and the next-occurrence
 arithmetic on an ideal clock that counts seconds from the midnight that begins some Sunday.
 */
module Calendar {
  import opened Bytes
  import opened Words

  /** The day an instant falls on, the second of that day, and the length of some days. */
  function DayOf(t: nat): nat {
    t / 86400
  }

  function SecondOf(t: nat): (s: nat)
    ensures s < 86400
  {
    t % 86400
  }

  function Days(n: nat): nat {
    n * 86400
  }

  lemma DaySplit(t: nat)
    ensures t == Days(DayOf(t)) + SecondOf(t)
  {
  }

  lemma DayJoin(day: nat, sec: nat)
    requires sec < 86400
    ensures DayOf(Days(day) + sec) == day && SecondOf(Days(day) + sec) == sec
  {
  }

  /** Bit i of a number. */
  function BitOf(n: nat, i: nat): bool
    decreases i
  {
    if i == 0 then n % 2 == 1 else BitOf(n / 2, i - 1)
  }

  /** The test mask & (1 << i). */
  lemma {:induction false} AndBit(n: nat, i: nat)
    ensures And(n, Pow2(i)) != 0 <==> BitOf(n, i)
    decreases i
  {
    Pow2Positive(i);
    if i == 0 {
    } else {
      AndBit(n / 2, i - 1);
    }
  }

  // ---------------------------------------------------------------- the mask

  type mask = m: int | 0 <= m < 128

  /** Bit 0 of a plan's mask is Monday and bit 6 Sunday; the C library counts days from Sunday. */
  predicate OnWeekday(m: mask, wday: nat)
  {
    BitOf(m, (wday + 6) % 7)
  }

  lemma {:induction false} BitByDivision(n: nat, i: nat)
    ensures 0 < Pow2(i) && (BitOf(n, i) <==> n / Pow2(i) % 2 == 1)
    decreases i
  {
    if i == 0 {
    } else {
      BitByDivision(n / 2, i - 1);
      DivTwice(n, Pow2(i - 1));
    }
  }

  /** Monday is 1, Tuesday 2, and so on up to Sunday, which is 64. */
  lemma WeekdayValues(m: mask)
    ensures OnWeekday(m, 1) <==> m % 2 == 1
    ensures OnWeekday(m, 2) <==> m / 2 % 2 == 1
    ensures OnWeekday(m, 3) <==> m / 4 % 2 == 1
    ensures OnWeekday(m, 4) <==> m / 8 % 2 == 1
    ensures OnWeekday(m, 5) <==> m / 16 % 2 == 1
    ensures OnWeekday(m, 6) <==> m / 32 % 2 == 1
    ensures OnWeekday(m, 0) <==> m / 64 == 1
  {
    assert Pow2(1) == 2 && Pow2(2) == 4 && Pow2(4) == 16;
    assert Pow2(3) == 8 && Pow2(5) == 32;
    assert Pow2(6) == 64;
    BitByDivision(m, 1);
    BitByDivision(m, 2);
    BitByDivision(m, 3);
    BitByDivision(m, 4);
    BitByDivision(m, 5);
    BitByDivision(m, 6);
  }

  /** The rotation that moves Sunday to the low end, so that bits follow the C library's days. */
  function Rotated(m: mask): nat {
    And(2 * m, 0x7F) + And(0x40, m) / 64
  }

  lemma RotatedValue(m: mask)
    ensures Rotated(m) == 2 * m % 128 + m / 64
  {
    assert Pow2(3) == 8 && Pow2(5) == 32;
    assert Pow2(6) == 64;
    assert Pow2(7) == 128;
    AndMask(2 * m, 7);
    AndSymmetric(0x40, m);
    AndTop(m, 6);
  }

  lemma {:induction false} AndSymmetric(a: nat, b: nat)
    ensures And(a, b) == And(b, a)
    decreases a
  {
    if a != 0 && b != 0 {
      AndSymmetric(a / 2, b / 2);
    }
  }

  lemma {:induction false} AndTop(n: nat, j: nat)
    requires n < 2 * Pow2(j)
    ensures And(n, Pow2(j)) == if n < Pow2(j) then 0 else Pow2(j)
    decreases j
  {
    Pow2Positive(j);
    if j == 0 {
      assert n < 2;
    } else if n != 0 {
      AndTop(n / 2, j - 1);
      assert Pow2(j) / 2 == Pow2(j - 1) && Pow2(j) % 2 == 0;
    }
  }

  lemma RotatedBits(m: mask, wday: nat)
    requires wday < 7
    ensures BitOf(Rotated(m), wday) == OnWeekday(m, wday)
  {
    RotatedValue(m);
    RotatedHalves(m);
    TopThenLow(m, Rotated(m), wday);
  }

  lemma TopThenLow(m: mask, r: nat, wday: nat)
    requires wday < 7 && r % 2 == m / 64 && r / 2 == m % 64
    ensures BitOf(r, wday) == OnWeekday(m, wday)
  {
    DayBefore(wday);
    if wday == 0 {
      TopBit(m);
    } else {
      SixBits(m, wday - 1);
    }
  }

  lemma DayBefore(wday: nat)
    requires wday < 7
    ensures (wday + 6) % 7 == if wday == 0 then 6 else wday - 1
  {
  }

  lemma SixBits(m: mask, i: nat)
    requires i < 6
    ensures BitOf(m % 64, i) == BitOf(m, i)
  {
    assert Pow2(6) == 64;
    LowBits(m, 64, 6, i);
  }

  lemma RotatedHalves(m: mask)
    ensures var r := 2 * m % 128 + m / 64; r % 2 == m / 64 && r / 2 == m % 64
  {
  }

  lemma TopBit(m: mask)
    ensures BitOf(m, 6) <==> m / 64 == 1
  {
    assert Pow2(6) == 64;
    AndBit(m, 6);
    AndTop(m, 6);
  }

  lemma {:induction false} LowBits(m: nat, p: nat, k: nat, i: nat)
    requires i < k && p == Pow2(k)
    ensures 0 < p && BitOf(m % p, i) == BitOf(m, i)
    decreases k
  {
    Pow2Positive(k - 1);
    DoubleMod(m, Pow2(k - 1));
    if i == 0 {
    } else {
      LowBits(m / 2, Pow2(k - 1), k - 1, i - 1);
    }
  }

  // ---------------------------------------------------------------- days and gaps

  predicate CollectionDay(m: mask, day: nat) {
    OnWeekday(m, day % 7)
  }

  /** The first collection day from a given one on, searched for up to a limit. */
  function NextFrom(m: mask, day: nat, limit: nat): (d: nat)
    requires day <= limit
    ensures day <= d <= limit
    ensures forall e :: day <= e < d ==> !CollectionDay(m, e)
    ensures d < limit ==> CollectionDay(m, d)
    decreases limit - day
  {
    if day == limit || CollectionDay(m, day) then day else NextFrom(m, day + 1, limit)
  }

  /** The collection day after a given one, or the same weekday a week later. */
  function NextDay(m: mask, day: nat): (d: nat)
    ensures day < d <= day + 7
    ensures forall e :: day < e < d ==> !CollectionDay(m, e)
  {
    NextFrom(m, day + 1, day + 7)
  }

  ghost predicate SomeDay(m: mask) {
    exists wday: nat :: wday < 7 && OnWeekday(m, wday)
  }

  lemma WeekCovers(m: mask, day: nat, wday: nat)
    requires wday < 7 && OnWeekday(m, wday)
    ensures exists d :: day < d <= day + 7 && CollectionDay(m, d)
  {
    var d := day + 1 + (wday - (day + 1)) % 7;
    assert d % 7 == wday;
    assert CollectionDay(m, d);
  }

  /** With any day in the mask, the next day is a collection day. */
  lemma NextDayCollects(m: mask, day: nat)
    requires SomeDay(m)
    ensures CollectionDay(m, NextDay(m, day))
  {
    var wday: nat :| wday < 7 && OnWeekday(m, wday);
    WeekCovers(m, day, wday);
  }

  lemma EmptyMaskNextDay(m: mask, day: nat)
    requires !SomeDay(m)
    ensures NextDay(m, day) == day + 7 && !CollectionDay(m, day)
  {
    assert !OnWeekday(m, day % 7);
    var d := NextDay(m, day);
    assert !OnWeekday(m, d % 7);
  }

  // ---------------------------------------------------------------- occurrences

  /** An instant at which a plan collects: its time of day on one of its days. */
  predicate Occurs(m: mask, tod: nat, t: nat) {
    SecondOf(t) == tod && CollectionDay(m, DayOf(t))
  }

  /** The seconds from an instant to the same time of day on the next collection day. */
  function WeeklyPeriod(m: mask, t: nat): (p: nat)
    ensures 0 < p
  {
    Days(NextDay(m, DayOf(t)) - DayOf(t))
  }

  lemma PeriodLands(m: mask, t: nat)
    ensures DayOf(t + WeeklyPeriod(m, t)) == NextDay(m, DayOf(t))
    ensures SecondOf(t + WeeklyPeriod(m, t)) == SecondOf(t)
  {
    DaySplit(t);
    DayJoin(NextDay(m, DayOf(t)), SecondOf(t));
  }

  /** The delay that set_time computes at an instant for a time of day. */
  function FirstDelay(m: mask, now: nat, tod: nat): (d: int)
    ensures 0 < d
  {
    DaySplit(now);
    var interval := tod - SecondOf(now);
    if CollectionDay(m, DayOf(now)) && interval > 0 then interval
    else interval + WeeklyPeriod(m, now)
  }

  lemma FirstDue(m: mask, now: nat, tod: nat)
    requires tod < 86400
    ensures 0 < FirstDelay(m, now, tod)
    ensures var due := now + FirstDelay(m, now, tod);
            && SecondOf(due) == tod
            && DayOf(due) ==
               if CollectionDay(m, DayOf(now)) && tod > SecondOf(now) then DayOf(now) else NextDay(m, DayOf(now))
  {
    DaySplit(now);
    DayJoin(DayOf(now), tod);
    DayJoin(NextDay(m, DayOf(now)), tod);
  }

  /**
   For a mask with any day in it the delay is the least strictly positive one that lands on the
   time of day on a day of the mask, whatever the current day and second.
   */
  lemma FirstDelayIsLeast(m: mask, now: nat, tod: nat)
    requires tod < 86400 && SomeDay(m)
    ensures 0 < FirstDelay(m, now, tod)
    ensures Occurs(m, tod, now + FirstDelay(m, now, tod))
    ensures forall t: nat :: now < t && Occurs(m, tod, t) ==> now + FirstDelay(m, now, tod) <= t
  {
    var due := now + FirstDelay(m, now, tod);
    NextDayCollects(m, DayOf(now));
    FirstDue(m, now, tod);
    forall t: nat | now < t && Occurs(m, tod, t)
      ensures due <= t
    {
      NoEarlierOccurrence(m, now, tod, t);
    }
  }

  /** A text may name a leap second, which is a second of the next day: the plan then fires a day late. */
  lemma LeapSecondLands(m: mask, now: nat, tod: nat)
    requires 86400 <= tod < 2 * 86400
    ensures var due := now + FirstDelay(m, now, tod);
            && SecondOf(due) == tod - 86400
            && DayOf(due) == 1 + if CollectionDay(m, DayOf(now)) then DayOf(now) else NextDay(m, DayOf(now))
  {
    DaySplit(now);
    DayJoin(DayOf(now) + 1, tod - 86400);
    DayJoin(NextDay(m, DayOf(now)) + 1, tod - 86400);
  }

  lemma NoEarlierOccurrence(m: mask, now: nat, tod: nat, t: nat)
    requires tod < 86400 && now < t && Occurs(m, tod, t)
    ensures now + FirstDelay(m, now, tod) <= t
  {
    var due := now + FirstDelay(m, now, tod);
    FirstDue(m, now, tod);
    DaySplit(now);
    DaySplit(t);
    DaySplit(due);
    if DayOf(t) == DayOf(now) {
      assert tod > SecondOf(now);
    } else {
      assert DayOf(due) <= DayOf(t);
    }
  }

  /** With an empty mask the plan still fires, a week ahead of today's time of day. */
  lemma EmptyMaskDelay(m: mask, now: nat, tod: nat)
    requires tod < 86400 && !SomeDay(m)
    ensures FirstDelay(m, now, tod) == tod - SecondOf(now) + Days(7)
  {
    EmptyMaskNextDay(m, DayOf(now));
  }
}
