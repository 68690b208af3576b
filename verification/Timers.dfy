/**
 The timer objects of timerlist/timer.cpp, on the ideal clock of Calendar. The two classes of
 the source are one here, with a flag that says which set of methods a timer has.
 */
module Timers {
  import opened Bytes
  import opened Options
  import opened Words
  import opened Calendar
  import opened Scheduler

  // One past the latest second that a time of day can name, leap seconds included.
  const LATEST: nat := 86402

  class Timer {
    // Tells timers apart in specifications; the source uses their addresses.
    const id: nat
    const weekly: bool
    var tvSec: int
    var tvUsec: int
    var period: nat
    var weekMask: mask

    function Kind(): Kind
      reads this
    {
      if weekly then Weekly(weekMask) else Plain(period)
    }

    function AsEntry(): Entry
      requires 0 <= tvSec
      reads this
    {
      Entry(id, tvSec, Kind())
    }

    constructor PlainTimer(id: nat)
      ensures this.id == id && !weekly && tvSec == tvUsec == 0 && period == 0
    {
      this.id, weekly := id, false;
      tvSec, tvUsec, period, weekMask := 0, 0, 0, 0;
    }

    /** The top bit of a week mask means nothing and is dropped. */
    constructor WeeklyTimer(id: nat, weekMask: byte)
      ensures this.id == id && weekly && tvSec == tvUsec == 0 && period == 86400
      ensures this.weekMask == weekMask % 128
    {
      this.id, weekly := id, true;
      tvSec, tvUsec, period := 0, 0, 86400;
      ByteMask(weekMask);
      this.weekMask := if And(0x80, weekMask) != 0 then And(weekMask, 0x7F) else weekMask;
    }

    method SetTime(sec: int, usec: int) returns (ok: bool)
      modifies this`tvSec, this`tvUsec
      ensures ok == (0 <= sec && 0 <= usec)
      ensures if ok then tvSec == sec && tvUsec == usec else tvSec == old(tvSec) && tvUsec == old(tvUsec)
    {
      if sec < 0 || usec < 0 {
        return false;
      }
      tvSec, tvUsec := sec, usec;
      ok := true;
    }

    method SetWeekMask(weekMask: byte) returns (ok: bool)
      requires weekly
      modifies this`weekMask
      ensures ok == (weekMask < 128)
      ensures this.weekMask == if ok then weekMask else old(this.weekMask)
    {
      ByteMask(weekMask);
      if And(0x80, weekMask) != 0 {
        return false;
      }
      this.weekMask := weekMask;
      ok := true;
    }

    /** Weekly timers ignore it. */
    method SetPeriod(period: nat)
      modifies this`period
      ensures this.period == if weekly then old(this.period) else period
    {
      if !weekly {
        this.period := period;
      }
    }

    /** The weekly form searches the rotated mask for the next day set, at most a week ahead. */
    method GetPeriod(now: nat) returns (p: nat)
      ensures p == Period(Kind(), now)
    {
      if !weekly {
        return period;
      }
      var today := DayOf(now);
      var wday := today % 7;
      var newMask := Rotated(weekMask);
      var i := 1;
      while i < 7
        invariant 1 <= i <= 7 && wday == today % 7 + i - 1
        invariant NextFrom(weekMask, today + i, today + 7) == NextDay(weekMask, today)
      {
        wday := wday + 1;
        WeekdayAfter(today, i);
        RotatedBits(weekMask, wday % 7);
        AndBit(newMask, wday % 7);
        if And(newMask, Pow2(wday % 7)) != 0 {
          break;
        }
        i := i + 1;
      }
      p := i * 86400;
    }

    /**
     The weekly form of set_time; tod is the parsed time of day, if it could be parsed, in seconds: a
     text may go up to 23:59:61. The sum is unsigned 32-bit in the source, which the negative interval
     cannot make wrap for good.
     */
    method SetTimeOfDay(tod: Option<nat>, now: nat) returns (ok: bool)
      requires weekly && (tod.Some? ==> tod.value < LATEST)
      modifies this`tvSec, this`tvUsec, this`period
      ensures ok == tod.Some?
      ensures if ok then tvSec == FirstDelay(weekMask, now, tod.value) && tvUsec == 0 && this.period == 0
              else tvSec == old(tvSec) && tvUsec == old(tvUsec) && this.period == old(this.period)
    {
      if tod.None? {
        return false;
      }
      var interval := tod.value - SecondOf(now);
      var wday := DayOf(now) % 7;
      var newMask := Rotated(weekMask);
      FirstDelayWraps(weekMask, now, tod.value);
      TodayTested(weekMask, now);
      if And(newMask, Pow2(wday)) != 0 {
        if interval > 0 {
          tvSec := interval;
        } else {
          var period := GetPeriod(now);
          tvSec := (interval + period) % WRAP;
        }
      } else {
        var period := GetPeriod(now);
        tvSec := (interval + period) % WRAP;
      }
      tvUsec := 0;
      this.period := 0;
      ok := true;
    }
  }

  lemma ByteMask(b: byte)
    ensures And(0x80, b) != 0 <==> 128 <= b
    ensures And(b, 0x7F) == b % 128
  {
    assert Pow2(7) == 128;
    AndMask(b, 7);
    AndSymmetric(0x80, b);
    AndTop(b, 7);
  }

  lemma WeekdayAfter(day: nat, i: nat)
    ensures (day % 7 + i) % 7 == (day + i) % 7
  {
  }

  /** The mask test of set_time asks whether today is a collection day. */
  lemma TodayTested(m: mask, now: nat)
    ensures And(Rotated(m), Pow2(DayOf(now) % 7)) != 0 <==> CollectionDay(m, DayOf(now))
  {
    RotatedBits(m, DayOf(now) % 7);
    AndBit(Rotated(m), DayOf(now) % 7);
  }

  lemma FirstDelayWraps(m: mask, now: nat, tod: nat)
    requires tod < LATEST
    ensures var interval := tod - SecondOf(now);
            && (CollectionDay(m, DayOf(now)) && interval > 0 ==> FirstDelay(m, now, tod) == interval)
            && (!(CollectionDay(m, DayOf(now)) && interval > 0) ==>
                  FirstDelay(m, now, tod) == (interval + Period(Kind.Weekly(m), now)) % WRAP)
  {
    assert FirstDelay(m, now, tod) < WRAP;
  }
}
