/**
 * The trading-hours gate (`is_market_hours_ist`): Monday to Friday, 09:15 to
 * 15:30 inclusive, Indian Standard Time. The current instant is a parameter:
 * microseconds since the Unix epoch, in UTC, as `datetime.now(timezone.utc)`
 * gives it.
 */
module Market {

  const MicrosPerSecond: int := 1000000
  const MicrosPerDay: int := 86400 * MicrosPerSecond
  const DaysPerWeek: int := 7

  /** IST is UTC + 5 hours 30 minutes, with no daylight saving. */
  const IstOffset: int := (5 * 3600 + 30 * 60) * MicrosPerSecond

  /** 1970-01-01 was a Thursday; Python's `weekday()` numbers Monday 0 ... Sunday 6. */
  const EpochWeekday: int := 3

  /** The time of day `hh:mm:00.000000`, in microseconds after midnight. */
  function TimeOf(hour: int, minute: int): int {
    (hour * 3600 + minute * 60) * MicrosPerSecond
  }

  const MarketOpen: int := TimeOf(9, 15)
  const MarketClose: int := TimeOf(15, 30)

  /** A wall-clock reading: `weekday()` and `time()` of a datetime, the latter in microseconds. */
  datatype Clock = Clock(weekday: int, timeOfDay: int)

  /** The wall clock in a zone `offset` microseconds ahead of UTC at the instant `utc`. */
  function ClockAt(utc: int, offset: int): (c: Clock)
    ensures 0 <= c.weekday < DaysPerWeek && 0 <= c.timeOfDay < MicrosPerDay
  {
    var local := utc + offset;
    Clock((local / MicrosPerDay + EpochWeekday) % DaysPerWeek, local % MicrosPerDay)
  }

  /** Whether a wall-clock reading falls in a trading session. */
  predicate InSession(c: Clock) {
    if c.weekday > 4 then false
    else MarketOpen <= c.timeOfDay <= MarketClose
  }

  /** `is_market_hours_ist()` at the UTC instant `utc`. */
  predicate IsMarketHoursIst(utc: int) {
    InSession(ClockAt(utc, IstOffset))
  }

  /** The weekday of the UTC calendar day holding `utc`. */
  function UtcWeekday(utc: int): int {
    (utc / MicrosPerDay + EpochWeekday) % DaysPerWeek
  }

  /**
   * Stated in UTC: the session is 03:45 to 10:00 UTC on a UTC weekday, because
   * the IST session never crosses midnight in either zone.
   */
  lemma {:induction false} SessionInUtc(utc: int)
    ensures IsMarketHoursIst(utc) <==>
              UtcWeekday(utc) <= 4 && TimeOf(3, 45) <= utc % MicrosPerDay <= TimeOf(10, 0)
  {
    var day, time := utc / MicrosPerDay, utc % MicrosPerDay;
    assert utc == day * MicrosPerDay + time;
    var c := ClockAt(utc, IstOffset);
    if time < MicrosPerDay - IstOffset {
      assert utc + IstOffset == day * MicrosPerDay + (time + IstOffset);
      assert (utc + IstOffset) / MicrosPerDay == day;
      assert c.timeOfDay == time + IstOffset;
      assert c.weekday == UtcWeekday(utc);
    } else {
      assert utc + IstOffset == (day + 1) * MicrosPerDay + (time + IstOffset - MicrosPerDay);
      assert c.timeOfDay == time + IstOffset - MicrosPerDay;
      assert c.timeOfDay < MarketOpen;
    }
  }

  /** The gate repeats every week. */
  lemma {:induction false} WeeklyRepeat(utc: int)
    ensures ClockAt(utc + DaysPerWeek * MicrosPerDay, IstOffset) == ClockAt(utc, IstOffset)
    ensures IsMarketHoursIst(utc + DaysPerWeek * MicrosPerDay) == IsMarketHoursIst(utc)
  {
    var local := utc + IstOffset;
    var day, time := local / MicrosPerDay, local % MicrosPerDay;
    assert local == day * MicrosPerDay + time;
    assert local + DaysPerWeek * MicrosPerDay == (day + DaysPerWeek) * MicrosPerDay + time;
    assert (local + DaysPerWeek * MicrosPerDay) / MicrosPerDay == day + DaysPerWeek;
    assert (day + DaysPerWeek + EpochWeekday) % DaysPerWeek == (day + EpochWeekday) % DaysPerWeek;
  }

  /** Both ends of the session are inside it, on every weekday and on no weekend day. */
  lemma SessionBoundaries(weekday: int)
    requires 0 <= weekday < DaysPerWeek
    ensures InSession(Clock(weekday, MarketOpen)) <==> weekday <= 4
    ensures InSession(Clock(weekday, MarketClose)) <==> weekday <= 4
    ensures !InSession(Clock(weekday, MarketOpen - 1))
    ensures !InSession(Clock(weekday, MarketClose + 1))
  {
  }

  /**
   * 2024-01-01 was a Monday: 03:45 UTC on that day is 09:15 IST and inside the
   * session; five days later, Saturday, the same instant is outside it.
   */
  lemma MondayAndSaturday()
    ensures IsMarketHoursIst(19723 * MicrosPerDay + TimeOf(3, 45))
    ensures ClockAt(19723 * MicrosPerDay + TimeOf(3, 45), IstOffset) == Clock(0, MarketOpen)
    ensures !IsMarketHoursIst(19728 * MicrosPerDay + TimeOf(3, 45))
  {
    assert 19723 * MicrosPerDay + TimeOf(3, 45) + IstOffset == 19723 * MicrosPerDay + MarketOpen;
    assert 19728 * MicrosPerDay + TimeOf(3, 45) + IstOffset == 19728 * MicrosPerDay + MarketOpen;
  }
}
