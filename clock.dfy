/**
 * Time as the server sees it: JavaScript `Date` values, i.e. integer
 * milliseconds since 1970-01-01T00:00:00 UTC. The calendar functions fix the
 * database's DATE(), MONTH() and YEAR() to UTC.
 */
module Clock {
  type Time = int

  /** Milliseconds in one day. */
  const DAY: int := 86_400_000

  /** The expiration the handlers store: `daysActive` whole days after activation, without DST. */
  function ExpirationOf(activation: Time, daysActive: int): Time
  {
    activation + daysActive * DAY
  }

  /** The calendar day number of `t` (SQL `DATE(t)`), counted from 1970-01-01. */
  function DayOf(t: Time): int
  {
    t / DAY
  }

  datatype MonthYear = MonthYear(year: int, month: int)

  /**
   * Proleptic Gregorian year and month of a day number (day 0 is
   * 1970-01-01); the civil-from-days computation on a 400-year era.
   */
  function CivilMonthYear(days: int): MonthYear
  {
    var z := days + 719468;
    var era := z / 146097;
    var doe := z - era * 146097;
    var yoe := (doe - doe / 1460 + doe / 36524 - doe / 146096) / 365;
    var doy := doe - (365 * yoe + yoe / 4 - yoe / 100);
    var mp := (5 * doy + 2) / 153;
    var m := if mp < 10 then mp + 3 else mp - 9;
    MonthYear(yoe + era * 400 + (if m <= 2 then 1 else 0), m)
  }

  /** SQL `(YEAR(t), MONTH(t))`. */
  function MonthYearOf(t: Time): MonthYear
  {
    CivilMonthYear(DayOf(t))
  }

  /** Two instants on the same calendar day lie in the same month of the same year. */
  lemma SameDaySameMonth(t1: Time, t2: Time)
    requires DayOf(t1) == DayOf(t2)
    ensures MonthYearOf(t1) == MonthYearOf(t2)
  {
  }

  /** The calendar agrees with a known date: 1970-01-01, day 0. */
  lemma CalendarEpoch()
    ensures CivilMonthYear(0) == MonthYear(1970, 1)
  {
    assert 719468 / 146097 == 4;
    assert (135080 - 135080 / 1460 + 135080 / 36524 - 135080 / 146096) / 365 == 369;
    assert (5 * 306 + 2) / 153 == 10;
  }

  /** The calendar agrees with a known date: the leap day 2024-02-29. */
  lemma CalendarLeapDay()
    ensures CivilMonthYear(19782) == MonthYear(2024, 2)
  {
    assert 739250 / 146097 == 5;
    assert (8765 - 8765 / 1460 + 8765 / 36524 - 8765 / 146096) / 365 == 23;
    assert (5 * 365 + 2) / 153 == 11;
  }

  /** The calendar agrees with a known date: 2023-12-31. */
  lemma CalendarLastDayOf2023()
    ensures CivilMonthYear(19722) == MonthYear(2023, 12)
  {
    assert 739190 / 146097 == 5;
    assert (8705 - 8705 / 1460 + 8705 / 36524 - 8705 / 146096) / 365 == 23;
    assert (5 * 305 + 2) / 153 == 9;
  }

  /** The calendar agrees with a known date: 2024-01-01. */
  lemma CalendarFirstDayOf2024()
    ensures CivilMonthYear(19723) == MonthYear(2024, 1)
  {
    assert 739191 / 146097 == 5;
    assert (8706 - 8706 / 1460 + 8706 / 36524 - 8706 / 146096) / 365 == 23;
    assert (5 * 306 + 2) / 153 == 10;
  }
}
