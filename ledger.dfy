/**
 * The usage counts of `POST /api/shorten-url` and `GET /api/membership-plan`:
 * how many of the caller's `urls` rows were created on the current calendar
 * day, and in the current month of the current year.
 */
module Ledger {
  import opened Clock
  import opened Schema

  predicate CreatedToday(r: UrlRow, user: UserId, now: Time)
  {
    r.userId == user && DayOf(r.createdAt) == DayOf(now)
  }

  predicate CreatedThisMonth(r: UrlRow, user: UserId, now: Time)
  {
    r.userId == user && MonthYearOf(r.createdAt) == MonthYearOf(now)
  }

  /** The caller's rows created today. */
  function CountToday(urls: seq<UrlRow>, user: UserId, now: Time): (n: nat)
    ensures n <= |urls|
  {
    if urls == [] then 0
    else (if CreatedToday(urls[0], user, now) then 1 else 0) + CountToday(urls[1..], user, now)
  }

  /** The caller's rows created this month. */
  function CountMonth(urls: seq<UrlRow>, user: UserId, now: Time): (n: nat)
    ensures n <= |urls|
  {
    if urls == [] then 0
    else (if CreatedThisMonth(urls[0], user, now) then 1 else 0) + CountMonth(urls[1..], user, now)
  }

  /** The daily count never exceeds the monthly count. */
  lemma {:induction false} TodayWithinMonth(urls: seq<UrlRow>, user: UserId, now: Time)
    ensures CountToday(urls, user, now) <= CountMonth(urls, user, now)
  {
    if urls != [] {
      TodayWithinMonth(urls[1..], user, now);
      if CreatedToday(urls[0], user, now) {
        SameDaySameMonth(urls[0].createdAt, now);
      }
    }
  }

  /** Appending a row adds one to each count exactly when the row falls in its period. */
  lemma {:induction false} CountAppend(urls: seq<UrlRow>, r: UrlRow, user: UserId, now: Time)
    ensures CountToday(urls + [r], user, now) == CountToday(urls, user, now) + (if CreatedToday(r, user, now) then 1 else 0)
    ensures CountMonth(urls + [r], user, now) == CountMonth(urls, user, now) + (if CreatedThisMonth(r, user, now) then 1 else 0)
  {
    if urls != [] {
      assert (urls + [r])[1..] == urls[1..] + [r];
      CountAppend(urls[1..], r, user, now);
    } else {
      assert [] + [r] == [r];
    }
  }

  /** Rows of other users never change a user's counts. */
  lemma {:induction false} CountOtherUser(urls: seq<UrlRow>, r: UrlRow, user: UserId, now: Time)
    requires r.userId != user
    ensures CountToday(urls + [r], user, now) == CountToday(urls, user, now)
    ensures CountMonth(urls + [r], user, now) == CountMonth(urls, user, now)
  {
    CountAppend(urls, r, user, now);
  }

  /** A row the caller creates now counts toward both today and this month. */
  lemma CountNewRow(urls: seq<UrlRow>, url: string, code: string, user: UserId, now: Time)
    ensures CountToday(urls + [UrlRow(url, code, user, now)], user, now) == CountToday(urls, user, now) + 1
    ensures CountMonth(urls + [UrlRow(url, code, user, now)], user, now) == CountMonth(urls, user, now) + 1
  {
    CountAppend(urls, UrlRow(url, code, user, now), user, now);
  }

  /**
   * The monthly count restarts with the month: a row created on 2023-12-31
   * (day 19722) does not count toward a request on 2024-01-01 (day 19723),
   * although it counted on its own day.
   */
  lemma NewYearRestartsMonth(r: UrlRow, user: UserId, now: Time)
    requires r.userId == user && DayOf(r.createdAt) == 19722 && DayOf(now) == 19723
    ensures !CreatedThisMonth(r, user, now) && CountMonth([r], user, now) == 0
    ensures CreatedThisMonth(r, user, r.createdAt) && CountMonth([r], user, r.createdAt) == 1
  {
    CalendarLastDayOf2023();
    CalendarFirstDayOf2024();
  }
}
