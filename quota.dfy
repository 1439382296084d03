/** The quota guard of `POST /api/shorten-url`. */
module Quota {
  import opened Wrappers
  import opened Clock
  import opened Schema
  import opened Ledger
  import opened Tracker

  datatype Verdict = Admit | DenyNoPlan | DenyExpired | DenyDaily | DenyMonthly

  /** Shorten's expiry test is strict: the expiration instant itself still admits. */
  predicate ExpiredForShorten(expiration: Time, now: Time)
  {
    expiration < now
  }

  /** verify-payment's expiry test also counts the expiration instant as expired. */
  predicate ExpiredForRenewal(expiration: Time, now: Time)
  {
    expiration <= now
  }

  /**
   * The chain of checks: no joined row, then expiry, then the daily limit,
   * then the monthly limit; the first that fails decides the denial.
   */
  function ShortenVerdict(w: Option<Window>, countToday: nat, countMonth: nat, now: Time): Verdict
  {
    if w.None? then DenyNoPlan
    else if ExpiredForShorten(w.value.row.expirationDate, now) then DenyExpired
    else if countToday >= w.value.plan.dailyUrlLimit then DenyDaily
    else if countMonth >= w.value.plan.urlLimit then DenyMonthly
    else Admit
  }

  /** The guard as the handler applies it to the current tables. */
  function Decide(rows: seq<ActivePlan>, catalog: seq<MembershipPlan>, urls: seq<UrlRow>, user: UserId, now: Time)
    : Verdict
  {
    ShortenVerdict(LatestWindow(rows, catalog, user), CountToday(urls, user, now), CountMonth(urls, user, now), now)
  }

  /** A request is admitted exactly when every check passes. */
  lemma AdmitExactly(rows: seq<ActivePlan>, catalog: seq<MembershipPlan>, urls: seq<UrlRow>, user: UserId, now: Time)
    ensures var w := LatestWindow(rows, catalog, user);
      Decide(rows, catalog, urls, user, now) == Admit <==>
        && w.Some?
        && now <= w.value.row.expirationDate
        && CountToday(urls, user, now) < w.value.plan.dailyUrlLimit
        && CountMonth(urls, user, now) < w.value.plan.urlLimit
  {
  }

  /** No joined row: denied as having no plan, whatever the counts. */
  lemma NoRowDenied(rows: seq<ActivePlan>, catalog: seq<MembershipPlan>, urls: seq<UrlRow>, user: UserId, now: Time)
    requires forall r :: r in rows && r.userId == user ==> FindPlan(catalog, r.planId).None?
    ensures Decide(rows, catalog, urls, user, now) == DenyNoPlan
  {
  }

  /**
   * The daily check precedes the monthly one: once today's count reaches the
   * daily limit of a live plan the denial is the daily one, even when the
   * monthly limit is reached too.
   */
  lemma DailyBeforeMonthly(w: Window, countToday: nat, countMonth: nat, now: Time)
    requires !ExpiredForShorten(w.row.expirationDate, now)
    requires countToday >= w.plan.dailyUrlLimit
    ensures ShortenVerdict(Some(w), countToday, countMonth, now) == DenyDaily
  {
  }

  /**
   * The two expiry tests differ at the boundary: a plan whose expiration is
   * exactly now still admits in shorten-url but counts as expired in
   * verify-payment.
   */
  lemma ExpiryBoundary(w: Window, countToday: nat, countMonth: nat, now: Time)
    requires w.row.expirationDate == now
    requires countToday < w.plan.dailyUrlLimit && countMonth < w.plan.urlLimit
    ensures ShortenVerdict(Some(w), countToday, countMonth, now) == Admit
    ensures ExpiredForRenewal(w.row.expirationDate, now)
    ensures ShortenVerdict(Some(w), countToday, countMonth, now + 1) == DenyExpired
  {
  }

  /**
   * An admitted request, once its row is appended, leaves the caller's counts
   * within the plan's daily and monthly limits: the (limit + 1)-th request of
   * a day or month is never admitted.
   */
  lemma {:induction false} AdmitStaysWithinLimits(rows: seq<ActivePlan>, catalog: seq<MembershipPlan>,
                                                  urls: seq<UrlRow>, user: UserId, now: Time, url: string, code: string)
    requires Decide(rows, catalog, urls, user, now) == Admit
    ensures var w := LatestWindow(rows, catalog, user).value;
      && CountToday(urls + [UrlRow(url, code, user, now)], user, now) <= w.plan.dailyUrlLimit
      && CountMonth(urls + [UrlRow(url, code, user, now)], user, now) <= w.plan.urlLimit
  {
    CountNewRow(urls, url, code, user, now);
  }

  /**
   * Quota monotonicity within one calendar day: while the plan window does not
   * change, a ledger already holding `dailyUrlLimit` of today's rows denies
   * every further request of that day.
   */
  lemma DailyLimitHolds(rows: seq<ActivePlan>, catalog: seq<MembershipPlan>, urls: seq<UrlRow>, user: UserId,
                        now: Time, later: Time)
    requires DayOf(later) == DayOf(now) && now <= later
    requires LatestWindow(rows, catalog, user).Some?
    requires !ExpiredForShorten(LatestWindow(rows, catalog, user).value.row.expirationDate, later)
    requires CountToday(urls, user, now) >= LatestWindow(rows, catalog, user).value.plan.dailyUrlLimit
    ensures Decide(rows, catalog, urls, user, later) == DenyDaily
  {
    SameDayCounts(urls, user, now, later);
  }

  /** Today's count depends only on the calendar day of `now`. */
  lemma {:induction false} SameDayCounts(urls: seq<UrlRow>, user: UserId, now: Time, later: Time)
    requires DayOf(later) == DayOf(now)
    ensures CountToday(urls, user, later) == CountToday(urls, user, now)
  {
    if urls != [] {
      SameDayCounts(urls[1..], user, now, later);
    }
  }
}
