/**
 * The derived quota view of `GET /api/membership-plan`: plan limits, what is
 * left today and this month, and the whole days left in the plan window.
 */
module Membership {
  import opened Wrappers
  import opened Clock
  import opened Schema
  import opened Ledger
  import opened Tracker
  import opened Quota

  datatype PlanView = PlanView(planName: string, urlLimit: int, dailyUrlLimit: int,
                               urlsRemainingToday: int, urlsRemainingMonth: int,
                               activationDate: Time, expirationDate: Time, daysRemaining: int)

  datatype ViewResult = NoPlanFound | PlanLapsed | Details(view: PlanView)

  /** The GROUP BY columns of the query. */
  datatype GroupKey = GroupKey(name: string, urlLimit: int, dailyUrlLimit: int,
                               activationDate: Time, expirationDate: Time)

  function KeyOf(w: Window): GroupKey
  {
    GroupKey(w.plan.name, w.plan.urlLimit, w.plan.dailyUrlLimit, w.row.activationDate, w.row.expirationDate)
  }

  /**
   * The positions, from `from` on, of the caller's rows that join the catalog:
   * each such position once, no other, in increasing order.
   */
  function JoinedIndices(rows: seq<ActivePlan>, catalog: seq<MembershipPlan>, user: UserId, from: nat): (idx: seq<nat>)
    requires from <= |rows|
    decreases |rows| - from
    ensures forall k :: 0 <= k < |idx| ==> from <= idx[k] < |rows| && Joins(catalog, rows[idx[k]], user)
    ensures forall k, l :: 0 <= k < l < |idx| ==> idx[k] < idx[l]
    ensures forall i :: from <= i < |rows| && Joins(catalog, rows[i], user) ==> i in idx
  {
    if from == |rows| then []
    else
      var rest := JoinedIndices(rows, catalog, user, from + 1);
      if Joins(catalog, rows[from], user) then [from] + rest else rest
  }

  /** The joined rows from position `from` on, one window per joined position, in order. */
  function JoinedFrom(rows: seq<ActivePlan>, catalog: seq<MembershipPlan>, user: UserId, from: nat): (j: seq<Window>)
    requires from <= |rows|
    decreases |rows| - from
    ensures var idx := JoinedIndices(rows, catalog, user, from);
      && |j| == |idx|
      && forall k :: 0 <= k < |j| ==> j[k].row == rows[idx[k]] && Some(j[k].plan) == FindPlan(catalog, rows[idx[k]].planId)
  {
    if from == |rows| then []
    else
      var rest := JoinedFrom(rows, catalog, user, from + 1);
      if Joins(catalog, rows[from], user) then [Window(rows[from], FindPlan(catalog, rows[from].planId).value)] + rest
      else rest
  }

  /**
   * The caller's `active_plans` rows joined to `membership_plans`, in table
   * order and with their repetitions: the k-th window is the row at the k-th
   * joined position, with its plan.
   */
  function JoinedRows(rows: seq<ActivePlan>, catalog: seq<MembershipPlan>, user: UserId): (j: seq<Window>)
    ensures var idx := JoinedIndices(rows, catalog, user, 0);
      && |j| == |idx|
      && forall k :: 0 <= k < |j| ==> j[k].row == rows[idx[k]] && Some(j[k].plan) == FindPlan(catalog, rows[idx[k]].planId)
    ensures forall w :: w in j ==> w.row in rows && Joins(catalog, w.row, user) && FindPlan(catalog, w.row.planId) == Some(w.plan)
    ensures forall r :: r in rows && Joins(catalog, r, user) ==> Window(r, FindPlan(catalog, r.planId).value) in j
  {
    var j := JoinedFrom(rows, catalog, user, 0);
    JoinedMembers(rows, catalog, user, j);
    j
  }

  /** A sequence of windows laid out over the joined positions holds exactly the joined rows. */
  lemma JoinedMembers(rows: seq<ActivePlan>, catalog: seq<MembershipPlan>, user: UserId, j: seq<Window>)
    requires var idx := JoinedIndices(rows, catalog, user, 0);
      && |j| == |idx|
      && forall k :: 0 <= k < |j| ==> j[k].row == rows[idx[k]] && Some(j[k].plan) == FindPlan(catalog, rows[idx[k]].planId)
    ensures forall w :: w in j ==> w.row in rows && Joins(catalog, w.row, user) && FindPlan(catalog, w.row.planId) == Some(w.plan)
    ensures forall r :: r in rows && Joins(catalog, r, user) ==> Window(r, FindPlan(catalog, r.planId).value) in j
  {
    var idx := JoinedIndices(rows, catalog, user, 0);
    forall w | w in j
      ensures w.row in rows && Joins(catalog, w.row, user) && FindPlan(catalog, w.row.planId) == Some(w.plan)
    {
      var k :| 0 <= k < |j| && j[k] == w;
      assert rows[idx[k]] in rows;
    }
    forall r | r in rows && Joins(catalog, r, user)
      ensures Window(r, FindPlan(catalog, r.planId).value) in j
    {
      var i :| 0 <= i < |rows| && rows[i] == r;
      var k :| 0 <= k < |idx| && idx[k] == i;
      assert j[k] == Window(r, FindPlan(catalog, r.planId).value);
    }
  }

  /** How many joined rows fall in the group `key`. */
  function GroupSize(j: seq<Window>, key: GroupKey): (n: nat)
    ensures n <= |j|
  {
    if j == [] then 0 else (if KeyOf(j[0]) == key then 1 else 0) + GroupSize(j[1..], key)
  }

  /** What is left of a limit, never below zero. */
  function Remaining(limit: int, count: int): int
  {
    if limit - count > 0 then limit - count else 0
  }

  /**
   * The response for the first result group (that of the first joined row in
   * table order), whose counts are `factor` times the caller's counts.
   */
  function ViewOf(j: seq<Window>, factor: nat, urls: seq<UrlRow>, user: UserId, now: Time): ViewResult
  {
    if j == [] then NoPlanFound
    else
      var w := j[0];
      if ExpiredForShorten(w.row.expirationDate, now) then PlanLapsed
      else Details(PlanView(w.plan.name, w.plan.urlLimit, w.plan.dailyUrlLimit,
                            Remaining(w.plan.dailyUrlLimit, factor * CountToday(urls, user, now)),
                            Remaining(w.plan.urlLimit, factor * CountMonth(urls, user, now)),
                            w.row.activationDate, w.row.expirationDate,
                            (w.row.expirationDate - now) / DAY))
  }

  /**
   * The query as written: the LEFT JOIN on `urls` repeats every url row once per
   * active-plan row of the group, so the COUNTs are multiplied by the group size.
   */
  function ViewAsWritten(userExists: bool, rows: seq<ActivePlan>, catalog: seq<MembershipPlan>,
                         urls: seq<UrlRow>, user: UserId, now: Time): ViewResult
  {
    var j := if userExists then JoinedRows(rows, catalog, user) else [];
    ViewOf(j, if j == [] then 0 else GroupSize(j, KeyOf(j[0])), urls, user, now)
  }

  /** The view as intended: each of the caller's url rows counted once. */
  function View(userExists: bool, rows: seq<ActivePlan>, catalog: seq<MembershipPlan>,
                urls: seq<UrlRow>, user: UserId, now: Time): ViewResult
  {
    ViewOf(if userExists then JoinedRows(rows, catalog, user) else [], 1, urls, user, now)
  }

  /**
   * The remaining counts lie in [0, limit], they are the limit minus what was
   * used (down to zero), and daysRemaining is the floor of the whole days
   * between now and the expiration.
   */
  lemma ViewBounds(userExists: bool, rows: seq<ActivePlan>, catalog: seq<MembershipPlan>,
                   urls: seq<UrlRow>, user: UserId, now: Time)
    requires CatalogValid(catalog)
    ensures View(userExists, rows, catalog, urls, user, now).Details? ==>
      var v := View(userExists, rows, catalog, urls, user, now).view;
      && 0 <= v.urlsRemainingToday <= v.dailyUrlLimit
      && 0 <= v.urlsRemainingMonth <= v.urlLimit
      && v.urlsRemainingToday == Remaining(v.dailyUrlLimit, CountToday(urls, user, now))
      && v.urlsRemainingMonth == Remaining(v.urlLimit, CountMonth(urls, user, now))
      && 0 <= v.daysRemaining
      && v.daysRemaining * DAY <= v.expirationDate - now < (v.daysRemaining + 1) * DAY
    ensures View(userExists, rows, catalog, urls, user, now).Details? ==>
      var v := View(userExists, rows, catalog, urls, user, now).view;
      var j := JoinedRows(rows, catalog, user);
      && userExists && j != [] && now <= j[0].row.expirationDate
      && v.planName == j[0].plan.name && v.urlLimit == j[0].plan.urlLimit && v.dailyUrlLimit == j[0].plan.dailyUrlLimit
      && v.activationDate == j[0].row.activationDate && v.expirationDate == j[0].row.expirationDate
  {
    var j := if userExists then JoinedRows(rows, catalog, user) else [];
    if j != [] {
      assert j[0] in j;
    }
  }

  /**
   * For a user with a single joined row, the view and the quota guard agree:
   * "no plan" and "expired" match, and something remains both today and this
   * month exactly when the next shorten request is admitted.
   */
  lemma ViewAgreesWithGuard(rows: seq<ActivePlan>, catalog: seq<MembershipPlan>, urls: seq<UrlRow>,
                            user: UserId, now: Time)
    requires |JoinedRows(rows, catalog, user)| <= 1
    ensures var v := View(true, rows, catalog, urls, user, now);
            var d := Decide(rows, catalog, urls, user, now);
      && (v == NoPlanFound <==> d == DenyNoPlan)
      && (v == PlanLapsed <==> d == DenyExpired)
      && (v.Details? ==> (v.view.urlsRemainingToday > 0 && v.view.urlsRemainingMonth > 0 <==> d == Admit))
  {
    var j := JoinedRows(rows, catalog, user);
    var lw := LatestWindow(rows, catalog, user);
    assert View(true, rows, catalog, urls, user, now) == ViewOf(j, 1, urls, user, now);
    assert Decide(rows, catalog, urls, user, now) ==
           ShortenVerdict(lw, CountToday(urls, user, now), CountMonth(urls, user, now), now);
    JoinedMatchesLatest(rows, catalog, user);
    WindowsAgree(j, lw, CountToday(urls, user, now), CountMonth(urls, user, now), urls, user, now);
  }

  /** The agreement on abstract rows: at most one joined row, which is the one the guard found. */
  lemma WindowsAgree(j: seq<Window>, lw: Option<Window>, countToday: nat, countMonth: nat,
                     urls: seq<UrlRow>, user: UserId, now: Time)
    requires |j| <= 1 && (j == [] <==> lw.None?) && (lw.Some? ==> lw.value in j)
    requires countToday == CountToday(urls, user, now) && countMonth == CountMonth(urls, user, now)
    ensures var v := ViewOf(j, 1, urls, user, now);
            var d := ShortenVerdict(lw, countToday, countMonth, now);
      && (v == NoPlanFound <==> d == DenyNoPlan)
      && (v == PlanLapsed <==> d == DenyExpired)
      && (v.Details? ==> (v.view.urlsRemainingToday > 0 && v.view.urlsRemainingMonth > 0 <==> d == Admit))
  {
    if lw.Some? {
      assert j == [lw.value];
      SingleWindowAgrees(lw.value, urls, user, now);
    }
  }

  /** Some row joins exactly when shorten-url finds a window, and that window is among the joined rows. */
  lemma JoinedMatchesLatest(rows: seq<ActivePlan>, catalog: seq<MembershipPlan>, user: UserId)
    ensures JoinedRows(rows, catalog, user) == [] <==> LatestWindow(rows, catalog, user).None?
    ensures LatestWindow(rows, catalog, user).Some? ==>
      LatestWindow(rows, catalog, user).value in JoinedRows(rows, catalog, user)
  {
    var j := JoinedRows(rows, catalog, user);
    var lw := LatestWindow(rows, catalog, user);
    if j != [] {
      assert j[0] in j;
    }
    if lw.Some? {
      assert Window(lw.value.row, FindPlan(catalog, lw.value.row.planId).value) in j;
    }
  }

  /** One joined row: the view of it and the guard's verdict on it agree. */
  lemma SingleWindowAgrees(w: Window, urls: seq<UrlRow>, user: UserId, now: Time)
    ensures var v := ViewOf([w], 1, urls, user, now);
            var d := ShortenVerdict(Some(w), CountToday(urls, user, now), CountMonth(urls, user, now), now);
      && v != NoPlanFound && d != DenyNoPlan
      && (v == PlanLapsed <==> d == DenyExpired)
      && (v.Details? ==> (v.view.urlsRemainingToday > 0 && v.view.urlsRemainingMonth > 0 <==> d == Admit))
  {
  }

  /** When the first group holds one row, the query as written shows the intended view. */
  lemma ViewAsWrittenSingleRowGroup(userExists: bool, rows: seq<ActivePlan>, catalog: seq<MembershipPlan>,
                                    urls: seq<UrlRow>, user: UserId, now: Time)
    requires var j := JoinedRows(rows, catalog, user); j != [] ==> GroupSize(j, KeyOf(j[0])) == 1
    ensures ViewAsWritten(userExists, rows, catalog, urls, user, now) == View(userExists, rows, catalog, urls, user, now)
  {
  }

  /**
   * The discrepancy, on a reachable table: a user registered then used
   * upgrade-plan (two rows), then a verified payment overwrote both rows with
   * the same window. With one url created today under a plan of 5 per day,
   * the query as written reports 3 remaining, the intended view 4.
   */
  lemma ViewAsWrittenDoubleCounts()
    ensures var catalog := [MembershipPlan(1, "Free", 50, 5)];
            var before := [ActivePlan(7, 1, 0, 30, ExpirationOf(0, 30)), ActivePlan(7, 1, 10, 30, ExpirationOf(10, 30))];
            var rows := RenewTable(before, 7, 1, 30, 100);
            var urls := [UrlRow("https://example.com/", "0a1b2c3d", 7, 1000)];
      && ViewAsWritten(true, rows, catalog, urls, 7, 2000).Details?
      && ViewAsWritten(true, rows, catalog, urls, 7, 2000).view.urlsRemainingToday == 3
      && View(true, rows, catalog, urls, 7, 2000).view.urlsRemainingToday == 4
  {
    var catalog := [MembershipPlan(1, "Free", 50, 5)];
    var before := [ActivePlan(7, 1, 0, 30, ExpirationOf(0, 30)), ActivePlan(7, 1, 10, 30, ExpirationOf(10, 30))];
    var rows := RenewTable(before, 7, 1, 30, 100);
    var row := ActivePlan(7, 1, 100, 30, ExpirationOf(100, 30));
    assert rows == [row, row];
    var w := Window(row, catalog[0]);
    assert FindPlan(catalog, 1) == Some(catalog[0]);
    assert JoinedFrom(rows, catalog, 7, 2) == [];
    assert JoinedFrom(rows, catalog, 7, 1) == [w];
    assert JoinedRows(rows, catalog, 7) == [w, w];
    var urls := [UrlRow("https://example.com/", "0a1b2c3d", 7, 1000)];
    assert DayOf(1000) == 0 == DayOf(2000);
    assert CountToday(urls, 7, 2000) == 1;
    assert GroupSize([w, w], KeyOf(w)) == 2;
    assert ViewAsWritten(true, rows, catalog, urls, 7, 2000) == ViewOf([w, w], 2, urls, 7, 2000);
    assert View(true, rows, catalog, urls, 7, 2000) == ViewOf([w, w], 1, urls, 7, 2000);
  }

  /**
   * The view reports a lapsed plan exactly when the user row exists and the
   * first joined row in table order expired strictly before now.
   */
  lemma ViewLapsed(userExists: bool, rows: seq<ActivePlan>, catalog: seq<MembershipPlan>,
                   urls: seq<UrlRow>, user: UserId, now: Time)
    ensures var j := JoinedRows(rows, catalog, user);
      View(userExists, rows, catalog, urls, user, now) == PlanLapsed <==>
        userExists && j != [] && j[0].row.expirationDate < now
  {
  }

  /**
   * After upgrade-plan the two handlers read different rows: membership-plan
   * the first joined row in table order (the free plan of registration),
   * shorten-url the one with the latest activation (the upgrade). Shortly
   * after the upgrade the view names the old plan.
   */
  lemma ViewReadsOldRowAfterUpgrade()
    ensures var catalog := [MembershipPlan(1, "Free", 50, 5), MembershipPlan(2, "Premium", 500, 50)];
            var rows := [ActivePlan(7, 1, 0, 30, ExpirationOf(0, 30)), ActivePlan(7, 2, 10, 60, ExpirationOf(10, 60))];
      && View(true, rows, catalog, [], 7, 20).Details?
      && View(true, rows, catalog, [], 7, 20).view.planName == "Free"
      && LatestWindow(rows, catalog, 7).Some?
      && LatestWindow(rows, catalog, 7).value.plan.name == "Premium"
  {
    var catalog := [MembershipPlan(1, "Free", 50, 5), MembershipPlan(2, "Premium", 500, 50)];
    var rows := [ActivePlan(7, 1, 0, 30, ExpirationOf(0, 30)), ActivePlan(7, 2, 10, 60, ExpirationOf(10, 60))];
    assert FindPlan(catalog, 1) == Some(catalog[0]);
    assert FindPlan(catalog, 2) == Some(catalog[1]);
    assert rows[..1] == [rows[0]];
    assert JoinedRows(rows, catalog, 7)[0] == Window(rows[0], catalog[0]);
  }

  /**
   * Once the free plan of registration has lapsed, membership-plan answers
   * "expired" for a user whom shorten-url admits under the upgraded plan.
   */
  lemma ViewLapsedWhileGuardAdmits()
    ensures var catalog := [MembershipPlan(1, "Free", 50, 5), MembershipPlan(2, "Premium", 500, 50)];
            var rows := [ActivePlan(7, 1, 0, 30, ExpirationOf(0, 30)), ActivePlan(7, 2, 10, 60, ExpirationOf(10, 60))];
      && View(true, rows, catalog, [], 7, 31 * DAY) == PlanLapsed
      && Decide(rows, catalog, [], 7, 31 * DAY) == Admit
  {
    var catalog := [MembershipPlan(1, "Free", 50, 5), MembershipPlan(2, "Premium", 500, 50)];
    var rows := [ActivePlan(7, 1, 0, 30, ExpirationOf(0, 30)), ActivePlan(7, 2, 10, 60, ExpirationOf(10, 60))];
    assert FindPlan(catalog, 1) == Some(catalog[0]);
    assert FindPlan(catalog, 2) == Some(catalog[1]);
    assert rows[..1] == [rows[0]];
    assert JoinedRows(rows, catalog, 7)[0] == Window(rows[0], catalog[0]);
    assert LatestWindow(rows, catalog, 7) == Some(Window(rows[1], catalog[1]));
  }

  /** The view finds no plan exactly when the user row is missing or shorten-url would find no joined row. */
  lemma ViewNoPlan(userExists: bool, rows: seq<ActivePlan>, catalog: seq<MembershipPlan>,
                   urls: seq<UrlRow>, user: UserId, now: Time)
    ensures View(userExists, rows, catalog, urls, user, now) == NoPlanFound <==>
      !userExists || LatestWindow(rows, catalog, user).None?
  {
    JoinedMatchesLatest(rows, catalog, user);
  }
}
