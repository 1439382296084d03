/**
 * The active-plan tracker: how the handlers read and rewrite the
 * `active_plans` table.
 */
module Tracker {
  import opened Wrappers
  import opened Clock
  import opened Schema

  /** An `active_plans` row joined to its `membership_plans` row. */
  datatype Window = Window(row: ActivePlan, plan: MembershipPlan)

  /** The row is the caller's and survives the inner join with the catalog on plan id. */
  predicate Joins(catalog: seq<MembershipPlan>, r: ActivePlan, user: UserId)
  {
    r.userId == user && FindPlan(catalog, r.planId).Some?
  }

  /**
   * The row shorten-url consults: the caller's joined row with the latest
   * activation date (newest first, one row). Among rows
   * with equal activation dates the later-inserted one is taken.
   */
  function LatestWindow(rows: seq<ActivePlan>, catalog: seq<MembershipPlan>, user: UserId): (w: Option<Window>)
    ensures w.Some? ==> w.value.row in rows && Joins(catalog, w.value.row, user)
                        && FindPlan(catalog, w.value.row.planId) == Some(w.value.plan)
    ensures w.Some? ==> forall r :: r in rows && Joins(catalog, r, user) ==> r.activationDate <= w.value.row.activationDate
    ensures w.None? <==> forall r :: r in rows ==> !Joins(catalog, r, user)
  {
    if rows == [] then None
    else
      var init := rows[..|rows| - 1];
      var last := rows[|rows| - 1];
      assert rows == init + [last];
      var rest := LatestWindow(init, catalog, user);
      if Joins(catalog, last, user) && (rest.None? || rest.value.row.activationDate <= last.activationDate)
      then Some(Window(last, FindPlan(catalog, last.planId).value))
      else rest
  }

  /** The row verify-payment inspects: the caller's first row in table order. */
  function FirstRowOf(rows: seq<ActivePlan>, user: UserId): (r: Option<ActivePlan>)
    ensures r.None? <==> forall i :: 0 <= i < |rows| ==> rows[i].userId != user
    ensures r.Some? ==> exists i :: 0 <= i < |rows| && rows[i] == r.value && r.value.userId == user
                              && forall k :: 0 <= k < i ==> rows[k].userId != user
  {
    if rows == [] then None
    else if rows[0].userId == user then Some(rows[0])
    else
      assert forall i :: 1 <= i < |rows| ==> rows[i] == rows[1..][i - 1];
      var rest := FirstRowOf(rows[1..], user);
      if rest.Some? then
        var i :| 0 <= i < |rows| - 1 && rows[1..][i] == rest.value && rest.value.userId == user
                 && forall k :: 0 <= k < i ==> rows[1..][k].userId != user;
        assert rows[i + 1] == rest.value;
        rest
      else rest
  }

  /** A row after verify-payment's UPDATE: new plan, activation and expiration. */
  function Overwritten(r: ActivePlan, planId: PlanId, activation: Time, expiration: Time): ActivePlan
  {
    r.(planId := planId, activationDate := activation, expirationDate := expiration)
  }

  /**
   * verify-payment's UPDATE of `active_plans`, keyed by user id: every row of
   * the user is overwritten (days_active kept),
   * every other row is kept, and no row is added or removed.
   */
  function SetUserPlans(rows: seq<ActivePlan>, user: UserId, planId: PlanId, activation: Time, expiration: Time)
    : (r: seq<ActivePlan>)
    ensures |r| == |rows|
    ensures forall i :: 0 <= i < |rows| && rows[i].userId == user ==> r[i] == Overwritten(rows[i], planId, activation, expiration)
    ensures forall i :: 0 <= i < |rows| && rows[i].userId != user ==> r[i] == rows[i]
  {
    if rows == [] then []
    else
      var head := if rows[0].userId == user then Overwritten(rows[0], planId, activation, expiration) else rows[0];
      var tail := SetUserPlans(rows[1..], user, planId, activation, expiration);
      assert forall i :: 1 <= i < |rows| ==> rows[i] == rows[1..][i - 1] && ([head] + tail)[i] == tail[i - 1];
      [head] + tail
  }

  /**
   * The `active_plans` table after a verified payment: the UPDATE above when the
   * user has a row (expired or not: both branches write the same), else
   * an insert of one new row.
   */
  function RenewTable(rows: seq<ActivePlan>, user: UserId, planId: PlanId, daysActive: int, now: Time)
    : seq<ActivePlan>
  {
    if FirstRowOf(rows, user).Some? then SetUserPlans(rows, user, planId, now, ExpirationOf(now, daysActive))
    else rows + [ActivePlan(user, planId, now, daysActive, ExpirationOf(now, daysActive))]
  }

  /**
   * After a verified payment the table has grown by one row exactly when the
   * user had none before; the user has at least one row, every one of them
   * carries the paid plan and the window [now, now + daysActive days), rows of
   * the UPDATE keep their days_active and the inserted row stores daysActive,
   * and every row of another user is where it was.
   */
  lemma RenewTableWindow(rows: seq<ActivePlan>, user: UserId, planId: PlanId, daysActive: int, now: Time)
    ensures var t := RenewTable(rows, user, planId, daysActive, now);
      && |t| == |rows| + (if exists i :: 0 <= i < |rows| && rows[i].userId == user then 0 else 1)
      && (exists i :: 0 <= i < |t| && t[i].userId == user)
      && (forall i :: 0 <= i < |t| && t[i].userId == user ==>
            t[i].planId == planId && t[i].activationDate == now && t[i].expirationDate == ExpirationOf(now, daysActive))
      && (forall i :: 0 <= i < |rows| ==> t[i].userId == rows[i].userId)
      && (forall i :: 0 <= i < |rows| && rows[i].userId == user ==> t[i].daysActive == rows[i].daysActive)
      && (forall i :: |rows| <= i < |t| ==> t[i] == ActivePlan(user, planId, now, daysActive, ExpirationOf(now, daysActive)))
      && (forall i :: 0 <= i < |rows| && rows[i].userId != user ==> t[i] == rows[i])
  {
    var t := RenewTable(rows, user, planId, daysActive, now);
    if FirstRowOf(rows, user).Some? {
      var i :| 0 <= i < |rows| && rows[i].userId == user;
      assert t[i].userId == user;
    } else {
      assert t[|rows|].userId == user;
    }
  }

  /** Overwriting twice with the same values is overwriting once. */
  lemma SetUserPlansIdempotent(rows: seq<ActivePlan>, user: UserId, planId: PlanId, activation: Time, expiration: Time)
    ensures var once := SetUserPlans(rows, user, planId, activation, expiration);
      SetUserPlans(once, user, planId, activation, expiration) == once
  {
    var once := SetUserPlans(rows, user, planId, activation, expiration);
    var twice := SetUserPlans(once, user, planId, activation, expiration);
    assert forall i :: 0 <= i < |rows| ==> once[i].userId == rows[i].userId;
    assert forall i :: 0 <= i < |rows| ==> twice[i] == once[i];
  }

  /**
   * Verifying the same payment a second time, at the same instant, leaves the
   * table as the first verification left it: it never extends the window twice.
   */
  lemma RenewTableIdempotent(rows: seq<ActivePlan>, user: UserId, planId: PlanId, daysActive: int, now: Time)
    ensures var once := RenewTable(rows, user, planId, daysActive, now);
      RenewTable(once, user, planId, daysActive, now) == once
  {
    var once := RenewTable(rows, user, planId, daysActive, now);
    var expiration := ExpirationOf(now, daysActive);
    RenewTableWindow(rows, user, planId, daysActive, now);
    assert FirstRowOf(once, user).Some?;
    var twice := SetUserPlans(once, user, planId, now, expiration);
    forall i | 0 <= i < |once| ensures twice[i] == once[i] {
      if once[i].userId == user {
        assert once[i].planId == planId && once[i].activationDate == now && once[i].expirationDate == expiration;
      }
    }
  }

  /**
   * What upgrade-plan relies on: once a row of a known plan is appended with an
   * activation date no earlier than any of the user's rows, shorten-url
   * consults that row.
   */
  lemma {:induction false} LatestAfterAppend(rows: seq<ActivePlan>, catalog: seq<MembershipPlan>, row: ActivePlan,
                                             plan: MembershipPlan)
    requires FindPlan(catalog, row.planId) == Some(plan)
    requires forall r :: r in rows && r.userId == row.userId ==> r.activationDate <= row.activationDate
    ensures LatestWindow(rows + [row], catalog, row.userId) == Some(Window(row, plan))
  {
    var t := rows + [row];
    assert t[..|t| - 1] == rows;
    var rest := LatestWindow(rows, catalog, row.userId);
    assert rest.Some? ==> rest.value.row in rows;
  }

  /**
   * A verified payment for a plan id that is not in the catalog overwrites every
   * row of the user with it, so the join drops them all and shorten-url finds
   * no plan.
   */
  lemma RenewUnknownPlanLocksOut(rows: seq<ActivePlan>, catalog: seq<MembershipPlan>, user: UserId,
                                 planId: PlanId, daysActive: int, now: Time)
    requires FindPlan(catalog, planId).None?
    ensures LatestWindow(RenewTable(rows, user, planId, daysActive, now), catalog, user).None?
  {
    var t := RenewTable(rows, user, planId, daysActive, now);
    RenewTableWindow(rows, user, planId, daysActive, now);
    forall r | r in t ensures !Joins(catalog, r, user) {
      var i :| 0 <= i < |t| && t[i] == r;
    }
  }

  /** upgrade-plan's UPDATE of `users`: the caller's rows record the new plan id. */
  function SetMembershipPlan(users: seq<User>, user: UserId, planId: PlanId): (r: seq<User>)
    ensures |r| == |users|
    ensures forall i :: 0 <= i < |users| && users[i].userId == user ==> r[i] == users[i].(membershipPlanId := Some(planId))
    ensures forall i :: 0 <= i < |users| && users[i].userId != user ==> r[i] == users[i]
  {
    if users == [] then []
    else
      var head := if users[0].userId == user then users[0].(membershipPlanId := Some(planId)) else users[0];
      var tail := SetMembershipPlan(users[1..], user, planId);
      assert forall i :: 1 <= i < |users| ==> users[i] == users[1..][i - 1] && ([head] + tail)[i] == tail[i - 1];
      [head] + tail
  }
}
