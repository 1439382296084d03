/**
 * The route handlers of server.js as sequential methods over the tables.
 * Time (`now`), the random bytes of a short code, the bcrypt hash, the
 * Razorpay order and the HMAC are inputs; the identity token has already
 * been turned into `userId`.
 */
module Store {
  import opened Wrappers
  import opened Clock
  import opened Hex
  import opened Schema
  import opened Ledger
  import opened Registry
  import opened Tracker
  import opened Quota
  import opened Membership
  import opened Payments

  /** The plan every new user starts on, and its length in days. */
  const FREE_PLAN: PlanId := 1
  const FREE_DAYS: int := 30

  /** What a handler answers, by message. */
  datatype Message =
    | MissingFields | UsernameExists | EmailExists | Registered
    | NoActivePlan | PlanExpired | DailyLimitReached | MonthlyLimitReached
    | ShortenFailed | Shortened(shortenedUrl: string)
    | PlanNotFound | PlanUpgraded(plan: MembershipPlan)
    | NoMembershipPlan | MembershipLapsed | MembershipDetails(view: PlanView)
    | UrlNotFound | Redirected(originalUrl: string)
    | OrderFailed | SavePaymentFailed | OrderCreated(orderId: string, amount: int)
    | VerificationFailed | PaymentStoreFailed | PlanRenewed | PaymentUpgraded

  datatype Response = Response(status: nat, message: Message)

  /** The 403 answer for each denial of the quota guard. */
  function DenialResponse(v: Verdict): Response
    requires v != Admit
  {
    match v
    case DenyNoPlan => Response(403, NoActivePlan)
    case DenyExpired => Response(403, PlanExpired)
    case DenyDaily => Response(403, DailyLimitReached)
    case DenyMonthly => Response(403, MonthlyLimitReached)
  }

  /** The membership-plan answer for each outcome of the view. */
  function ViewResponse(v: ViewResult): Response
  {
    match v
    case NoPlanFound => Response(404, NoMembershipPlan)
    case PlanLapsed => Response(403, MembershipLapsed)
    case Details(view) => Response(200, MembershipDetails(view))
  }

  predicate UsernameTaken(users: seq<User>, username: string)
  {
    exists i :: 0 <= i < |users| && users[i].username == username
  }

  predicate EmailTaken(users: seq<User>, email: string)
  {
    exists i :: 0 <= i < |users| && users[i].email == email
  }

  predicate UserExists(users: seq<User>, user: UserId)
  {
    exists i :: 0 <= i < |users| && users[i].userId == user
  }

  /** The message signed by the payment gateway: order id, a bar, payment id. */
  function SignedBody(orderId: string, paymentId: string): string
  {
    orderId + "|" + paymentId
  }

  class Store {
    /** `membership_plans`: read, never written. */
    const catalog: seq<MembershipPlan>
    var users: seq<User>
    /** The AUTO_INCREMENT counter of `users.user_id`. */
    var nextUserId: UserId
    var activePlans: seq<ActivePlan>
    var urls: seq<UrlRow>
    var payments: seq<Payment>

    /** The table constraints the handlers rely on. */
    ghost predicate Valid()
      reads this
    {
      && CatalogValid(catalog)
      && CodesUnique(urls)
      && PaymentIdsUnique(payments)
      && (forall u :: u in users ==> u.userId < nextUserId)
    }

    constructor (plans: seq<MembershipPlan>)
      requires CatalogValid(plans)
      ensures Valid()
      ensures catalog == plans && users == [] && nextUserId == 1
      ensures activePlans == [] && urls == [] && payments == []
    {
      catalog := plans;
      users, nextUserId := [], 1;
      activePlans, urls, payments := [], [], [];
    }

    /**
     * `POST /api/register`: reject missing fields, then a taken username, then a
     * taken email (each 400, nothing written); otherwise insert the user and
     * its free plan, 30 days from now.
     */
    method Register(username: string, email: string, password: string, hashedPassword: string, now: Time)
      returns (resp: Response)
      requires Valid()
      modifies this
      ensures Valid()
      ensures urls == old(urls) && payments == old(payments)
      ensures
        if username == "" || email == "" || password == "" then
          resp == Response(400, MissingFields) && unchanged(this)
        else if UsernameTaken(old(users), username) then
          resp == Response(400, UsernameExists) && unchanged(this)
        else if EmailTaken(old(users), email) then
          resp == Response(400, EmailExists) && unchanged(this)
        else
          && resp == Response(201, Registered)
          && users == old(users) + [User(old(nextUserId), username, email, hashedPassword, None)]
          && nextUserId == old(nextUserId) + 1
          && activePlans == old(activePlans) + [ActivePlan(old(nextUserId), FREE_PLAN, now, FREE_DAYS,
                                                           ExpirationOf(now, FREE_DAYS))]
    {
      if username == "" || email == "" || password == "" {
        return Response(400, MissingFields);
      }
      if UsernameTaken(users, username) {
        return Response(400, UsernameExists);
      }
      if EmailTaken(users, email) {
        return Response(400, EmailExists);
      }
      var userId := nextUserId;
      users := users + [User(userId, username, email, hashedPassword, None)];
      nextUserId := nextUserId + 1;
      activePlans := activePlans + [ActivePlan(userId, FREE_PLAN, now, FREE_DAYS, ExpirationOf(now, FREE_DAYS))];
      resp := Response(201, Registered);
    }

    /**
     * `POST /api/shorten-url`: the quota guard decides; only an admitted request
     * whose code is not yet taken appends a url row (one row: the caller's url,
     * the code, the caller, now) and returns the code. The redirect lookup then
     * resolves the code to the url, and the caller's counts stay within the
     * plan's limits.
     */
    method ShortenUrl(userId: UserId, url: string, random: seq<byte>, now: Time) returns (resp: Response)
      requires Valid()
      requires |random| == CODE_BYTES
      modifies this
      ensures Valid()
      ensures users == old(users) && nextUserId == old(nextUserId)
      ensures activePlans == old(activePlans) && payments == old(payments)
      ensures
        var verdict := Decide(old(activePlans), catalog, old(urls), userId, now);
        var code := HexEncode(random);
        if verdict != Admit then
          resp == DenialResponse(verdict) && urls == old(urls)
        else if CodeInUse(old(urls), code) then
          resp == Response(500, ShortenFailed) && urls == old(urls)
        else
          && resp == Response(200, Shortened(code))
          && urls == old(urls) + [UrlRow(url, code, userId, now)]
          && Redirect(code) == Response(200, Redirected(url))
          && var w := LatestWindow(activePlans, catalog, userId).value;
             CountToday(urls, userId, now) <= w.plan.dailyUrlLimit && CountMonth(urls, userId, now) <= w.plan.urlLimit
    {
      var window := LatestWindow(activePlans, catalog, userId);
      if window.None? {
        return Response(403, NoActivePlan);
      }
      if ExpiredForShorten(window.value.row.expirationDate, now) {
        return Response(403, PlanExpired);
      }
      var countToday := CountToday(urls, userId, now);
      var countMonth := CountMonth(urls, userId, now);
      if countToday >= window.value.plan.dailyUrlLimit {
        return Response(403, DailyLimitReached);
      }
      if countMonth >= window.value.plan.urlLimit {
        return Response(403, MonthlyLimitReached);
      }
      var code := HexEncode(random);
      if CodeInUse(urls, code) {
        return Response(500, ShortenFailed);
      }
      var row := UrlRow(url, code, userId, now);
      InsertFresh(urls, row);
      AdmitStaysWithinLimits(activePlans, catalog, urls, userId, now, url, code);
      urls := urls + [row];
      resp := Response(200, Shortened(code));
    }

    /**
     * `POST /api/upgrade-plan`: an unknown plan is a 404 that writes nothing; a
     * known plan appends a row [now, now + daysActive days) beside the old ones,
     * which shorten-url consults from then on, and records the plan on the user.
     */
    method UpgradePlan(userId: UserId, planId: PlanId, daysActive: int, now: Time) returns (resp: Response)
      requires Valid()
      modifies this
      ensures Valid()
      ensures urls == old(urls) && payments == old(payments) && nextUserId == old(nextUserId)
      ensures
        match FindPlan(catalog, planId)
        case None => resp == Response(404, PlanNotFound) && unchanged(this)
        case Some(plan) =>
          && resp == Response(200, PlanUpgraded(plan))
          && activePlans == old(activePlans) + [ActivePlan(userId, planId, now, daysActive, ExpirationOf(now, daysActive))]
          && users == SetMembershipPlan(old(users), userId, planId)
          && ((forall r :: r in old(activePlans) && r.userId == userId ==> r.activationDate <= now) ==>
                LatestWindow(activePlans, catalog, userId) == Some(Window(activePlans[|activePlans| - 1], plan)))
    {
      var found := FindPlan(catalog, planId);
      if found.None? {
        return Response(404, PlanNotFound);
      }
      var row := ActivePlan(userId, planId, now, daysActive, ExpirationOf(now, daysActive));
      if forall r :: r in activePlans && r.userId == userId ==> r.activationDate <= now {
        LatestAfterAppend(activePlans, catalog, row, found.value);
      }
      activePlans := activePlans + [row];
      users := SetMembershipPlan(users, userId, planId);
      resp := Response(200, PlanUpgraded(found.value));
    }

    /**
     * `GET /api/membership-plan`: 404 without a joined row, 403 when the first
     * one has expired (strictly before now), else that row's plan name, limits
     * and dates, what remains of the limits in [0, limit], and the whole days
     * left.
     */
    function MembershipPlanOf(userId: UserId, now: Time): (resp: Response)
      requires Valid()
      reads this
      ensures resp.status == 200 <==> resp.message.MembershipDetails?
      ensures resp.status == 200 ==>
        var v := resp.message.view;
        && 0 <= v.urlsRemainingToday <= v.dailyUrlLimit
        && 0 <= v.urlsRemainingMonth <= v.urlLimit
        && v.urlsRemainingToday == Remaining(v.dailyUrlLimit, CountToday(urls, userId, now))
        && v.urlsRemainingMonth == Remaining(v.urlLimit, CountMonth(urls, userId, now))
        && 0 <= v.daysRemaining
        && v.daysRemaining * DAY <= v.expirationDate - now < (v.daysRemaining + 1) * DAY
      ensures resp.status == 200 ==>
        var v := resp.message.view;
        var j := JoinedRows(activePlans, catalog, userId);
        && UserExists(users, userId) && j != [] && now <= j[0].row.expirationDate
        && v.planName == j[0].plan.name && v.urlLimit == j[0].plan.urlLimit && v.dailyUrlLimit == j[0].plan.dailyUrlLimit
        && v.activationDate == j[0].row.activationDate && v.expirationDate == j[0].row.expirationDate
      ensures resp.status == 200 || resp.status == 403 || resp.status == 404
      ensures resp.status == 403 ==> resp.message == MembershipLapsed
      ensures resp.status == 404 ==> resp.message == NoMembershipPlan
      ensures resp.status == 404 <==> !UserExists(users, userId) || LatestWindow(activePlans, catalog, userId).None?
      ensures var j := JoinedRows(activePlans, catalog, userId);
        resp.status == 403 <==> UserExists(users, userId) && j != [] && j[0].row.expirationDate < now
    {
      ViewBounds(UserExists(users, userId), activePlans, catalog, urls, userId, now);
      ViewLapsed(UserExists(users, userId), activePlans, catalog, urls, userId, now);
      ViewNoPlan(UserExists(users, userId), activePlans, catalog, urls, userId, now);
      ViewResponse(View(UserExists(users, userId), activePlans, catalog, urls, userId, now))
    }

    /** `GET /api/redirect/:shortUrl`: the url stored under the code, or 404. */
    function Redirect(shortUrl: string): (resp: Response)
      reads this
      ensures resp.status == 200 || resp.status == 404
      ensures resp.status == 404 <==> !CodeInUse(urls, shortUrl)
      ensures resp.status == 200 ==>
        exists i :: 0 <= i < |urls| && urls[i].shortenedUrl == shortUrl && resp == Response(200, Redirected(urls[i].originalUrl))
    {
      match Lookup(urls, shortUrl)
      case None => Response(404, UrlNotFound)
      case Some(originalUrl) => Response(200, Redirected(originalUrl))
    }

    /**
     * `POST /api/create-order`: without a gateway order nothing is written;
     * otherwise a pending payment of the caller, keyed by the order id, is
     * inserted unless that payment id is already taken.
     */
    method CreateOrder(userId: UserId, amount: int, gatewayOrderId: Option<string>, now: Time)
      returns (resp: Response)
      requires Valid()
      modifies this
      ensures Valid()
      ensures users == old(users) && nextUserId == old(nextUserId) && activePlans == old(activePlans) && urls == old(urls)
      ensures
        match gatewayOrderId
        case None => resp == Response(500, OrderFailed) && payments == old(payments)
        case Some(orderId) =>
          if PaymentIdInUse(old(payments), orderId) then
            resp == Response(500, SavePaymentFailed) && payments == old(payments)
          else
            resp == Response(200, OrderCreated(orderId, amount))
            && payments == old(payments) + [PendingPayment(orderId, userId, amount, now)]
    {
      if gatewayOrderId.None? {
        return Response(500, OrderFailed);
      }
      var orderId := gatewayOrderId.value;
      if PaymentIdInUse(payments, orderId) {
        return Response(500, SavePaymentFailed);
      }
      InsertPendingUnique(payments, orderId, userId, amount, now);
      payments := payments + [PendingPayment(orderId, userId, amount, now)];
      resp := Response(200, OrderCreated(orderId, amount));
    }

    /**
     * `POST /api/verify-payment`: a signature other than the HMAC of
     * `orderId|paymentId` is a 400 that writes nothing. A matching one rewrites
     * the caller's plan rows (or inserts one), then marks the order's payments
     * successful; if that would duplicate a payment id, the plan change stays
     * and the answer is 500.
     */
    method VerifyPayment(userId: UserId, paymentId: string, orderId: string, signature: string, planId: PlanId,
                         daysActive: int, amount: int, hmac: string -> string, now: Time)
      returns (resp: Response)
      requires Valid()
      modifies this
      ensures Valid()
      ensures users == old(users) && nextUserId == old(nextUserId) && urls == old(urls)
      ensures
        if hmac(SignedBody(orderId, paymentId)) != signature then
          resp == Response(400, VerificationFailed) && unchanged(this)
        else
          && activePlans == RenewTable(old(activePlans), userId, planId, daysActive, now)
          && var paid := MarkPaid(old(payments), orderId, paymentId, userId, amount, now);
             if PaymentIdsUnique(paid) then
               && payments == paid
               && var first := FirstRowOf(old(activePlans), userId);
                  resp == Response(200, if first.Some? && ExpiredForRenewal(first.value.expirationDate, now)
                                        then PlanRenewed else PaymentUpgraded)
             else
               payments == old(payments) && resp == Response(500, PaymentStoreFailed)
    {
      if hmac(SignedBody(orderId, paymentId)) != signature {
        return Response(400, VerificationFailed);
      }
      var expiration := ExpirationOf(now, daysActive);
      var first := FirstRowOf(activePlans, userId);
      var message;
      if first.Some? {
        if ExpiredForRenewal(first.value.expirationDate, now) {
          activePlans := SetUserPlans(activePlans, userId, planId, now, expiration);
          message := PlanRenewed;
        } else {
          activePlans := SetUserPlans(activePlans, userId, planId, now, expiration);
          message := PaymentUpgraded;
        }
      } else {
        activePlans := activePlans + [ActivePlan(userId, planId, now, daysActive, expiration)];
        message := PaymentUpgraded;
      }
      var paid := MarkPaid(payments, orderId, paymentId, userId, amount, now);
      if !PaymentIdsUnique(paid) {
        return Response(500, PaymentStoreFailed);
      }
      payments := paid;
      resp := Response(200, message);
    }
  }
}
