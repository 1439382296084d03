# zyk-backend: the plan-and-quota engine

A model of the plan-and-quota engine of the zyk-backend URL shortener (`server.js`). Users register and get a free plan. Each short-code request goes through a quota guard: the user needs a live plan, and today's and this month's counts must be under the plan's daily and monthly limits. Plans change through a direct upgrade or through a payment whose signature checks out.

The MySQL tables `users`, `membership_plans`, `active_plans`, `urls` and `payments` are sequences of rows. They are fields of the class `Store.Store`, and each route handler is one sequential method or function over them:

- `Register` is `POST /api/register`. It inserts the user and the default plan: plan 1, 30 days.
- `ShortenUrl` is `POST /api/shorten-url`. It runs the quota guard and appends at most one `urls` row.
- `UpgradePlan` is `POST /api/upgrade-plan`. It appends an `active_plans` row and sets `users.membership_plan_id`.
- `MembershipPlanOf` is `GET /api/membership-plan`. It reads only.
- `Redirect` is `GET /api/redirect/:shortUrl`. It reads only.
- `CreateOrder` is `POST /api/create-order`. It inserts a pending payment.
- `VerifyPayment` is `POST /api/verify-payment`. It checks the signature, rewrites the plan rows and marks the payment paid.

The SQL queries are pure functions in their own modules:

- `Ledger`: the daily and monthly counts.
- `Registry`: the short-code lookup.
- `Tracker`: the joined latest plan row, the first plan row, and the UPDATEs of `active_plans` and `users`.
- `Quota`: the guard's chain of checks.
- `Membership`: the derived quota view.
- `Payments`: the payment rows.

The handlers take their outside inputs as parameters:

- `now`: one instant per request, in integer milliseconds, UTC.
- The four random bytes behind a short code.
- The bcrypt hash of the password.
- The Razorpay order id, or `None` when the order call failed.
- The HMAC-SHA256 (RFC 2104) of the signed text, as a function `hmac: string -> string` keyed by the shared secret.
- The caller's `userId`, which the identity token has already produced.

Two table constraints are modelled. A duplicate `urls.shortened_url` or `payments.payment_id` makes the statement fail with a 500 and write nothing.

Where the intended design and the code differ, the model follows the code, except `Store.Store.MembershipPlanOf` (see Findings):

- A user can have several `active_plans` rows, because `upgrade-plan` inserts and does not overwrite.
- shorten-url reads the caller's joined row with the newest activation date.
- verify-payment reads the first of the caller's rows the unordered query returns.
- membership-plan also reads the first joined row, while shorten-url reads the newest. After upgrade-plan the two handlers read different rows. membership-plan then shows the registration plan's name, limits and expiry, and it can answer 403 "expired" while shorten-url admits (`Membership.ViewReadsOldRowAfterUpgrade`, `Membership.ViewLapsedWhileGuardAdmits`).
- The expiry test is `<` in shorten-url and membership-plan. So a plan whose expiration is exactly now still admits. verify-payment uses `<=`.
- verify-payment checks only the client-supplied signature. It does not check that `planId` is in the catalog. `Tracker.RenewUnknownPlanLocksOut` shows what happens next, assuming no foreign key on `active_plans.plan_id` (the table definitions are not part of this model): shorten-url then finds no plan.
- A repeated verify-payment does not add days. It resets the window to `[now, now + daysActive days)`.

## Model

| member | source | states |
|---|---|---|
| `Store.Store.Register` | server.js:48-116 | The checks run in order: missing field, then taken username, then taken email. Each failure is a 400 that writes nothing. On success there is one new user with a fresh id and one new `active_plans` row: plan 1, activation now, 30 days, expiration now + 30 days. The urls and payments tables are untouched. |
| `Store.Store.ShortenUrl` | server.js:179-245 | A denial by the guard is the matching 403 and writes nothing. An admitted request whose code is already stored is a 500 and writes nothing. Otherwise exactly one row is appended: the url, the 8-hex-digit code, the caller and now. The code is returned, the redirect lookup then resolves it to the url, and the caller's counts stay within the plan's limits. No other table changes. |
| `Store.Store.UpgradePlan` | server.js:308-344 | An unknown plan id is a 404 that changes nothing. A known one appends the row (plan, now, days, now + days) and keeps the old rows. It sets `membership_plan_id` on the caller's user row only. If no earlier row of the caller is activated after now, shorten-url then consults the new row. |
| `Store.Store.MembershipPlanOf` | server.js:347-409 | The status is 200, 403 or 404. It is 404, with the no-plan message, exactly when the user row is missing or no plan row joins. It is 403, with the lapsed message, exactly when the user exists and the first joined row in table order expired strictly before now. A 200 carries that first row's plan name, limits, activation and expiration, remaining counts equal to max(limit − used, 0), each in [0, limit], and the floor of the whole days left. |
| `Store.Store.Redirect` | server.js:468-479 | The status is 200 or 404. It is 404 exactly when no row holds the code. A 200 carries the original url of a row that holds the code. |
| `Store.Store.CreateOrder` | server.js:483-516 | If the gateway call fails, nothing is written. If the payment id is already taken, the answer is 500 and nothing is written. Otherwise one pending row is appended with payment_id = order_id = the gateway id, the caller as owner, and the amount. |
| `Store.Store.VerifyPayment` | server.js:519-635 | A wrong signature is a 400 that writes nothing. A right one sets `active_plans` to `RenewTable` of the old table. The order's `payments` rows become successes of the caller, unless that would duplicate a payment id: then the answer is 500 and the plan change stays. The message is "renewed" exactly when the first row had expired (`<=`). |
| `Schema.FindPlan` | server.js:311-316 | It returns a catalog row with the requested id, and None exactly when no plan has that id. |
| `Ledger.CountToday` | server.js:205 | Today's count is at most the number of rows. |
| `Ledger.CountMonth` | server.js:206 | This month's count is at most the number of rows. |
| `Ledger.TodayWithinMonth` | server.js:204-206 | Today's count never exceeds this month's count. |
| `Ledger.CountAppend` | server.js:204-206 | An appended row adds one to a count exactly when it belongs to the user and falls in that day or month. |
| `Ledger.CountOtherUser` | server.js:207-208 | Another user's rows leave both counts unchanged. |
| `Ledger.NewYearRestartsMonth` | server.js:206 | A row created on 2023-12-31 counts toward the month on its own day and not on 2024-01-01. |
| `Ledger.CountNewRow` | server.js:231-233 | The row shorten-url inserts adds exactly one to both counts. |
| `Clock.SameDaySameMonth` | server.js:204-206 | Two instants with the same DATE have the same MONTH and YEAR. |
| `Clock.CalendarEpoch` | server.js:206 | Day 0 is January 1970. |
| `Clock.CalendarLeapDay` | server.js:206 | 2024-02-29 is in February 2024. |
| `Clock.CalendarLastDayOf2023` | server.js:206 | 2023-12-31 is in December 2023. |
| `Clock.CalendarFirstDayOf2024` | server.js:206 | 2024-01-01 is in January 2024. |
| `Hex.HexEncode` | server.js:228 | The code is two lower-case hex digits per byte. |
| `Hex.HexDecode` | server.js:228 | A decoded string has half the length of the text. |
| `Hex.DecodeEncode` | server.js:228 | Decoding the hex text gives back the random bytes. |
| `Hex.EncodeInjective` | server.js:228 | Different random bytes give different codes. |
| `Hex.ShortCodeShape` | server.js:228 | Four random bytes give an 8-character lower-case hex code. |
| `Registry.Lookup` | server.js:471-476 | The result is None exactly when no row holds the code. Otherwise it is the original url of a row that holds the code. |
| `Registry.LookupUnique` | server.js:471-477 | With unique codes, the lookup of a stored code is that row's url. |
| `Registry.InsertFresh` | server.js:231-238 | Inserting a fresh code keeps codes unique. The code then resolves to its url, and every other code resolves as before. |
| `Registry.LookupPrefix` | server.js:231-233 | Appending a row with another code leaves a lookup unchanged. |
| `Tracker.LatestWindow` | server.js:184-193 | It returns a caller's row that joins the catalog, with its plan, and no joined row of the caller has a later activation. It returns None exactly when none of the caller's rows joins. |
| `Tracker.FirstRowOf` | server.js:536-546 | It returns the caller's first row in table order, and None exactly when the caller has no row. |
| `Tracker.SetUserPlans` | server.js:549-551 | The table keeps its length. Each of the user's rows gets the new plan, activation and expiration and keeps its days_active. Other rows are unchanged. |
| `Tracker.RenewTableWindow` | server.js:544-606 | The UPDATE branches (expired, active) add no row and the INSERT branch adds exactly one. In all three cases the user ends with at least one row. Every user row carries planId, now and now + days. Updated rows keep days_active, an inserted row stores daysActive, and other users' rows are unchanged. |
| `Tracker.SetUserPlansIdempotent` | server.js:576-578 | Applying the UPDATE twice gives the same table as applying it once. |
| `Tracker.RenewTableIdempotent` | server.js:544-606 | A second verification at the same instant leaves the table as the first one left it. |
| `Tracker.LatestAfterAppend` | server.js:322-324 | A row of a known plan, appended with an activation no earlier than the user's other rows, is the row shorten-url consults. |
| `Tracker.RenewUnknownPlanLocksOut` | server.js:549-551 | A verified payment for a plan id that is not in the catalog leaves shorten-url with no joined row (assuming no foreign key on `active_plans.plan_id`). |
| `Tracker.SetMembershipPlan` | server.js:331-333 | Only the caller's user rows get `membership_plan_id = planId`. |
| `Quota.AdmitExactly` | server.js:189-225 | A request is admitted if and only if a joined row exists, now ≤ expiration, today < daily limit and month < monthly limit. |
| `Quota.NoRowDenied` | server.js:183-191 | Without a joined row the denial is "no active plan", whatever the counts. |
| `Quota.DailyBeforeMonthly` | server.js:215-225 | When today's count reaches the daily limit on a live plan, the denial is the daily one, even if the monthly limit is also reached. |
| `Quota.ExpiryBoundary` | server.js:198-200 | When expiration equals now and both counts are under their limits, shorten-url still admits and verify-payment counts the plan as expired. One millisecond later, shorten-url denies as expired. |
| `Quota.AdmitStaysWithinLimits` | server.js:215-233 | After an admitted insert, today's and this month's counts are at most the limits. |
| `Quota.DailyLimitHolds` | server.js:203-220 | On an unchanged window that is still live at the later instant, once the daily limit is reached every later request that day gets the daily denial. |
| `Quota.SameDayCounts` | server.js:204-205 | Today's count depends only on the calendar day of now. |
| `Membership.JoinedIndices` | server.js:357-366 | The positions of the caller's rows that join the catalog, each once, none other, in increasing table order. |
| `Membership.JoinedRows` | server.js:357-366 | The k-th window is the row at the k-th joined position with its plan, so the result keeps table order and repetitions. It holds exactly the caller's rows that join the catalog. |
| `Membership.GroupSize` | server.js:367-368 | A group holds at most all the joined rows. |
| `Membership.ViewBounds` | server.js:382-395 | A view with details shows the first joined row's plan name, limits and dates, and that row has not expired. The remaining counts are max(limit − used, 0), each in [0, limit]. daysRemaining is the floor of the whole days left and is non-negative. |
| `Membership.ViewLapsed` | server.js:382-384 | The view reports a lapsed plan exactly when the user exists and the first joined row expired strictly before now. |
| `Membership.ViewAgreesWithGuard` | server.js:375-395 | With at most one joined row, the view and the guard agree. "No plan" matches "no plan", "expired" matches "expired", and both counts remaining positive holds exactly when the guard admits. |
| `Membership.JoinedMatchesLatest` | server.js:357-366 | A joined row exists exactly when shorten-url finds a window, and that window is one of the joined rows. |
| `Membership.ViewReadsOldRowAfterUpgrade` | server.js:357-379 | After register then upgrade-plan, the view names the first row's plan (Free) while shorten-url reads the upgraded one (Premium). |
| `Membership.ViewLapsedWhileGuardAdmits` | server.js:357-384 | Once the free plan has lapsed and the upgrade is live, the view reports a lapsed plan while shorten-url admits. |
| `Membership.ViewNoPlan` | server.js:375-377 | The view finds no plan exactly when the user is missing or no row joins. |
| `Membership.ViewAsWrittenSingleRowGroup` | server.js:348-368 | When the first group has one row, the query as written gives the intended view. |
| `Membership.ViewAsWrittenDoubleCounts` | server.js:348-368 | Take a user with two rows that verify-payment has made identical, one url today, and a daily limit of 5. The query as written reports 3 remaining; the intended view reports 4. |
| `Payments.MarkPaid` | server.js:560-562 | The table keeps its length. The order's rows become (paymentId, orderId, caller, amount, success, now). Other rows are unchanged. |
| `Payments.InsertPendingUnique` | server.js:505-507 | Inserting a fresh order id keeps payment ids unique. |
| `Payments.MarkPaidIdempotent` | server.js:615-617 | Marking an order paid twice at the same instant gives the same table as marking it once. |
| `Payments.PendingThenPaid` | server.js:497-507 | A new order's row starts pending. Verification turns it into a success and leaves the older rows unchanged. |

## Findings

| source | as written | input that shows it | evidently intended | confidence | as-written member | corrected member |
|---|---|---|---|---|---|---|
| server.js:348-368 | The COUNTs run over `active_plans ⋈ users ⟕ urls`, grouped by plan name, the limits and the window dates. When several `active_plans` rows of the user share a group, every url row is counted once per such row. | A user registers (plan 1), calls upgrade-plan for plan 1 (a second row), then verify-payment for plan 1 (both rows get the same window). With one url created today and a daily limit of 5, the answer is urlsRemainingToday = 3. | Each url row counted once: urlsRemainingToday = 4. | medium, not executed | `Membership.ViewAsWritten` (shown by `Membership.ViewAsWrittenDoubleCounts`) | `Membership.View` (proved in `Membership.ViewBounds`, `Membership.ViewAgreesWithGuard`; used by `Store.Store.MembershipPlanOf`) |

## Left out

- HTTP plumbing: Express routing, body parsing, CORS and `app.listen` (server.js:1-24, 640-642). A response is a status code plus a message kind.
- The MySQL connection and its errors (server.js:27-34). Failed statements are not modelled, except the two uniqueness violations named above. So no request ends half-done, except a verify-payment whose payments UPDATE fails. That case is modelled.
- Login, bcrypt and JWT (server.js:121-160): these are foreign libraries. The bcrypt hash is a parameter of `Register`, and the caller's id stands in for the verified token.
- API-key generation (server.js:163-176): it is only a random token and an insert.
- `GET /api/plans` (server.js:457-464): it returns the catalog unchanged and makes no decision.
- The Razorpay call (server.js:37-40, 485-494): this is a network call. Its order id is an input. `Store.Store.CreateOrder` returns the requested amount, assuming the gateway echoes `amount * 100` back.
- `Store.Store.CreateOrder`: the `user_id` field of the request body is ignored, as in the code, which stores `req.userId`.
- HMAC-SHA256 and `crypto.randomBytes` (server.js:522-525, 228): these are foreign crypto. They are an uninterpreted function parameter and a byte-sequence parameter.
- Calendar details: all calendar days are UTC. JavaScript `setDate` is taken as exactly `days * 86 400 000` ms, ignoring DST. MySQL `DATETIME` rounding to whole seconds and the server timezone of `CURDATE()` are not modelled. Within one request, all the `new Date()` calls are the same instant `now`.
- Untyped request fields: `daysActive`, `planId` and `amount` are integers. `username`, `email` and `password` are strings, and a missing or `null` one is modelled as the empty string, which is the only falsy string (server.js:52). JavaScript coercion of strings or `undefined` (for example a day count sent as a string, which JavaScript would concatenate) is not modelled.
- String equality is exact. MySQL's default collation would also match usernames, emails and codes that differ only in letter case.
- Queries without an ordering (verify-payment's plan row, membership-plan's result group) take the first row in insertion order. Ties in shorten-url's newest-activation order go to the later-inserted row. MySQL leaves both unspecified.
- `Store.Store.MembershipPlanOf`: it uses the corrected view (see Findings), not the double-counting query. It covers the null checks on the dates (server.js:382) only through the expiry test, because a modelled row always has both dates.
- `Store.Store.UpgradePlan`: its promise that shorten-url consults the new row holds only when no earlier row of the user has an activation date after `now`.
- Concurrency and check-then-act races between requests: the model is sequential.
- The commented-out handlers (server.js:247-304, 413-453), `ecosystem.config.js` (process-manager settings) and `models/payment.js` (a schema without behaviour, used only for the payment fields).
