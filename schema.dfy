/** The rows of the five MySQL tables the handlers read and write. */
module Schema {
  import opened Wrappers
  import opened Clock

  type UserId = nat
  type PlanId = int

  /** `users`: membershipPlanId is None until upgrade-plan first sets it. */
  datatype User = User(userId: UserId, username: string, email: string, password: string,
                       membershipPlanId: Option<PlanId>)

  /** `membership_plans`: urlLimit is the monthly limit. */
  datatype MembershipPlan = MembershipPlan(planId: PlanId, name: string, urlLimit: int, dailyUrlLimit: int)

  /** `active_plans`: a user may have several rows. */
  datatype ActivePlan = ActivePlan(userId: UserId, planId: PlanId, activationDate: Time,
                                   daysActive: int, expirationDate: Time)

  /** `urls`: createdAt is the database's insertion time. */
  datatype UrlRow = UrlRow(originalUrl: string, shortenedUrl: string, userId: UserId, createdAt: Time)

  datatype PaymentStatus = Pending | Success

  /** `payments`: paymentId is unique. */
  datatype Payment = Payment(paymentId: string, orderId: string, userId: UserId, amount: int,
                             paymentStatus: PaymentStatus, createdAt: Time)

  /** The catalog is keyed by plan id and its limits are non-negative. */
  ghost predicate CatalogValid(catalog: seq<MembershipPlan>)
  {
    && (forall i, j :: 0 <= i < j < |catalog| ==> catalog[i].planId != catalog[j].planId)
    && (forall p :: p in catalog ==> p.urlLimit >= 0 && p.dailyUrlLimit >= 0)
  }

  /** The catalog row with a given plan id, the first if several. */
  function FindPlan(catalog: seq<MembershipPlan>, planId: PlanId): (r: Option<MembershipPlan>)
    ensures r.Some? ==> r.value in catalog && r.value.planId == planId
    ensures r.None? <==> forall p :: p in catalog ==> p.planId != planId
  {
    if catalog == [] then None
    else if catalog[0].planId == planId then Some(catalog[0])
    else FindPlan(catalog[1..], planId)
  }
}
