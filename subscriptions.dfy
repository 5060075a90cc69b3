/**
  The two nightly subscription sweeps: `check_expired_subscriptions`
  (app/tasks.py:207-224) and `run_daily_renewals` (app/tasks.py:520-555).
  Dates and timestamps are day or second counts.
*/
module Subscriptions {
  import opened Wrappers
  import opened Text
  import opened Plans

  /** The user columns the sweeps read or write. */
  datatype User = User(
    email: string,
    status: string,
    plan: Option<string>,
    provider: Option<string>,
    token: Option<string>,
    expiresAt: Option<int>,
    nextBilling: Option<int>)

  /** Selected by the expiry sweep: active with an expiry date in the past. */
  predicate IsExpired(u: User, now: int) {
    u.status == "active" && u.expiresAt.Some? && u.expiresAt.value < now
  }

  /** What the expiry sweep writes to a selected user. */
  function Expire(u: User): User {
    u.(status := "inactive", plan := None)
  }

  /** The user table after the expiry sweep. */
  function ExpireAll(users: seq<User>, now: int): seq<User> {
    seq(|users|, i requires 0 <= i < |users| => if IsExpired(users[i], now) then Expire(users[i]) else users[i])
  }

  /**
    After the sweep no user is active with a past expiry date; a user is
    changed only if selected, and then only in status and plan.
  */
  lemma ExpirySweepSound(users: seq<User>, now: int)
    ensures |ExpireAll(users, now)| == |users|
    ensures forall i :: 0 <= i < |users| ==> !IsExpired(ExpireAll(users, now)[i], now)
    ensures forall i :: 0 <= i < |users| && !IsExpired(users[i], now) ==> ExpireAll(users, now)[i] == users[i]
    ensures forall i :: 0 <= i < |users| ==>
      var u, v := users[i], ExpireAll(users, now)[i];
      v.email == u.email && v.provider == u.provider && v.token == u.token &&
      v.expiresAt == u.expiresAt && v.nextBilling == u.nextBilling
  {
  }

  /** Sweeping twice at the same time is sweeping once. */
  lemma ExpiryIdempotent(users: seq<User>, now: int)
    ensures ExpireAll(ExpireAll(users, now), now) == ExpireAll(users, now)
  {
  }

  /** Selected by the renewal sweep: billed through Fedapay, due today. */
  predicate DueForRenewal(u: User, today: int) {
    u.provider == Some("fedapay") && u.nextBilling == Some(today)
  }

  /** The plan the sweep renews: the monthly plan of the user's plan name; a missing name formats as `None`. */
  function RenewalPlanId(u: User): string {
    (if u.plan.Some? then u.plan.value else "None") + "_monthly"
  }

  /** The sweep calls the payment provider for this due user. */
  predicate WillCharge(u: User) {
    LookupPlan(RenewalPlanId(u)).Some? && Truthy(u.token)
  }

  /**
    What the renewal sweep writes to a due user. `charge` stands for the
    payment request and whether it came back approved.
  */
  function RenewOne(u: User, today: int, charge: (User, PlanInfo) -> bool): User {
    match LookupPlan(RenewalPlanId(u))
    case None => u.(status := "inactive")
    case Some(info) =>
      if !Truthy(u.token) then u.(status := "inactive")
      else if charge(u, info) then u.(nextBilling := Some(today + info.durationDays))
      else u.(status := "inactive", plan := None, nextBilling := None)
  }

  /** The user table after the renewal sweep. */
  function RenewAll(users: seq<User>, today: int, charge: (User, PlanInfo) -> bool): seq<User> {
    seq(|users|, i requires 0 <= i < |users| =>
      if DueForRenewal(users[i], today) then RenewOne(users[i], today, charge) else users[i])
  }

  /**
    A user the sweep charges is not charged again the same day: an approved
    charge moves the billing date at least 30 days ahead, a refused one clears it.
  */
  lemma NoSecondChargeSameDay(u: User, today: int, charge: (User, PlanInfo) -> bool)
    requires DueForRenewal(u, today) && WillCharge(u)
    ensures !DueForRenewal(RenewOne(u, today, charge), today)
    ensures var info := LookupPlan(RenewalPlanId(u)).value;
      if charge(u, info)
      then RenewOne(u, today, charge).nextBilling == Some(today + info.durationDays) && info.durationDays >= 30
      else RenewOne(u, today, charge).nextBilling.None? && RenewOne(u, today, charge).status == "inactive"
  {
  }

  /** Running the sweep twice on the same day changes nothing more, whatever the provider answers. */
  lemma RenewalIdempotent(users: seq<User>, today: int, charge: (User, PlanInfo) -> bool)
    ensures RenewAll(RenewAll(users, today, charge), today, charge) == RenewAll(users, today, charge)
  {
    var once := RenewAll(users, today, charge);
    forall i | 0 <= i < |users| ensures RenewAll(once, today, charge)[i] == once[i] {
      var u := users[i];
      if DueForRenewal(u, today) && !WillCharge(u) {
        assert once[i] == u.(status := "inactive");
        assert RenewalPlanId(once[i]) == RenewalPlanId(u);
      } else if DueForRenewal(u, today) {
        NoSecondChargeSameDay(u, today, charge);
      }
    }
  }

  /**
    A user the sweep cannot charge (no monthly plan under its plan name, or
    no token) is deactivated and nothing else: the plan name, the billing
    date and every other column stay as they were, and the payment provider
    is never asked, since the outcome is the same whatever it would answer.
  */
  lemma UnchargeableDeactivated(u: User, today: int, charge: (User, PlanInfo) -> bool)
    requires !WillCharge(u)
    ensures RenewOne(u, today, charge) == u.(status := "inactive")
  {
  }

  /** A user without a plan name looks up `None_monthly`, which is not a plan: deactivated, never charged. */
  lemma NoPlanNeverCharged(u: User)
    requires u.plan.None?
    ensures !WillCharge(u)
  {
    assert RenewalPlanId(u) == "None_monthly";
  }

  /**
    A user whose plan name was set from the table and who has a token is
    charged for a monthly plan, and an approved charge renews for 30 days,
    even when the plan bought was annual.
  */
  lemma TablePlanRenewsMonthly(u: User, id: string, today: int, charge: (User, PlanInfo) -> bool)
    requires id in FedapayPlans && u.plan == Some(FedapayPlans[id].planName)
    requires Truthy(u.token)
    ensures WillCharge(u)
    ensures LookupPlan(RenewalPlanId(u)).value.durationDays == 30
    ensures charge(u, LookupPlan(RenewalPlanId(u)).value) ==>
      RenewOne(u, today, charge) == u.(nextBilling := Some(today + 30))
  {
    MonthlyPlanExistsForEveryName(id);
  }
}
