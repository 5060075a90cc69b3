/** The Fedapay plan table (app/plans.py), used by checkout and by the nightly renewal. */
module Plans {
  import Wrappers

  /** A plan: its price in XOF, the plan name stored on the user, and its length in days. */
  datatype PlanInfo = PlanInfo(amount: nat, planName: string, durationDays: nat)

  const FedapayPlans: map<string, PlanInfo> := map[
    "pro_monthly" := PlanInfo(3300, "pro", 30),
    "pro_annual" := PlanInfo(32800, "pro", 365),
    "business_monthly" := PlanInfo(6600, "business", 30),
    "business_annual" := PlanInfo(65600, "business", 365)
  ]

  /** `FEDAPAY_PLANS.get(id)`. */
  function LookupPlan(id: string): (r: Wrappers.Option<PlanInfo>)
    ensures r.Some? <==> id in {"pro_monthly", "pro_annual", "business_monthly", "business_annual"}
    ensures r.Some? ==> r.value.planName in {"pro", "business"}
  {
    if id in FedapayPlans then Wrappers.Some(FedapayPlans[id]) else Wrappers.None
  }

  lemma ExactlyFourPlans()
    ensures FedapayPlans.Keys == {"pro_monthly", "pro_annual", "business_monthly", "business_annual"}
  {
  }

  /**
    Every id is its plan name followed by `_monthly` (a 30-day plan) or by
    `_annual` (a 365-day plan), and the plan name is `pro` or `business`.
  */
  lemma PlanIdShape(id: string)
    requires id in FedapayPlans
    ensures FedapayPlans[id].planName in {"pro", "business"}
    ensures || (id == FedapayPlans[id].planName + "_monthly" && FedapayPlans[id].durationDays == 30)
            || (id == FedapayPlans[id].planName + "_annual" && FedapayPlans[id].durationDays == 365)
  {
    if id == "pro_monthly" {
    } else if id == "pro_annual" {
    } else if id == "business_monthly" {
    } else {
      assert id == "business_annual";
    }
  }

  /** The plan name is exactly the part of the id before its first `_`. */
  lemma PlanNameIsIdPrefix(id: string)
    requires id in FedapayPlans
    ensures var name := FedapayPlans[id].planName;
      |name| < |id| && id[..|name|] == name && id[|name|] == '_' && '_' !in name
  {
    PlanIdShape(id);
  }

  /**
    The renewal job looks up `plan_name + "_monthly"`: for every plan name the
    table can set on a user, that key exists and is a 30-day plan of the same name.
  */
  lemma MonthlyPlanExistsForEveryName(id: string)
    requires id in FedapayPlans
    ensures FedapayPlans[id].planName + "_monthly" in FedapayPlans
    ensures FedapayPlans[FedapayPlans[id].planName + "_monthly"].durationDays == 30
    ensures FedapayPlans[FedapayPlans[id].planName + "_monthly"].planName == FedapayPlans[id].planName
  {
    if FedapayPlans[id].planName == "pro" {
      assert "pro" + "_monthly" == "pro_monthly";
    } else {
      assert FedapayPlans[id].planName == "business";
      assert "business" + "_monthly" == "business_monthly";
    }
  }
}
