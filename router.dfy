/**
  The router: the first decision taken on a plan record produced by the
  language-model planner.  A plan is rejected when it is not relevant, sent
  back for clarification when its confidence is missing or below the threshold,
  and otherwise routed to the task it names.
 */
module Router {
  import opened Wrappers
  import opened Features

  /** The plan record; every field except isRelevant may be absent. */
  datatype PlanningOutput = PlanningOutput(
    isRelevant: bool,
    taskName: Option<string>,
    inputType: Option<string>,
    requiredAgents: Option<seq<string>>,
    missingInputs: Option<seq<string>>,
    confidence: Option<real>,
    reason: Option<string>)

  /** The least confidence at which a relevant plan is routed to its task. */
  const CONFIDENCE_THRESHOLD: real := 0.6

  const REJECT: string := "reject"
  const CLARIFICATION: string := "clarification"

  /** The plan's confidence is present and reaches the threshold. */
  predicate Confident(plan: PlanningOutput) {
    plan.confidence.Some? && plan.confidence.value >= CONFIDENCE_THRESHOLD
  }

  /**
    route_plan.  The result is None exactly when a confident relevant plan has
    no task name, as the source then returns the absent task name itself.
   */
  function RoutePlan(plan: PlanningOutput): (r: Option<string>)
    ensures r == Some(REJECT) || r == Some(CLARIFICATION) || r == plan.taskName
    ensures !plan.isRelevant ==> r == Some(REJECT)
    ensures plan.isRelevant && !Confident(plan) ==> r == Some(CLARIFICATION)
    ensures plan.isRelevant && Confident(plan) ==> r == plan.taskName
  {
    if !plan.isRelevant then Some(REJECT)
    else if plan.confidence.None? || plan.confidence.value < CONFIDENCE_THRESHOLD then Some(CLARIFICATION)
    else plan.taskName
  }

  /** Only relevance, confidence and the task name matter; the other fields never change the route. */
  lemma RouteIgnoresOtherFields(p: PlanningOutput, q: PlanningOutput)
    requires p.isRelevant == q.isRelevant && p.confidence == q.confidence && p.taskName == q.taskName
    ensures RoutePlan(p) == RoutePlan(q)
  {
  }

  /** A plan routed to its task stays routed there when its confidence rises. */
  lemma RouteMonotoneInConfidence(plan: PlanningOutput, c: real)
    requires plan.isRelevant && Confident(plan) && plan.confidence.value <= c
    ensures RoutePlan(plan.(confidence := Some(c))) == plan.taskName
  {
  }

  /** A plan whose confidence is exactly the threshold is routed to its task. */
  lemma RouteAtThreshold(plan: PlanningOutput)
    requires plan.isRelevant && plan.confidence == Some(0.6)
    ensures RoutePlan(plan) == plan.taskName
  {
  }

  /**
    When the task name is not itself one of the two route words, the route
    tells the three cases apart: "reject" exactly when the plan is not
    relevant, "clarification" exactly when it is relevant but not confident.
   */
  lemma RouteDistinguishesCases(plan: PlanningOutput)
    requires plan.taskName != Some(REJECT) && plan.taskName != Some(CLARIFICATION)
    ensures RoutePlan(plan) == Some(REJECT) <==> !plan.isRelevant
    ensures RoutePlan(plan) == Some(CLARIFICATION) <==> plan.isRelevant && !Confident(plan)
    ensures RoutePlan(plan) == plan.taskName <==> plan.isRelevant && Confident(plan)
  {
  }

  /** No catalog task is called "reject" or "clarification", so a catalog task name never reads as another route. */
  lemma CatalogNamesAreNotRoutes(i: nat)
    requires i < |FEATURES|
    ensures FEATURES[i].taskName != REJECT && FEATURES[i].taskName != CLARIFICATION
  {
  }
}
