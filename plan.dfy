/**
 * The planner's top level (`generate_plan`): it checks the request, then
 * builds the route, evolves the itinerary, estimates the costs, adds them up
 * and gives the budget verdict. Reading the request from the window and
 * showing the report are not modelled; the request arrives as values and the
 * report is returned.
 */
module Plan {
  import opened Seqs
  import opened Destinations
  import opened Distances
  import opened Route
  import opened Scoring
  import opened Genetic
  import opened Costs

  datatype Option<T> = None | Some(value: T)

  /** Why a request is turned down; the budget and the day count share one message. */
  datatype PlanError = TooFewDestinations | StartNotSelected | NonPositiveBudgetOrDays

  /** The message shown for each rejection. */
  function Message(e: PlanError): (m: string)
    ensures |m| > 0
  {
    match e
    case TooFewDestinations => "Select at least 2 destinations"
    case StartNotSelected => "Start must be in destinations"
    case NonPositiveBudgetOrDays => "Budget/days must be positive"
  }

  /**
   * The three checks, in the order the planner makes them; the first that
   * fails decides the error.
   */
  function Validate(dests: seq<string>, start: string, budget: real, days: int): (r: Option<PlanError>)
    ensures r == None <==> |dests| >= 2 && start in dests && budget > 0.0 && days > 0
    ensures r == Some(TooFewDestinations) <==> |dests| < 2
    ensures r == Some(StartNotSelected) <==> |dests| >= 2 && start !in dests
    ensures r == Some(NonPositiveBudgetOrDays) <==> |dests| >= 2 && start in dests && (budget <= 0.0 || days <= 0)
  {
    if |dests| < 2 then Some(TooFewDestinations)
    else if start !in dests then Some(StartNotSelected)
    else if budget <= 0.0 || days <= 0 then Some(NonPositiveBudgetOrDays)
    else None
  }

  /** Everything the report shows. */
  datatype PlanReport = PlanReport(route: RouteResult, itinerary: seq<string>, fitness: real,
                                   costs: Costs, total: real, status: string)

  datatype Outcome = Rejected(error: PlanError) | Planned(report: PlanReport)

  /** Each rejection has its own message, so the traveller can tell which check failed. */
  lemma MessagesDistinct(e1: PlanError, e2: PlanError)
    ensures Message(e1) == Message(e2) <==> e1 == e2
  {
    if e1 != e2 {
      assert Message(e1)[1] != Message(e2)[1];
    }
  }

  /** A distance table over the whole catalog serves every selection from it. */
  lemma SelectionCovered(c: Catalog, t: Table, dests: seq<string>)
    requires DistanceTable(t, c.Keys) && InCatalog(c, dests)
    ensures Covers(t, Elements(dests)) && NonNegative(t, Elements(dests))
  {
    assert Elements(dests) <= c.Keys;
  }

  /**
   * `generate_plan`: a rejected request does no work; an accepted one gets
   * the greedy route, the fittest itinerary, the five costs, their total and
   * the verdict. The random draws of the optimizer are supplied by the caller;
   * `history` records the populations the optimizer went through.
   */
  method GeneratePlan(c: Catalog, t: Table, dests: seq<string>, start: string, budget: real, days: int,
                      interests: seq<string>, shuffles: seq<seq<string>>, picks: seq<Pick>)
    returns (out: Outcome, ghost history: seq<seq<Individual>>)
    requires DistanceTable(t, c.Keys) && InCatalog(c, dests) && Distinct(dests)
    requires |shuffles| == PopulationSize
    requires forall k :: 0 <= k < PopulationSize ==> multiset(shuffles[k]) == multiset(Others(dests, start))
    requires |picks| == Generations * Survivors
    requires forall k :: 0 <= k < |picks| ==> ValidPick(picks[k], |dests|)
    ensures out.Rejected? <==> Validate(dests, start, budget, days).Some?
    ensures out.Rejected? ==> Validate(dests, start, budget, days) == Some(out.error)
    ensures out.Planned? ==>
              var route := out.report.route;
              && |route.path| >= 1 && route.path[0] == start && Distinct(route.path)
              && (forall d :: d in route.path <==> d in dests)
              && route.count == |route.path| == |dests|
              && CoversPath(t, route.path) && route.distance == PathLength(t, route.path)
              && route.distance >= 0.0 && route.time == route.distance / 60.0
              && GreedyLegs(t, route.path)
    ensures out.Planned? ==>
              var env := Env(t, c, budget, interests);
              && Optimized(env, start, Others(dests, start), shuffles, picks, history,
                           out.report.itinerary, out.report.fitness)
              && |out.report.itinerary| == |dests|
    ensures out.Planned? ==>
              && out.report.costs == CalcCosts(c, dests, days, interests)
              && out.report.total == Total(out.report.costs)
              && NonNegativeCosts(out.report.costs)
              && out.report.status == BudgetStatus(out.report.total, budget)
  {
    var invalid := Validate(dests, start, budget, days);
    if invalid.Some? {
      return Rejected(invalid.value), [];
    }
    SelectionCovered(c, t, dests);
    assert Elements(dests) + {start} == Elements(dests);
    var route := GreedyRoute(t, dests, start);
    var env := Env(t, c, budget, interests);
    var itinerary, score;
    itinerary, score, history := GeneticItinerary(env, dests, start, shuffles, picks);
    var costs := CalcCosts(c, dests, days, interests);
    CostsNonNegative(c, dests, days, interests);
    var total := Total(costs);
    out := Planned(PlanReport(route, itinerary, score, costs, total, BudgetStatus(total, budget)));
  }
}
