/**
 * The cost estimate of a trip, the total the planner reports and the budget
 * verdict it prints under it.
 */
module Costs {
  import opened Seqs
  import opened Destinations

  /** The five categories of the estimate, in the order the planner lists them. */
  datatype Costs = Costs(transportation: real, accommodation: real, activities: real, food: real, misc: real)

  /**
   * `max(1, overlap * 0.5)`: activities at a destination cost more only when
   * at least three of its categories match the traveller's interests.
   */
  function Multiplier(overlap: nat): (r: real)
    ensures r >= 1.0
    ensures r > 1.0 <==> overlap >= 3
    ensures r == 1.0 || r == overlap as real * 0.5
  {
    if overlap as real * 0.5 > 1.0 then overlap as real * 0.5 else 1.0
  }

  /**
   * One destination's activities: its base cost times its multiplier. Never
   * below the base cost, and above a positive one exactly when three or more
   * categories match.
   */
  function Share(d: Destination, interests: seq<string>): (r: real)
    ensures r >= d.baseCost as real
    ensures d.baseCost > 0 ==> (r == d.baseCost as real <==> Overlap(interests, d.categories) <= 2)
  {
    var b, m := d.baseCost as real, Multiplier(Overlap(interests, d.categories));
    assert b * m - b == b * (m - 1.0);
    assert b > 0.0 && m > 1.0 ==> b * (m - 1.0) > 0.0;
    b * m
  }

  /** The activities estimate: every destination's share, added left to right. */
  function Activities(c: Catalog, dests: seq<string>, interests: seq<string>): (r: real)
    requires InCatalog(c, dests)
    ensures r >= BaseCostSum(c, dests) as real
  {
    if dests == [] then 0.0
    else Activities(c, dests[..|dests| - 1], interests) + Share(c[dests[|dests| - 1]], interests)
  }

  /** No destination of `dests` matches more than two of the interests. */
  ghost predicate NoBoost(c: Catalog, dests: seq<string>, interests: seq<string>)
    requires InCatalog(c, dests)
  {
    forall k :: 0 <= k < |dests| ==> Overlap(interests, c[dests[k]].categories) <= 2
  }

  lemma NoBoostSplit(c: Catalog, dests: seq<string>, interests: seq<string>)
    requires InCatalog(c, dests) && dests != []
    ensures InCatalog(c, dests[..|dests| - 1])
    ensures NoBoost(c, dests, interests) <==>
              NoBoost(c, dests[..|dests| - 1], interests) && Overlap(interests, c[dests[|dests| - 1]].categories) <= 2
  {
    var init := dests[..|dests| - 1];
    assert forall k :: 0 <= k < |init| ==> init[k] == dests[k];
  }

  /**
   * Over a well-formed catalog, activities cost exactly the sum of the base
   * costs if and only if no destination matches three or more interests.
   */
  lemma {:induction false} ActivitiesEqualBase(c: Catalog, dests: seq<string>, interests: seq<string>)
    requires WellFormed(c) && InCatalog(c, dests)
    ensures Activities(c, dests, interests) == BaseCostSum(c, dests) as real <==> NoBoost(c, dests, interests)
  {
    if dests != [] {
      var init := dests[..|dests| - 1];
      NoBoostSplit(c, dests, interests);
      ActivitiesEqualBase(c, init, interests);
      assert c[dests[|dests| - 1]].baseCost > 0;
    }
  }

  /**
   * `calc_costs`: 150 a leg for transport and 100 a leg for accommodation,
   * the activities estimate, and 50 a day for food and 30 a day for the rest.
   */
  function CalcCosts(c: Catalog, dests: seq<string>, days: int, interests: seq<string>): (r: Costs)
    requires InCatalog(c, dests)
    ensures r.transportation == (|dests| - 1) as real * 150.0
    ensures r.accommodation == (|dests| - 1) as real * 100.0
    ensures r.activities >= BaseCostSum(c, dests) as real
    ensures r.food == days as real * 50.0 && r.misc == days as real * 30.0
  {
    Costs((|dests| - 1) as real * 150.0, (|dests| - 1) as real * 100.0,
          Activities(c, dests, interests), days as real * 50.0, days as real * 30.0)
  }

  /** No category is negative. */
  predicate NonNegativeCosts(r: Costs)
  {
    r.transportation >= 0.0 && r.accommodation >= 0.0 && r.activities >= 0.0 && r.food >= 0.0 && r.misc >= 0.0
  }

  /** With at least one destination and no negative day count, no category is negative. */
  lemma CostsNonNegative(c: Catalog, dests: seq<string>, days: int, interests: seq<string>)
    requires InCatalog(c, dests) && |dests| >= 1 && days >= 0
    ensures NonNegativeCosts(CalcCosts(c, dests, days, interests))
  {
  }

  /** `sum(costs.values())`: the five categories added in order. */
  function Total(r: Costs): (total: real)
    ensures NonNegativeCosts(r) ==>
              total >= r.transportation && total >= r.accommodation && total >= r.activities
              && total >= r.food && total >= r.misc
  {
    r.transportation + r.accommodation + r.activities + r.food + r.misc
  }

  /** The verdict printed under the costs. */
  function BudgetStatus(total: real, budget: real): (s: string)
    ensures s == "Within budget" <==> total <= budget
    ensures s == "Over budget" <==> total > budget
  {
    if total <= budget then "Within budget" else "Over budget"
  }

  /**
   * New York then Paris for seven days, for a traveller into culture: each
   * city matches one interest, so activities cost the base 200 + 180, and the
   * whole trip (1190) fits a 2000 budget.
   */
  lemma NewYorkParisWeek()
    ensures var r := CalcCosts(KnownDestinations(), ["New York", "Paris"], 7, ["Culture"]);
      && r == Costs(150.0, 100.0, 380.0, 350.0, 210.0)
      && Total(r) == 1190.0
      && BudgetStatus(Total(r), 2000.0) == "Within budget"
  {
    var c := KnownDestinations();
    var interests := ["Culture"];
    assert Elements(interests) * Elements(c["New York"].categories) == {"Culture"};
    assert Elements(interests) * Elements(c["Paris"].categories) == {"Culture"};
    assert ["New York", "Paris"][..1] == ["New York"];
    assert Activities(c, ["New York"], interests) == 200.0;
  }

  /**
   * Tokyo alone for a traveller into culture, food and nightlife: three
   * matching categories raise its activities by half, to 330.
   */
  lemma TokyoBoosted()
    ensures CalcCosts(KnownDestinations(), ["Tokyo"], 3, ["Culture", "Food", "Nightlife"]).activities == 330.0
  {
    var c := KnownDestinations();
    var interests := ["Culture", "Food", "Nightlife"];
    assert Elements(interests) * Elements(c["Tokyo"].categories) == {"Culture", "Food", "Nightlife"};
    assert Overlap(interests, c["Tokyo"].categories) == 3;
    assert ["Tokyo"][..0] == [];
  }
}
