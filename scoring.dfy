/**
 * The score the itinerary optimizer maximises. It rewards short paths and
 * destinations that match the traveller's interests and rate well, and it
 * subtracts a penalty proportional to the fraction by which the estimated
 * cost of the itinerary exceeds the budget. Arithmetic is exact (`real`).
 */
module Scoring {
  import opened Seqs
  import opened Destinations
  import opened Distances

  /** What a score depends on besides the itinerary itself. */
  datatype Env = Env(table: Table, catalog: Catalog, budget: real, interests: seq<string>)

  /** The itinerary can be scored: every stop is known and every leg has a non-negative distance. */
  ghost predicate Scorable(env: Env, ind: seq<string>)
  {
    && env.budget > 0.0
    && InCatalog(env.catalog, ind)
    && CoversPath(env.table, ind)
    && NonNegativePath(env.table, ind)
  }

  /** `1000 / (1 + dist / 100)`: the reward for a short path. */
  function DistanceTerm(dist: real): (r: real)
    requires dist >= 0.0
    ensures 0.0 < r <= 1000.0
    ensures r == 1000.0 <==> dist == 0.0
  {
    var denominator := 1.0 + dist / 100.0;
    assert denominator >= 1.0;
    assert dist > 0.0 ==> denominator > 1.0;
    1000.0 / denominator
  }

  /** The reward for a short path is larger the shorter the path, strictly so. */
  lemma DistanceTermAntitone(d1: real, d2: real)
    requires 0.0 <= d1 <= d2
    ensures DistanceTerm(d1) >= DistanceTerm(d2)
    ensures d1 < d2 ==> DistanceTerm(d1) > DistanceTerm(d2)
  {
    var x1, x2 := 1.0 + d1 / 100.0, 1.0 + d2 / 100.0;
    assert 1.0 <= x1 <= x2;
    assert d1 < d2 ==> x1 < x2;
    var r1, r2 := 1000.0 / x1, 1000.0 / x2;
    assert r1 * x1 == 1000.0 && r2 * x2 == 1000.0;
    assert DistanceTerm(d1) == r1 && DistanceTerm(d2) == r2;
    assert r2 > 0.0;
    assert r2 * x1 <= r2 * x2 == r1 * x1;
    assert x1 < x2 ==> r2 * x1 < r2 * x2;
    assert (r1 - r2) * x1 >= 0.0;
    assert x1 < x2 ==> (r1 - r2) * x1 > 0.0;
  }

  /**
   * `max(0, (cost - budget) / budget) * 100`: nothing within budget, otherwise
   * the overrun as a percentage of the budget.
   */
  function Penalty(cost: real, budget: real): (r: real)
    requires budget > 0.0
    ensures r >= 0.0
    ensures r == 0.0 <==> cost <= budget
    ensures cost > budget ==> r * budget == 100.0 * (cost - budget)
  {
    var overrun := (cost - budget) / budget;
    assert overrun * budget == cost - budget;
    assert overrun > 0.0 <==> cost > budget;
    (if overrun > 0.0 then overrun else 0.0) * 100.0
  }

  /**
   * The estimated cost of an itinerary: half a dollar per kilometre, 100 per
   * leg, plus the base cost of every stop.
   */
  function TripCost(env: Env, ind: seq<string>): (r: real)
    requires InCatalog(env.catalog, ind) && CoversPath(env.table, ind)
    ensures ind != [] && NonNegativePath(env.table, ind) ==> r >= BaseCostSum(env.catalog, ind) as real
  {
    PathLength(env.table, ind) * 0.5 + (|ind| as real - 1.0) * 100.0 + BaseCostSum(env.catalog, ind) as real
  }

  /** Per stop, ten points per matching interest and five per rating point, added left to right. */
  function InterestScore(c: Catalog, interests: seq<string>, ind: seq<string>): (r: real)
    requires InCatalog(c, ind)
    ensures WellFormed(c) ==> r >= 0.0
  {
    if ind == [] then 0.0
    else
      InterestScore(c, interests, ind[..|ind| - 1]) + Points(c[ind[|ind| - 1]], interests)
  }

  /** One stop's points: ten per matching interest and five per rating point. */
  function Points(d: Destination, interests: seq<string>): (r: real)
  {
    Overlap(d.categories, interests) as real * 10.0 + d.rating * 5.0
  }

  /** The interest score of a concatenation is the sum of the two scores. */
  lemma {:induction false} InterestScoreAppend(c: Catalog, interests: seq<string>, a: seq<string>, b: seq<string>)
    requires InCatalog(c, a + b)
    ensures InCatalog(c, a) && InCatalog(c, b)
    ensures InterestScore(c, interests, a + b) == InterestScore(c, interests, a) + InterestScore(c, interests, b)
  {
    assert forall d :: d in a || d in b ==> d in a + b;
    if b == [] {
      assert a + b == a;
    } else {
      var init := b[..|b| - 1];
      assert (a + b)[..|a + b| - 1] == a + init;
      InterestScoreAppend(c, interests, a, init);
    }
  }

  /** Taking the stop at `j` out of the interest score subtracts exactly that stop's points. */
  lemma InterestScoreRemoveAt(c: Catalog, interests: seq<string>, t: seq<string>, j: nat)
    requires InCatalog(c, t) && j < |t|
    ensures InCatalog(c, t[..j] + t[j + 1..])
    ensures InterestScore(c, interests, t)
            == InterestScore(c, interests, t[..j] + t[j + 1..]) + Points(c[t[j]], interests)
  {
    var before, x, after := t[..j], t[j], t[j + 1..];
    RemoveAt(t, j);
    InterestScoreAppend(c, interests, before + [x], after);
    InterestScoreAppend(c, interests, before, [x]);
    InterestScoreAppend(c, interests, before, after);
    assert [x][..0] == [];
  }

  /** The interest score does not depend on the order of the stops. */
  lemma {:induction false} InterestScorePermutation(c: Catalog, interests: seq<string>, s: seq<string>, t: seq<string>)
    requires InCatalog(c, s) && multiset(s) == multiset(t)
    ensures InCatalog(c, t) && InterestScore(c, interests, s) == InterestScore(c, interests, t)
    decreases |s|
  {
    assert InCatalog(c, t) by {
      assert forall d :: d in t ==> d in multiset(s);
    }
    if s == [] {
      assert |t| == |multiset(t)| == 0;
    } else {
      var init, x := s[..|s| - 1], s[|s| - 1];
      assert multiset(init) == multiset(s) - multiset{x} && InCatalog(c, init) by {
        assert s == init + [x];
      }
      assert x in multiset(t);
      var j :| 0 <= j < |t| && t[j] == x;
      RemoveAt(t, j);
      var rest := t[..j] + t[j + 1..];
      InterestScoreRemoveAt(c, interests, t, j);
      InterestScorePermutation(c, interests, init, rest);
      var p := Points(c[x], interests);
      assert InterestScore(c, interests, t) == InterestScore(c, interests, rest) + p;
      assert InterestScore(c, interests, s) == InterestScore(c, interests, init) + p;
    }
  }

  /** The score of an itinerary: distance reward plus interest score minus budget penalty. */
  function Fitness(env: Env, ind: seq<string>): (r: real)
    requires Scorable(env, ind)
    ensures r <= 1000.0 + InterestScore(env.catalog, env.interests, ind)
    ensures TripCost(env, ind) <= env.budget ==> r > InterestScore(env.catalog, env.interests, ind)
  {
    var dist := PathLength(env.table, ind);
    DistanceTerm(dist) + InterestScore(env.catalog, env.interests, ind) - Penalty(TripCost(env, ind), env.budget)
  }

  /** The penalty never decreases as the cost grows. */
  lemma PenaltyMonotone(c1: real, c2: real, budget: real)
    requires budget > 0.0 && c1 <= c2
    ensures Penalty(c1, budget) <= Penalty(c2, budget)
  {
    var o1, o2 := (c1 - budget) / budget, (c2 - budget) / budget;
    assert o1 * budget == c1 - budget && o2 * budget == c2 - budget;
    assert (o2 - o1) * budget >= 0.0;
  }

  /** Over budget, the penalty pulls the score strictly below its reward terms. */
  lemma OverBudgetPenalised(env: Env, ind: seq<string>)
    requires Scorable(env, ind) && TripCost(env, ind) > env.budget
    ensures PathLength(env.table, ind) >= 0.0
    ensures Fitness(env, ind) < DistanceTerm(PathLength(env.table, ind)) + InterestScore(env.catalog, env.interests, ind)
  {
  }

  /** Within budget and over a well-formed catalog, every itinerary scores above zero. */
  lemma WithinBudgetScoresPositive(env: Env, ind: seq<string>)
    requires Scorable(env, ind) && WellFormed(env.catalog)
    requires TripCost(env, ind) <= env.budget
    ensures Fitness(env, ind) > 0.0
  {
  }

  /**
   * Between two orderings of the same stops, the interest score and the base
   * costs agree, so the fitter one is exactly the one with the shorter path.
   */
  lemma FitterIffShorter(env: Env, a: seq<string>, b: seq<string>)
    requires Scorable(env, a) && Scorable(env, b) && multiset(a) == multiset(b)
    ensures Fitness(env, a) >= Fitness(env, b) <==> PathLength(env.table, a) <= PathLength(env.table, b)
  {
    var c, t := env.catalog, env.table;
    InterestScorePermutation(c, env.interests, a, b);
    BaseCostSumPermutation(c, a, b);
    assert |a| == |multiset(a)| == |multiset(b)| == |b|;
    var la, lb := PathLength(t, a), PathLength(t, b);
    assert TripCost(env, a) - TripCost(env, b) == (la - lb) * 0.5;
    if la <= lb {
      DistanceTermAntitone(la, lb);
      PenaltyMonotone(TripCost(env, a), TripCost(env, b), env.budget);
    } else {
      DistanceTermAntitone(lb, la);
      PenaltyMonotone(TripCost(env, b), TripCost(env, a), env.budget);
    }
  }
}
