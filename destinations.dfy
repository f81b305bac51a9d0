/**
 * The static destination catalog of the travel planner: every destination a
 * traveller can pick, with its coordinates, category tags, base cost and
 * rating, keyed by its name.
 */
module Destinations {
  import opened Seqs

  /** Latitude and longitude, in degrees. */
  datatype Coord = Coord(lat: real, lon: real)

  /** One catalog entry. The base cost is in dollars per visit, the rating out of 5. */
  datatype Destination = Destination(coords: Coord, categories: seq<string>, baseCost: nat, rating: real)

  type Catalog = map<string, Destination>

  /** What the rest of the planner relies on about catalog data. */
  ghost predicate WellFormed(c: Catalog)
  {
    forall name :: name in c ==>
      && c[name].baseCost > 0
      && |c[name].categories| > 0
      && 0.0 <= c[name].rating <= 5.0
  }

  /** Every name in `names` is a catalog key. */
  ghost predicate InCatalog(c: Catalog, names: seq<string>)
  {
    forall d :: d in names ==> d in c
  }

  /** The ten destinations the planner ships with. */
  function KnownDestinations(): (c: Catalog)
    ensures WellFormed(c)
    ensures c.Keys == {"New York", "Paris", "Tokyo", "London", "Rome", "Barcelona", "Sydney", "Bangkok", "Dubai", "Bali"}
  {
    map[
      "New York" := Destination(Coord(40.71, -74.00), ["Culture", "Museums", "Nightlife", "Food"], 200, 4.5),
      "Paris" := Destination(Coord(48.85, 2.35), ["Culture", "Museums", "Food", "History"], 180, 4.7),
      "Tokyo" := Destination(Coord(35.67, 139.65), ["Culture", "Food", "Nightlife", "Museums"], 220, 4.6),
      "London" := Destination(Coord(51.50, -0.12), ["Culture", "History", "Museums", "Nightlife"], 190, 4.4),
      "Rome" := Destination(Coord(41.90, 12.49), ["History", "Culture", "Food", "Museums"], 150, 4.5),
      "Barcelona" := Destination(Coord(41.38, 2.17), ["Culture", "Beach", "Food", "Museums"], 140, 4.3),
      "Sydney" := Destination(Coord(-33.86, 151.20), ["Beach", "Culture", "Adventure", "Nightlife"], 170, 4.4),
      "Bangkok" := Destination(Coord(13.75, 100.50), ["Culture", "Food", "Adventure", "Nightlife"], 80, 4.2),
      "Dubai" := Destination(Coord(25.20, 55.27), ["Adventure", "Culture", "Nightlife", "Beach"], 250, 4.3),
      "Bali" := Destination(Coord(-8.34, 115.09), ["Beach", "Nature", "Culture", "Adventure"], 100, 4.6)
    ]
  }

  /**
   * How many of a destination's categories are among the traveller's
   * interests: `len(set(categories) & set(interests))`.
   */
  function Overlap(categories: seq<string>, interests: seq<string>): (r: nat)
    ensures r <= |Elements(categories)| && r <= |Elements(interests)|
    ensures r == 0 <==> forall x :: x in categories ==> x !in interests
  {
    var shared := Elements(categories) * Elements(interests);
    SubsetCard(shared, Elements(categories));
    SubsetCard(shared, Elements(interests));
    assert shared != {} <==> exists x :: x in categories && x in interests by {
      if shared != {} {
        var x :| x in shared;
        assert x in categories && x in interests;
      }
      if exists x :: x in categories && x in interests {
        var x :| x in categories && x in interests;
        assert x in shared;
      }
    }
    |shared|
  }

  /** The sum of the base costs of the named destinations, taken left to right. */
  function BaseCostSum(c: Catalog, names: seq<string>): (r: nat)
    requires InCatalog(c, names)
    ensures WellFormed(c) ==> r >= |names|
  {
    if names == [] then 0
    else BaseCostSum(c, names[..|names| - 1]) + c[names[|names| - 1]].baseCost
  }

  /** The sum over a concatenation is the sum of the two sums. */
  lemma {:induction false} BaseCostSumAppend(c: Catalog, a: seq<string>, b: seq<string>)
    requires InCatalog(c, a + b)
    ensures InCatalog(c, a) && InCatalog(c, b)
    ensures BaseCostSum(c, a + b) == BaseCostSum(c, a) + BaseCostSum(c, b)
  {
    assert forall d :: d in a || d in b ==> d in a + b;
    if b == [] {
      assert a + b == a;
    } else {
      var init := b[..|b| - 1];
      assert (a + b)[..|a + b| - 1] == a + init;
      BaseCostSumAppend(c, a, init);
    }
  }

  /** Taking the stop at `j` out of the sum subtracts exactly its base cost. */
  lemma BaseCostSumRemoveAt(c: Catalog, t: seq<string>, j: nat)
    requires InCatalog(c, t) && j < |t|
    ensures InCatalog(c, t[..j] + t[j + 1..])
    ensures BaseCostSum(c, t) == BaseCostSum(c, t[..j] + t[j + 1..]) + c[t[j]].baseCost
  {
    var before, x, after := t[..j], t[j], t[j + 1..];
    RemoveAt(t, j);
    BaseCostSumAppend(c, before + [x], after);
    BaseCostSumAppend(c, before, [x]);
    BaseCostSumAppend(c, before, after);
    assert [x][..0] == [];
  }

  /** The sum of the base costs does not depend on the order of the stops. */
  lemma {:induction false} BaseCostSumPermutation(c: Catalog, s: seq<string>, t: seq<string>)
    requires InCatalog(c, s) && multiset(s) == multiset(t)
    ensures InCatalog(c, t) && BaseCostSum(c, s) == BaseCostSum(c, t)
    decreases |s|
  {
    assert InCatalog(c, t) by {
      assert forall d :: d in t ==> d in multiset(s);
    }
    if s != [] {
      var init, x := s[..|s| - 1], s[|s| - 1];
      assert multiset(init) == multiset(s) - multiset{x} && InCatalog(c, init) by {
        assert s == init + [x];
      }
      assert x in multiset(t);
      var j :| 0 <= j < |t| && t[j] == x;
      RemoveAt(t, j);
      BaseCostSumRemoveAt(c, t, j);
      BaseCostSumPermutation(c, init, t[..j] + t[j + 1..]);
      assert BaseCostSum(c, s) == BaseCostSum(c, init) + c[x].baseCost;
    }
  }
}
