/**
 * The distance model: the name-by-name table of great-circle distances that
 * the planner builds once from the catalog, and the length of a path through
 * it.
 */
module Distances {
  import opened Destinations

  /** `table[a][b]` is the distance in kilometres from `a` to `b` (a dict of dicts). */
  type Table = map<string, map<string, real>>

  /** Every ordered pair of `names` can be looked up. */
  ghost predicate Covers(t: Table, names: set<string>)
  {
    forall a, b :: a in names && b in names ==> a in t && b in t[a]
  }

  ghost predicate NonNegative(t: Table, names: set<string>)
    requires Covers(t, names)
  {
    forall a, b :: a in names && b in names ==> t[a][b] >= 0.0
  }

  ghost predicate Symmetric(t: Table, names: set<string>)
    requires Covers(t, names)
  {
    forall a, b :: a in names && b in names ==> t[a][b] == t[b][a]
  }

  ghost predicate ZeroDiagonal(t: Table, names: set<string>)
    requires Covers(t, names)
  {
    forall a :: a in names ==> t[a][a] == 0.0
  }

  /** What the table over `names` is promised to be. */
  ghost predicate DistanceTable(t: Table, names: set<string>)
  {
    Covers(t, names) && NonNegative(t, names) && Symmetric(t, names) && ZeroDiagonal(t, names)
  }

  /**
   * What the model assumes of the haversine formula, whose trigonometry it
   * leaves out: distances are never negative and do not depend on direction.
   */
  ghost predicate HaversineLike(haversine: (Coord, Coord) -> real)
  {
    forall c1, c2 :: haversine(c1, c2) >= 0.0 && haversine(c1, c2) == haversine(c2, c1)
  }

  /** The entry the table holds for the pair (k1, k2). */
  function Entry(c: Catalog, haversine: (Coord, Coord) -> real, k1: string, k2: string): (r: real)
    requires k1 in c && k2 in c
    ensures HaversineLike(haversine) ==> r >= 0.0
  {
    if k1 == k2 then 0.0 else haversine(c[k1].coords, c[k2].coords)
  }

  /**
   * Fills the table row by row with two nested loops over the catalog; a
   * destination is 0 km from itself and every other pair comes from the
   * haversine formula.
   */
  method CalcDistances(c: Catalog, haversine: (Coord, Coord) -> real) returns (d: Table)
    ensures d.Keys == c.Keys
    ensures forall k1 :: k1 in d ==> d[k1].Keys == c.Keys
    ensures forall k1, k2 :: k1 in c && k2 in c ==> d[k1][k2] == Entry(c, haversine, k1, k2)
    ensures HaversineLike(haversine) ==> DistanceTable(d, c.Keys)
  {
    d := map[];
    var rows := c.Keys;
    while rows != {}
      invariant rows <= c.Keys
      invariant d.Keys == c.Keys - rows
      invariant forall k1 :: k1 in d ==> d[k1].Keys == c.Keys
      invariant forall k1, k2 :: k1 in d && k2 in c ==> d[k1][k2] == Entry(c, haversine, k1, k2)
      decreases rows
    {
      var k1 :| k1 in rows;
      var row: map<string, real> := map[];
      var cols := c.Keys;
      while cols != {}
        invariant cols <= c.Keys
        invariant row.Keys == c.Keys - cols
        invariant forall k2 :: k2 in row ==> row[k2] == Entry(c, haversine, k1, k2)
        decreases cols
      {
        var k2 :| k2 in cols;
        if k1 == k2 {
          row := row[k2 := 0.0];
        } else {
          row := row[k2 := haversine(c[k1].coords, c[k2].coords)];
        }
        cols := cols - {k2};
      }
      d := d[k1 := row];
      rows := rows - {k1};
    }
    if HaversineLike(haversine) {
      HaversineTable(c, haversine, d);
    }
  }

  /** A table filled entry by entry from a haversine-like formula is a distance table. */
  lemma HaversineTable(c: Catalog, haversine: (Coord, Coord) -> real, d: Table)
    requires HaversineLike(haversine)
    requires d.Keys == c.Keys && forall k1 :: k1 in d ==> d[k1].Keys == c.Keys
    requires forall k1, k2 :: k1 in c && k2 in c ==> d[k1][k2] == Entry(c, haversine, k1, k2)
    ensures DistanceTable(d, c.Keys)
  {
    forall a, b | a in c.Keys && b in c.Keys
      ensures d[a][b] >= 0.0 && d[a][b] == d[b][a]
    {
      assert d[a][b] == Entry(c, haversine, a, b) && d[b][a] == Entry(c, haversine, b, a);
      if a != b {
        var ca, cb := c[a].coords, c[b].coords;
        assert haversine(ca, cb) >= 0.0 && haversine(ca, cb) == haversine(cb, ca);
      }
    }
    forall a | a in c.Keys ensures d[a][a] == 0.0 {
      assert d[a][a] == Entry(c, haversine, a, a);
    }
  }

  /** Every name of `p` is one of `names`. */
  ghost predicate Within(p: seq<string>, names: set<string>)
  {
    forall i :: 0 <= i < |p| ==> p[i] in names
  }

  /** Every ordered pair of stops of `p` can be looked up. */
  ghost predicate CoversPath(t: Table, p: seq<string>)
  {
    forall i, j :: 0 <= i < |p| && 0 <= j < |p| ==> p[i] in t && p[j] in t[p[i]]
  }

  ghost predicate NonNegativePath(t: Table, p: seq<string>)
    requires CoversPath(t, p)
  {
    forall i, j :: 0 <= i < |p| && 0 <= j < |p| ==> t[p[i]][p[j]] >= 0.0
  }

  /** A table over `names` covers every path through `names`. */
  lemma CoversWithin(t: Table, names: set<string>, p: seq<string>)
    requires Covers(t, names) && Within(p, names)
    ensures CoversPath(t, p)
    ensures NonNegative(t, names) ==> NonNegativePath(t, p)
  {
  }

  /**
   * The length of the path visiting `p` in order: the sum of the table entries
   * of consecutive pairs, added left to right.
   */
  function PathLength(t: Table, p: seq<string>): (r: real)
    requires CoversPath(t, p)
    ensures NonNegativePath(t, p) ==> r >= 0.0
  {
    if |p| <= 1 then 0.0
    else
      var init := p[..|p| - 1];
      assert NonNegativePath(t, p) ==> NonNegativePath(t, init);
      PathLength(t, init) + t[p[|p| - 2]][p[|p| - 1]]
  }

  /** Extending a path by one stop adds exactly the one new leg. */
  lemma PathLengthAppend(t: Table, p: seq<string>, x: string)
    requires |p| >= 1 && CoversPath(t, p + [x])
    ensures CoversPath(t, p) && p[|p| - 1] in t && x in t[p[|p| - 1]]
    ensures PathLength(t, p + [x]) == PathLength(t, p) + t[p[|p| - 1]][x]
  {
    var q := p + [x];
    assert q[..|q| - 1] == p;
    assert q[|q| - 2] == p[|p| - 1] && q[|q| - 1] == x;
    assert PathLength(t, q) == PathLength(t, q[..|q| - 1]) + t[q[|q| - 2]][q[|q| - 1]];
  }
}
