/**
 * The route builder: a greedy nearest-neighbour tour. Starting at the start
 * destination it repeatedly moves to the closest selected destination not yet
 * visited, until none is left. It is not a shortest-path search.
 */
module Route {
  import opened Seqs
  import opened Distances

  /** The route as reported: stops in order, kilometres, hours at 60 km/h, number of stops. */
  datatype RouteResult = RouteResult(path: seq<string>, distance: real, time: real, count: nat)

  /**
   * Python's `min(unvisited, key=lambda d: table[curr][d])`: scans the
   * candidates and keeps the first one met with the smallest distance. The
   * scan order of a set is unspecified, so any closest candidate may come out.
   */
  method Closest(t: Table, curr: string, candidates: set<string>) returns (nearest: string)
    requires candidates != {}
    requires curr in t && forall d :: d in candidates ==> d in t[curr]
    ensures nearest in candidates
    ensures forall d :: d in candidates ==> t[curr][nearest] <= t[curr][d]
  {
    nearest :| nearest in candidates;
    var rest := candidates - {nearest};
    while rest != {}
      invariant rest <= candidates && nearest in candidates
      invariant forall d :: d in candidates - rest ==> t[curr][nearest] <= t[curr][d]
      decreases rest
    {
      var d :| d in rest;
      if t[curr][d] < t[curr][nearest] {
        nearest := d;
      }
      rest := rest - {d};
    }
  }

  /**
   * Every leg of `path` goes to a stop that was nearest among all stops still
   * ahead: no later stop is strictly closer to the point the leg leaves from.
   */
  ghost predicate GreedyLegs(t: Table, path: seq<string>)
    requires CoversPath(t, path)
  {
    forall k, m :: 1 <= k <= m < |path| ==> t[path[k - 1]][path[k]] <= t[path[k - 1]][path[m]]
  }

  /** No stop still to visit is strictly closer to a leg's origin than that leg's end. */
  ghost predicate NoneCloserAhead(t: Table, all: set<string>, path: seq<string>, unvisited: set<string>)
    requires Covers(t, all) && Within(path, all) && unvisited <= all
  {
    forall k, d :: 1 <= k < |path| && d in unvisited ==> t[path[k - 1]][path[k]] <= t[path[k - 1]][d]
  }

  /** Moving to a closest unvisited stop keeps every leg greedy. */
  lemma GreedyStepLegs(t: Table, all: set<string>, path: seq<string>, unvisited: set<string>, nxt: string)
    requires |path| >= 1 && Covers(t, all) && Within(path, all) && unvisited <= all
    requires CoversPath(t, path) && GreedyLegs(t, path)
    requires NoneCloserAhead(t, all, path, unvisited) && nxt in unvisited
    ensures CoversPath(t, path + [nxt]) && GreedyLegs(t, path + [nxt])
  {
    var p := path + [nxt];
    CoversWithin(t, all, p);
    forall k, m | 1 <= k <= m < |p| ensures t[p[k - 1]][p[k]] <= t[p[k - 1]][p[m]] {
      if m == |path| && k < m {
        assert p[m] == nxt && p[k] == path[k] && p[k - 1] == path[k - 1];
      }
    }
  }

  /** Moving to a closest unvisited stop leaves no remaining stop closer to any leg's origin. */
  lemma GreedyStepAhead(t: Table, all: set<string>, path: seq<string>, unvisited: set<string>, nxt: string)
    requires |path| >= 1 && Covers(t, all) && Within(path, all) && unvisited <= all
    requires NoneCloserAhead(t, all, path, unvisited) && nxt in unvisited
    requires forall d :: d in unvisited ==> t[path[|path| - 1]][nxt] <= t[path[|path| - 1]][d]
    ensures Within(path + [nxt], all) && NoneCloserAhead(t, all, path + [nxt], unvisited - {nxt})
  {
    var p := path + [nxt];
    forall k, d | 1 <= k < |p| && d in unvisited - {nxt} ensures t[p[k - 1]][p[k]] <= t[p[k - 1]][d] {
      assert p[k - 1] == path[k - 1];
    }
  }

  /** Moving to an unvisited stop keeps the path repetition-free and disjoint from what is left. */
  lemma GreedyStepStops(path: seq<string>, unvisited: set<string>, nxt: string)
    requires Distinct(path) && nxt in unvisited
    requires forall i :: 0 <= i < |path| ==> path[i] !in unvisited
    ensures Distinct(path + [nxt])
    ensures forall i :: 0 <= i < |path| + 1 ==> (path + [nxt])[i] !in unvisited - {nxt}
  {
  }

  /** Builds the greedy route from `start` through every selected destination. */
  method GreedyRoute(t: Table, dests: seq<string>, start: string) returns (r: RouteResult)
    requires Covers(t, Elements(dests) + {start})
    ensures |r.path| >= 1 && r.path[0] == start
    ensures Distinct(r.path)
    ensures forall d :: d in r.path <==> d in dests || d == start
    ensures r.count == |r.path| == |Elements(dests) + {start}|
    ensures start in dests && Distinct(dests) ==> r.count == |dests|
    ensures CoversPath(t, r.path) && r.distance == PathLength(t, r.path)
    ensures NonNegative(t, Elements(dests) + {start}) ==> r.distance >= 0.0
    ensures r.time == r.distance / 60.0
    ensures GreedyLegs(t, r.path)
  {
    var all := Elements(dests) + {start};
    var path, dist := GreedyTour(t, all, start);
    RouteFacts(t, dests, start, path);
    r := RouteResult(path, dist, dist / 60.0, |path|);
  }

  /**
   * What holds each time the route builder's loop tests its condition: `path`
   * starts at `start`, never repeats a stop, ends at `curr`, and together with
   * `unvisited` (which it does not meet) makes up `all`; `dist` is its length
   * and every leg so far was a greedy choice.
   */
  ghost predicate TourInvariant(t: Table, all: set<string>, start: string, path: seq<string>,
                                unvisited: set<string>, curr: string, dist: real)
  {
    && Covers(t, all)
    && |path| >= 1 && path[0] == start && curr == path[|path| - 1]
    && Distinct(path) && Within(path, all) && unvisited <= all
    && (forall i :: 0 <= i < |path| ==> path[i] !in unvisited)
    && (forall d :: d in all ==> d in path || d in unvisited)
    && CoversPath(t, path) && dist == PathLength(t, path)
    && GreedyLegs(t, path) && NoneCloserAhead(t, all, path, unvisited)
  }

  /** One turn of the route builder's loop: move to `nxt`, a closest unvisited stop. */
  lemma TourStep(t: Table, all: set<string>, start: string, path: seq<string>,
                 unvisited: set<string>, curr: string, dist: real, nxt: string)
    requires TourInvariant(t, all, start, path, unvisited, curr, dist)
    requires nxt in unvisited && forall d :: d in unvisited ==> t[curr][nxt] <= t[curr][d]
    ensures curr in t && nxt in t[curr]
    ensures TourInvariant(t, all, start, path + [nxt], unvisited - {nxt}, nxt, dist + t[curr][nxt])
  {
    GreedyStepLegs(t, all, path, unvisited, nxt);
    GreedyStepAhead(t, all, path, unvisited, nxt);
    GreedyStepStops(path, unvisited, nxt);
    PathLengthAppend(t, path, nxt);
    var p := path + [nxt];
    forall d | d in all ensures d in p || d in unvisited - {nxt} {
      if d in path {
        var i :| 0 <= i < |path| && path[i] == d;
        assert p[i] == d;
      }
    }
  }

  /** The loop of the route builder, over the set `all` of stops to visit. */
  method GreedyTour(t: Table, all: set<string>, start: string) returns (path: seq<string>, dist: real)
    requires Covers(t, all) && start in all
    ensures |path| >= 1 && path[0] == start
    ensures Distinct(path) && Within(path, all) && forall d :: d in all ==> d in path
    ensures CoversPath(t, path) && dist == PathLength(t, path)
    ensures GreedyLegs(t, path)
  {
    path := [start];
    var unvisited := all - {start};
    var curr := start;
    dist := 0.0;
    while unvisited != {}
      invariant TourInvariant(t, all, start, path, unvisited, curr, dist)
      decreases unvisited
    {
      var nxt := Closest(t, curr, unvisited);
      TourStep(t, all, start, path, unvisited, curr, dist, nxt);
      dist := dist + t[curr][nxt];
      path := path + [nxt];
      curr := nxt;
      unvisited := unvisited - {nxt};
    }
  }

  /** What a finished, repetition-free tour through `dests` and `start` amounts to. */
  lemma RouteFacts(t: Table, dests: seq<string>, start: string, path: seq<string>)
    requires Distinct(path) && Within(path, Elements(dests) + {start})
    requires forall d :: d in Elements(dests) + {start} ==> d in path
    requires Covers(t, Elements(dests) + {start})
    ensures forall d :: d in path <==> d in dests || d == start
    ensures |path| == |Elements(dests) + {start}|
    ensures start in dests && Distinct(dests) ==> |path| == |dests|
    ensures CoversPath(t, path)
    ensures NonNegative(t, Elements(dests) + {start}) ==> PathLength(t, path) >= 0.0
  {
    var all := Elements(dests) + {start};
    forall d | d in path ensures d in all {
      var i :| 0 <= i < |path| && path[i] == d;
    }
    assert Elements(path) == all;
    DistinctCard(path);
    if start in dests && Distinct(dests) {
      assert all == Elements(dests);
      DistinctCard(dests);
    }
    CoversWithin(t, all, path);
  }
}
