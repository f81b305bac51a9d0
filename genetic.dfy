/**
 * The itinerary optimizer: a small genetic search over orderings of the
 * selected destinations. A population of ten individuals (the start followed
 * by an ordering of the other destinations) evolves for thirty generations;
 * each generation ranks the population by fitness, keeps the five best
 * unchanged and adds a mutated copy of each of them. There is no crossover.
 *
 * The random draws of the source are inputs here: the ten initial orderings
 * (`random.sample` of the other destinations) and, per mutation, the two
 * positions to exchange (`random.sample(range(1, len(ind)), 2)`).
 */
module Genetic {
  import opened Seqs
  import opened Destinations
  import opened Distances
  import opened Scoring

  const PopulationSize: nat := 10
  const Survivors: nat := 5
  const Generations: nat := 30

  type Individual = seq<string>

  /** The two positions one mutation exchanges. */
  datatype Pick = Pick(i: nat, j: nat)

  /** A pick `random.sample(range(1, n), 2)` can draw: two distinct positions after the start. */
  predicate ValidPick(p: Pick, n: nat)
  {
    n > 2 ==> 1 <= p.i < n && 1 <= p.j < n && p.i != p.j
  }

  /** `[d for d in dests if d != start]`. */
  function Others(dests: seq<string>, start: string): (r: seq<string>)
    ensures multiset(r) == multiset(dests)[start := 0]
  {
    if dests == [] then []
    else
      assert dests == [dests[0]] + dests[1..];
      if dests[0] == start then Others(dests[1..], start)
      else [dests[0]] + Others(dests[1..], start)
  }

  /** Without repetitions, leaving out the start leaves one destination fewer. */
  lemma {:induction false} OthersLength(dests: seq<string>, start: string)
    requires Distinct(dests) && start in dests
    ensures |Others(dests, start)| == |dests| - 1
  {
    if dests[0] == start {
      assert start !in dests[1..];
      OthersWithout(dests[1..], start);
    } else {
      OthersLength(dests[1..], start);
    }
  }

  lemma {:induction false} OthersWithout(dests: seq<string>, start: string)
    requires start !in dests
    ensures Others(dests, start) == dests
  {
    if dests != [] {
      OthersWithout(dests[1..], start);
    }
  }

  /** An itinerary candidate: the start, then an ordering of the other destinations. */
  ghost predicate IsIndividual(ind: Individual, start: string, others: seq<string>)
  {
    |ind| == |others| + 1 && ind[0] == start && multiset(ind[1..]) == multiset(others)
  }

  /** What `mutate` makes of an individual: exchange two positions, or nothing when there are at most two stops. */
  function Mutation(ind: Individual, p: Pick): (r: Individual)
    requires ValidPick(p, |ind|)
    ensures |r| == |ind| && multiset(r) == multiset(ind)
    ensures |ind| <= 2 ==> r == ind
    ensures |ind| > 2 ==> r[p.i] == ind[p.j] && r[p.j] == ind[p.i]
    ensures forall k :: 0 <= k < |ind| && (|ind| <= 2 || (k != p.i && k != p.j)) ==> r[k] == ind[k]
  {
    if |ind| > 2 then Swap(ind, p.i, p.j) else ind
  }

  /** A mutated individual is still an individual: the start stays first. */
  lemma MutationKeepsIndividual(ind: Individual, p: Pick, start: string, others: seq<string>)
    requires IsIndividual(ind, start, others) && ValidPick(p, |ind|)
    ensures IsIndividual(Mutation(ind, p), start, others)
  {
    if |ind| > 2 {
      assert Mutation(ind, p)[1..] == Swap(ind[1..], p.i - 1, p.j - 1);
    }
  }

  /** `mutate(ind)`: exchanges two positions of the list in place. */
  method Mutate(ind: array<string>, p: Pick)
    requires ValidPick(p, ind.Length)
    modifies ind
    ensures ind[..] == Mutation(old(ind[..]), p)
  {
    if ind.Length > 2 {
      ind[p.i], ind[p.j] := ind[p.j], ind[p.i];
    }
  }

  /** The planning request the optimizer works for: a budget and selected destinations the table and catalog know. */
  ghost predicate Setting(env: Env, dests: seq<string>)
  {
    && env.budget > 0.0
    && InCatalog(env.catalog, dests)
    && Covers(env.table, Elements(dests))
    && NonNegative(env.table, Elements(dests))
  }

  /** Every individual of a request can be scored. */
  lemma IndividualScorable(env: Env, dests: seq<string>, start: string, ind: Individual)
    requires Setting(env, dests) && start in dests
    requires IsIndividual(ind, start, Others(dests, start))
    ensures Scorable(env, ind)
  {
    forall i | 0 <= i < |ind| ensures ind[i] in dests {
      if i > 0 {
        assert ind[1..][i - 1] == ind[i];
        assert ind[i] in multiset(Others(dests, start));
      }
    }
    CoversWithin(env.table, Elements(dests), ind);
  }

  ghost predicate AllScorable(env: Env, s: seq<Individual>)
  {
    forall k :: 0 <= k < |s| ==> Scorable(env, s[k])
  }

  /** Best first: what `sort(key=lambda ind: -fitness(ind))` leaves behind. */
  ghost predicate RankedByFitness(env: Env, s: seq<Individual>)
    requires AllScorable(env, s)
  {
    forall i, j :: 0 <= i < j < |s| ==> Fitness(env, s[i]) >= Fitness(env, s[j])
  }

  /** Two individuals of one request visit the same stops. */
  lemma SameStops(a: Individual, b: Individual, start: string, others: seq<string>)
    requires IsIndividual(a, start, others) && IsIndividual(b, start, others)
    ensures multiset(a) == multiset(b)
  {
    assert a == [start] + a[1..] && b == [start] + b[1..];
  }

  /**
   * Since every individual visits the same stops, ranking a population by
   * fitness puts it in order of path length, shortest first.
   */
  lemma RankedByLength(env: Env, start: string, others: seq<string>, ranked: seq<Individual>)
    requires forall k :: 0 <= k < |ranked| ==> IsIndividual(ranked[k], start, others)
    requires AllScorable(env, ranked) && RankedByFitness(env, ranked)
    ensures forall i, j :: 0 <= i < j < |ranked| ==> PathLength(env.table, ranked[i]) <= PathLength(env.table, ranked[j])
  {
    forall i, j | 0 <= i < j < |ranked| ensures PathLength(env.table, ranked[i]) <= PathLength(env.table, ranked[j]) {
      SameStops(ranked[i], ranked[j], start, others);
      FitterIffShorter(env, ranked[i], ranked[j]);
    }
  }

  /** An individual paired with its sort key, as Python's key-sort decorates it. */
  datatype Scored = Scored(ind: Individual, score: real)

  function Inds(s: seq<Scored>): (r: seq<Individual>)
    ensures |r| == |s| && forall k :: 0 <= k < |s| ==> r[k] == s[k].ind
  {
    seq(|s|, k requires 0 <= k < |s| => s[k].ind)
  }

  /** Every key is the fitness of the individual it is attached to. */
  ghost predicate Evaluated(env: Env, s: seq<Scored>)
  {
    forall k :: 0 <= k < |s| ==> Scorable(env, s[k].ind) && s[k].score == Fitness(env, s[k].ind)
  }

  /** The keys of a population, computed once per individual before sorting. */
  function Evaluate(env: Env, pop: seq<Individual>): (r: seq<Scored>)
    requires AllScorable(env, pop)
    ensures Inds(r) == pop && Evaluated(env, r)
  {
    seq(|pop|, k requires 0 <= k < |pop| && Scorable(env, pop[k]) => Scored(pop[k], Fitness(env, pop[k])))
  }

  /** Highest key first. */
  predicate BestFirst(s: seq<Scored>)
  {
    forall i, j :: 0 <= i < j < |s| ==> s[i].score >= s[j].score
  }

  method SwapEntries(a: array<Scored>, i: nat, j: nat)
    requires i < a.Length && j < a.Length
    modifies a
    ensures a[..] == Swap(old(a[..]), i, j)
  {
    a[i], a[j] := a[j], a[i];
  }

  /** Exchanging two keyed entries exchanges the same two individuals. */
  lemma SwapInds(s: seq<Scored>, i: nat, j: nat)
    requires i < |s| && j < |s|
    ensures Inds(Swap(s, i, j)) == Swap(Inds(s), i, j)
    ensures multiset(Inds(Swap(s, i, j))) == multiset(Inds(s))
  {
    assert Inds(Swap(s, i, j)) == Swap(Inds(s), i, j);
  }

  /**
   * While entry `i` sinks towards the front: `s[..i+1]` is best first except
   * around position `j`, and the entry at `j` beats everything after it.
   */
  ghost predicate Inserting(s: seq<Scored>, i: nat, j: nat)
  {
    && j <= i < |s|
    && (forall p, q :: 0 <= p < q <= i && p != j && q != j ==> s[p].score >= s[q].score)
    && (forall q :: j < q <= i ==> s[j].score > s[q].score)
  }

  /** One exchange of the insertion step. */
  lemma InsertingStep(s: seq<Scored>, i: nat, j: nat)
    requires Inserting(s, i, j) && j > 0 && s[j - 1].score < s[j].score
    ensures Inserting(Swap(s, j - 1, j), i, j - 1)
  {
    var t := Swap(s, j - 1, j);
    forall p, q | 0 <= p < q <= i && p != j - 1 && q != j - 1 ensures t[p].score >= t[q].score {
      if p == j {
        assert t[p] == s[j - 1];
      } else if q == j {
        assert t[q] == s[j - 1];
      }
    }
  }

  /** When the sinking entry stops, `s[..i+1]` is best first. */
  lemma InsertingDone(s: seq<Scored>, i: nat, j: nat)
    requires Inserting(s, i, j) && (j == 0 || s[j - 1].score >= s[j].score)
    ensures BestFirst(s[..i + 1])
  {
    forall p, q | 0 <= p < q <= i ensures s[p].score >= s[q].score {
      if q == j && p < j - 1 {
        assert s[p].score >= s[j - 1].score;
      }
    }
  }

  /**
   * The sort of `pop.sort(key=lambda ind: -fitness(ind))`, as an insertion
   * sort over the keyed entries: rearranged in place, highest key first.
   */
  method SortByScore(a: array<Scored>)
    modifies a
    ensures multiset(a[..]) == old(multiset(a[..]))
    ensures multiset(Inds(a[..])) == old(multiset(Inds(a[..])))
    ensures BestFirst(a[..])
  {
    for i := 0 to a.Length
      invariant multiset(a[..]) == old(multiset(a[..]))
      invariant multiset(Inds(a[..])) == old(multiset(Inds(a[..])))
      invariant BestFirst(a[..i])
    {
      var j := i;
      assert Inserting(a[..], i, j) by {
        assert forall p :: 0 <= p < i ==> a[..i][p] == a[p];
      }
      while j > 0 && a[j - 1].score < a[j].score
        invariant multiset(a[..]) == old(multiset(a[..]))
        invariant multiset(Inds(a[..])) == old(multiset(Inds(a[..])))
        invariant Inserting(a[..], i, j)
      {
        InsertingStep(a[..], i, j);
        SwapInds(a[..], j - 1, j);
        SwapEntries(a, j - 1, j);
        j := j - 1;
      }
      InsertingDone(a[..], i, j);
      assert a[..i + 1] == a[..][..i + 1];
    }
    assert a[..a.Length] == a[..];
  }

  /** `max(pop, key=fitness)`: the position of the first entry with the highest key. */
  method Fittest(s: seq<Scored>) returns (best: nat)
    requires |s| > 0
    ensures best < |s|
    ensures forall k :: 0 <= k < |s| ==> s[k].score <= s[best].score
    ensures forall k :: 0 <= k < best ==> s[k].score < s[best].score
  {
    best := 0;
    for k := 1 to |s|
      invariant best < k
      invariant forall m :: 0 <= m < k ==> s[m].score <= s[best].score
      invariant forall m :: 0 <= m < best ==> s[m].score < s[best].score
    {
      if s[k].score > s[best].score {
        best := k;
      }
    }
  }

  /** Rearranging keyed entries keeps every key attached to its own individual. */
  lemma EvaluatedPermutation(env: Env, s: seq<Scored>, t: seq<Scored>)
    requires Evaluated(env, s) && multiset(t) == multiset(s)
    ensures Evaluated(env, t)
  {
    forall k | 0 <= k < |t| ensures Scorable(env, t[k].ind) && t[k].score == Fitness(env, t[k].ind) {
      assert t[k] in multiset(s);
      var m :| 0 <= m < |s| && s[m] == t[k];
    }
  }

  /** Entries sorted by their fitness keys are individuals ranked by fitness. */
  lemma RankedFromKeys(env: Env, s: seq<Scored>)
    requires Evaluated(env, s) && BestFirst(s)
    ensures AllScorable(env, Inds(s)) && RankedByFitness(env, Inds(s))
  {
    var r := Inds(s);
    forall i, j | 0 <= i < j < |r| ensures Fitness(env, r[i]) >= Fitness(env, r[j]) {
      assert s[i].score >= s[j].score;
    }
  }

  /** Reordering individuals leaves individuals. */
  lemma RankedIndividuals(start: string, others: seq<string>, pop: seq<Individual>, ranked: seq<Individual>)
    requires multiset(ranked) == multiset(pop)
    requires forall k :: 0 <= k < |pop| ==> IsIndividual(pop[k], start, others)
    ensures |ranked| == |pop|
    ensures forall k :: 0 <= k < |ranked| ==> IsIndividual(ranked[k], start, others)
  {
    assert |ranked| == |multiset(ranked)| == |multiset(pop)| == |pop|;
    forall k | 0 <= k < |ranked| ensures IsIndividual(ranked[k], start, others) {
      assert ranked[k] in multiset(pop);
    }
  }

  /** The first of a ranking is at least as fit as anything it ranks. */
  lemma FirstIsFittest(env: Env, pop: seq<Individual>, ranked: seq<Individual>)
    requires multiset(ranked) == multiset(pop) && |pop| > 0
    requires AllScorable(env, pop) && AllScorable(env, ranked) && RankedByFitness(env, ranked)
    ensures |ranked| > 0
    ensures forall k :: 0 <= k < |pop| ==> Fitness(env, pop[k]) <= Fitness(env, ranked[0])
  {
    assert |ranked| == |multiset(ranked)| == |multiset(pop)| == |pop|;
    forall k | 0 <= k < |pop| ensures Fitness(env, pop[k]) <= Fitness(env, ranked[0]) {
      assert pop[k] in multiset(ranked);
      var j :| 0 <= j < |ranked| && ranked[j] == pop[k];
      assert j == 0 || Fitness(env, ranked[0]) >= Fitness(env, ranked[j]);
    }
  }

  /** `pop.sort(key=lambda ind: -fitness(ind))`: the population ranked best first. */
  method Rank(env: Env, pop: seq<Individual>) returns (ranked: seq<Individual>)
    requires AllScorable(env, pop)
    ensures multiset(ranked) == multiset(pop)
    ensures AllScorable(env, ranked) && RankedByFitness(env, ranked)
  {
    var keyed := Evaluate(env, pop);
    var a := new Scored[|keyed|](k requires 0 <= k < |keyed| => keyed[k]);
    assert a[..] == keyed;
    SortByScore(a);
    EvaluatedPermutation(env, keyed, a[..]);
    RankedFromKeys(env, a[..]);
    ranked := Inds(a[..]);
  }

  /**
   * One generation: rank the population, keep the five best as they are and
   * append a mutated copy of each of them.
   */
  method NextGeneration(env: Env, dests: seq<string>, start: string, pop: seq<Individual>, picks: seq<Pick>)
    returns (ranked: seq<Individual>, next: seq<Individual>)
    requires Setting(env, dests) && start in dests
    requires |pop| == PopulationSize
    requires forall k :: 0 <= k < |pop| ==> IsIndividual(pop[k], start, Others(dests, start))
    requires |picks| == Survivors
    requires forall k :: 0 <= k < Survivors ==> ValidPick(picks[k], |Others(dests, start)| + 1)
    ensures multiset(ranked) == multiset(pop) && |ranked| == PopulationSize
    ensures forall k :: 0 <= k < |ranked| ==> IsIndividual(ranked[k], start, Others(dests, start))
    ensures AllScorable(env, ranked) && RankedByFitness(env, ranked)
    ensures |next| == PopulationSize
    ensures next[..Survivors] == ranked[..Survivors]
    ensures forall k :: 0 <= k < Survivors ==>
              ValidPick(picks[k], |ranked[k]|) && next[Survivors + k] == Mutation(ranked[k], picks[k])
    ensures forall k :: 0 <= k < |next| ==> IsIndividual(next[k], start, Others(dests, start))
    ensures AllScorable(env, pop) && AllScorable(env, next)
    ensures forall k :: 0 <= k < |pop| ==> Fitness(env, pop[k]) <= Fitness(env, next[0])
  {
    var others := Others(dests, start);
    forall k | 0 <= k < |pop| ensures Scorable(env, pop[k]) {
      IndividualScorable(env, dests, start, pop[k]);
    }
    ranked := Rank(env, pop);
    RankedIndividuals(start, others, pop, ranked);
    FirstIsFittest(env, pop, ranked);
    var children := MutatedCopies(ranked[..Survivors], picks);
    next := ranked[..Survivors] + children;
    NextIndividuals(env, dests, start, ranked, picks, next);
  }

  /** `[mutate(ind[:]) for ind in survivors]`: a mutated copy of each survivor, the survivors untouched. */
  method MutatedCopies(survivors: seq<Individual>, picks: seq<Pick>) returns (children: seq<Individual>)
    requires |picks| == |survivors|
    requires forall k :: 0 <= k < |survivors| ==> ValidPick(picks[k], |survivors[k]|)
    ensures |children| == |survivors|
    ensures forall k :: 0 <= k < |survivors| ==> children[k] == Mutation(survivors[k], picks[k])
  {
    children := [];
    for k := 0 to |survivors|
      invariant |children| == k
      invariant forall m :: 0 <= m < k ==> children[m] == Mutation(survivors[m], picks[m])
    {
      var ind := survivors[k];
      var copy := new string[|ind|](i requires 0 <= i < |ind| => ind[i]);
      assert copy[..] == ind;
      Mutate(copy, picks[k]);
      children := children + [copy[..]];
    }
  }

  /** The survivors and their mutated copies are all individuals that can be scored. */
  lemma NextIndividuals(env: Env, dests: seq<string>, start: string, ranked: seq<Individual>, picks: seq<Pick>, next: seq<Individual>)
    requires Setting(env, dests) && start in dests
    requires |ranked| == PopulationSize && |picks| == Survivors && |next| == PopulationSize
    requires forall k :: 0 <= k < |ranked| ==> IsIndividual(ranked[k], start, Others(dests, start))
    requires forall k :: 0 <= k < Survivors ==> ValidPick(picks[k], |Others(dests, start)| + 1)
    requires next[..Survivors] == ranked[..Survivors]
    requires forall k :: 0 <= k < Survivors ==>
               ValidPick(picks[k], |ranked[k]|) && next[Survivors + k] == Mutation(ranked[k], picks[k])
    ensures forall k :: 0 <= k < |next| ==> IsIndividual(next[k], start, Others(dests, start))
    ensures AllScorable(env, next)
  {
    var others := Others(dests, start);
    forall k | 0 <= k < |next| ensures IsIndividual(next[k], start, others) && Scorable(env, next[k]) {
      if k >= Survivors {
        MutationKeepsIndividual(ranked[k - Survivors], picks[k - Survivors], start, others);
      } else {
        assert next[k] == next[..Survivors][k];
      }
      IndividualScorable(env, dests, start, next[k]);
    }
  }

  /** `ranked` is `pop` sorted best first, as the sort of each generation leaves it. */
  ghost predicate Ranking(env: Env, pop: seq<Individual>, ranked: seq<Individual>)
  {
    multiset(ranked) == multiset(pop) && AllScorable(env, ranked) && RankedByFitness(env, ranked)
  }

  /** `next` is the first five of `ranked` followed by a copy of each mutated under its pick. */
  ghost predicate Bred(ranked: seq<Individual>, picks: seq<Pick>, next: seq<Individual>)
  {
    && |ranked| >= Survivors && |picks| == Survivors && |next| == PopulationSize
    && next[..Survivors] == ranked[..Survivors]
    && forall k :: 0 <= k < Survivors ==>
         ValidPick(picks[k], |ranked[k]|) && next[Survivors + k] == Mutation(ranked[k], picks[k])
  }

  /** One pass of the generation loop turns `pop` into `next` using the five picks. */
  ghost predicate GenerationStep(env: Env, pop: seq<Individual>, picks: seq<Pick>, next: seq<Individual>)
  {
    exists ranked :: Ranking(env, pop, ranked) && Bred(ranked, picks, next)
  }

  /** The ten starting individuals: the start followed by each drawn ordering of the others. */
  function Initial(start: string, others: seq<string>, shuffles: seq<seq<string>>): (r: seq<Individual>)
    requires |shuffles| == PopulationSize
    requires forall k :: 0 <= k < PopulationSize ==> multiset(shuffles[k]) == multiset(others)
    ensures |r| == PopulationSize
    ensures forall k :: 0 <= k < PopulationSize ==> r[k] == [start] + shuffles[k] && IsIndividual(r[k], start, others)
  {
    assert forall k :: 0 <= k < PopulationSize ==>
      ([start] + shuffles[k])[1..] == shuffles[k] && |shuffles[k]| == |multiset(others)| == |others|;
    seq(PopulationSize, k requires 0 <= k < PopulationSize => [start] + shuffles[k])
  }

  /**
   * `history` is the run of the optimizer on these draws: the initial ten,
   * then the population after each of the thirty generations, each made
   * from the one before by `GenerationStep` with that generation's five picks.
   */
  ghost predicate Evolved(env: Env, start: string, others: seq<string>, shuffles: seq<seq<string>>,
                          picks: seq<Pick>, history: seq<seq<Individual>>)
  {
    && |shuffles| == PopulationSize
    && (forall k :: 0 <= k < PopulationSize ==> multiset(shuffles[k]) == multiset(others))
    && |picks| == Generations * Survivors
    && |history| == Generations + 1
    && history[0] == Initial(start, others, shuffles)
    && forall g :: 0 <= g < Generations ==>
         GenerationStep(env, history[g], picks[g * Survivors .. (g + 1) * Survivors], history[g + 1])
  }

  /**
   * What the optimizer promises about `best` and `score` on these draws:
   * `history` is its run, `best` is the first fittest member of the last
   * population (as `max` picks it), `score` is its fitness, and nobody in the
   * last or the first population is fitter.
   */
  ghost predicate Optimized(env: Env, start: string, others: seq<string>, shuffles: seq<seq<string>>,
                            picks: seq<Pick>, history: seq<seq<Individual>>, best: Individual, score: real)
  {
    && Evolved(env, start, others, shuffles, picks, history)
    && IsIndividual(best, start, others) && Scorable(env, best) && score == Fitness(env, best)
    && |history[Generations]| == PopulationSize && best in history[Generations]
    && AllScorable(env, history[Generations])
    && (forall k :: 0 <= k < PopulationSize ==> Fitness(env, history[Generations][k]) <= score)
    && (exists i :: 0 <= i < PopulationSize && history[Generations][i] == best &&
          forall k :: 0 <= k < i ==> Fitness(env, history[Generations][k]) < score)
    && AllScorable(env, history[0])
    && (forall k :: 0 <= k < PopulationSize ==> Fitness(env, history[0][k]) <= score)
  }

  /** Each drawn ordering of the other destinations gives an individual that can be scored. */
  lemma InitialScorable(env: Env, dests: seq<string>, start: string, shuffles: seq<seq<string>>)
    requires Setting(env, dests) && start in dests
    requires |shuffles| == PopulationSize
    requires forall k :: 0 <= k < PopulationSize ==> multiset(shuffles[k]) == multiset(Others(dests, start))
    ensures AllScorable(env, Initial(start, Others(dests, start), shuffles))
  {
    var initial := Initial(start, Others(dests, start), shuffles);
    forall k | 0 <= k < PopulationSize ensures Scorable(env, initial[k]) {
      IndividualScorable(env, dests, start, initial[k]);
    }
  }

  /** Recording one more generation keeps the recorded steps. */
  lemma ExtendHistory(env: Env, history: seq<seq<Individual>>, picks: seq<Pick>, g: nat, next: seq<Individual>)
    requires |history| == g + 1 && (g + 1) * Survivors <= |picks|
    requires forall h :: 0 <= h < g ==>
               GenerationStep(env, history[h], picks[h * Survivors .. (h + 1) * Survivors], history[h + 1])
    requires GenerationStep(env, history[g], picks[g * Survivors .. (g + 1) * Survivors], next)
    ensures var h2 := history + [next];
      forall h :: 0 <= h < g + 1 ==> GenerationStep(env, h2[h], picks[h * Survivors .. (h + 1) * Survivors], h2[h + 1])
  {
    var h2 := history + [next];
    forall h | 0 <= h < g + 1
      ensures GenerationStep(env, h2[h], picks[h * Survivors .. (h + 1) * Survivors], h2[h + 1])
    {
      assert h2[h] == history[h];
      if h < g {
        assert h2[h + 1] == history[h + 1];
      } else {
        assert h2[h + 1] == next;
      }
    }
  }

  /**
   * The loop of `genetic_itinerary`: thirty generations from the initial
   * population. `history` records every population the loop goes through.
   */
  method Evolve(env: Env, dests: seq<string>, start: string, shuffles: seq<seq<string>>, picks: seq<Pick>)
    returns (pop: seq<Individual>, ghost history: seq<seq<Individual>>)
    requires Setting(env, dests) && start in dests && Distinct(dests)
    requires |shuffles| == PopulationSize
    requires forall k :: 0 <= k < PopulationSize ==> multiset(shuffles[k]) == multiset(Others(dests, start))
    requires |picks| == Generations * Survivors
    requires forall k :: 0 <= k < |picks| ==> ValidPick(picks[k], |dests|)
    ensures Evolved(env, start, Others(dests, start), shuffles, picks, history)
    ensures history[Generations] == pop && |pop| == PopulationSize
    ensures forall k :: 0 <= k < |pop| ==> IsIndividual(pop[k], start, Others(dests, start))
    ensures AllScorable(env, pop) && AllScorable(env, history[0])
    ensures forall m :: 0 <= m < PopulationSize ==> Fitness(env, history[0][m]) <= Fitness(env, pop[0])
  {
    var others := Others(dests, start);
    OthersLength(dests, start);
    var initial := Initial(start, others, shuffles);
    InitialScorable(env, dests, start, shuffles);
    pop := initial;
    history := [initial];
    for g := 0 to Generations
      invariant |pop| == PopulationSize
      invariant forall k :: 0 <= k < |pop| ==> IsIndividual(pop[k], start, others)
      invariant AllScorable(env, pop)
      invariant |history| == g + 1 && history[0] == initial && history[g] == pop
      invariant forall h :: 0 <= h < g ==>
                  GenerationStep(env, history[h], picks[h * Survivors .. (h + 1) * Survivors], history[h + 1])
      invariant g > 0 ==> forall m :: 0 <= m < PopulationSize ==> Fitness(env, initial[m]) <= Fitness(env, pop[0])
    {
      var slice := picks[g * Survivors .. (g + 1) * Survivors];
      var ranked, next := NextGeneration(env, dests, start, pop, slice);
      assert Ranking(env, pop, ranked) && Bred(ranked, slice, next);
      ExtendHistory(env, history, picks, g, next);
      history := history + [next];
      pop := next;
    }
  }

  /**
   * `genetic_itinerary`: evolves the population for thirty generations and
   * returns the first fittest individual of the last one with its fitness.
   * `history` records every population the loop goes through.
   */
  method GeneticItinerary(env: Env, dests: seq<string>, start: string, shuffles: seq<seq<string>>, picks: seq<Pick>)
    returns (best: Individual, score: real, ghost history: seq<seq<Individual>>)
    requires Setting(env, dests) && start in dests && Distinct(dests)
    requires |shuffles| == PopulationSize
    requires forall k :: 0 <= k < PopulationSize ==> multiset(shuffles[k]) == multiset(Others(dests, start))
    requires |picks| == Generations * Survivors
    requires forall k :: 0 <= k < |picks| ==> ValidPick(picks[k], |dests|)
    ensures Evolved(env, start, Others(dests, start), shuffles, picks, history)
    ensures IsIndividual(best, start, Others(dests, start)) && |best| == |dests|
    ensures Scorable(env, best) && score == Fitness(env, best)
    ensures |history[Generations]| == PopulationSize && best in history[Generations]
    ensures AllScorable(env, history[Generations])
    ensures forall k :: 0 <= k < PopulationSize ==> Fitness(env, history[Generations][k]) <= score
    ensures exists i :: 0 <= i < PopulationSize && history[Generations][i] == best &&
              forall k :: 0 <= k < i ==> Fitness(env, history[Generations][k]) < score
    ensures AllScorable(env, history[0])
    ensures forall k :: 0 <= k < PopulationSize ==> Fitness(env, history[0][k]) <= score
  {
    var pop: seq<Individual>;
    pop, history := Evolve(env, dests, start, shuffles, picks);
    var keyed := Evaluate(env, pop);
    var i := Fittest(keyed);
    best, score := pop[i], keyed[i].score;
    assert forall k :: 0 <= k < i ==> Fitness(env, pop[k]) < score;
    OthersLength(dests, start);
    assert IsIndividual(best, start, Others(dests, start));
    IndividualScorable(env, dests, start, best);
  }
}
