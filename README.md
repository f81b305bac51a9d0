# Travel planner core, modelled in Dafny

This project models the planning engine of the AI travel planner
(`project-AI.py`, class `TravelPlannerGUI`). The engine has five pieces,
each modelled here and proved against a specification:

- **Destination catalog** (`destinations.dfy`). Ten destinations, each with coordinates, category tags, a base
  cost and a rating.
- **Distance table** (`distances.dfy`). `calc_distances` fills a name-by-name table. Self-pairs are 0 km and every
  other pair comes from the haversine formula. The module also defines the length of a path through the table.
- **Greedy route** (`route.dfy`). `astar_route` is a nearest-neighbour tour, not an A* search. It starts at the start
  destination and keeps moving to the closest unvisited selected destination. It reports the path, the distance,
  the time at 60 km/h and the number of stops.
- **Itinerary optimizer** (`scoring.dfy`, `genetic.dfy`). `fitness` scores an ordering by distance, interest match,
  rating and a budget penalty. `genetic_itinerary` evolves ten orderings for thirty generations. Each generation
  ranks the population by fitness, keeps the best five and appends a mutated copy of each. `mutate` swaps two
  positions after the start.
- **Costs, validation and verdict** (`costs.dfy`, `plan.dfy`). `calc_costs` gives five categories; the total is their
  sum. The verdict reads "Within budget" exactly when the total is at most the budget. `generate_plan` rejects a
  request before doing any work when fewer than two destinations are selected, when the start is not selected,
  or when the budget or the day count is not positive. It makes these checks in that order.

The model follows the program's own form:

- Loops become methods with invariants: the table fill, the greedy tour, the scan for the closest candidate, the
  in-place sort, the search for the fittest and the thirty generations.
- The in-place swap of `mutate` works on an `array`.
- The closed-form pieces become functions: fitness, the penalty, the cost estimate and the checks.
- Arithmetic uses exact `real`.
- The random draws are inputs, so every property holds for every possible draw:
  - the ten orderings from `random.sample` at line 138
  - the position pairs from `random.sample` at line 154
- The haversine formula is a function-valued parameter. The model assumes only that it is non-negative and
  symmetric (`HaversineLike`).

The budget and the day count are checked together, with one message, "Budget/days must be positive"
(`project-AI.py:109-111`), so `Plan.PlanError` has the single case `NonPositiveBudgetOrDays` for both.

## Model

| member | source | states |
|---|---|---|
| `Destinations.KnownDestinations` | project-AI.py:15-27 | The catalog's names are exactly the ten of the source: New York, Paris, Tokyo, London, Rome, Barcelona, Sydney, Bangkok, Dubai and Bali. Every entry has a positive base cost, at least one category and a rating between 0 and 5. |
| `Destinations.Overlap` | project-AI.py:148 | `len(set(categories) & set(interests))` is at most the number of distinct categories and at most the number of distinct interests. It is 0 exactly when no category is among the interests. |
| `Destinations.BaseCostSum` | project-AI.py:147 | The sum of the stops' base costs, left to right. Over a well-formed catalog it is at least the number of stops. |
| `Destinations.BaseCostSumAppend` | project-AI.py:147 | The sum over two joined lists of stops is the sum of the two sums. |
| `Destinations.BaseCostSumRemoveAt` | project-AI.py:147 | Taking any one stop out of the list lowers the sum by exactly that stop's base cost. |
| `Destinations.BaseCostSumPermutation` | project-AI.py:147 | The sum of the base costs is the same for every ordering of the same stops. |
| `Distances.Entry` | project-AI.py:33-37 | The table entry for a pair: 0 for a destination with itself, the haversine value otherwise. It is never negative when the formula is not. |
| `Distances.CalcDistances` | project-AI.py:29-38 | The table has a row for every catalog name, and every row has a column for every catalog name. An entry is 0 on the diagonal and the haversine value elsewhere. For a haversine-like formula the result is a distance table: complete, non-negative, symmetric, with a zero diagonal. |
| `Distances.HaversineTable` | project-AI.py:33-37 | Filling every entry from a non-negative, symmetric formula, with 0 on the diagonal, gives a distance table. |
| `Distances.CoversWithin` | project-AI.py:131 | A table that covers a set of names covers every path through those names, and keeps its non-negativity along the path. |
| `Distances.PathLength` | project-AI.py:146 | The length of a path, leg by leg. When no entry between its stops is negative, the length is not negative. |
| `Distances.PathLengthAppend` | project-AI.py:131-133 | Appending a stop to a path adds exactly the one new leg to its length. |
| `Route.Closest` | project-AI.py:130 | The chosen stop is one of the unvisited ones, and no unvisited stop is strictly closer to the current one. |
| `Route.GreedyStepLegs` | project-AI.py:130-132 | Moving to a closest unvisited stop keeps every leg of the path a greedy choice. |
| `Route.GreedyStepAhead` | project-AI.py:130-134 | After the move, no stop still to visit is closer to any leg's origin than that leg's end. |
| `Route.GreedyStepStops` | project-AI.py:132-134 | After the move, the path still has no repeated stop and shares no stop with the unvisited set. |
| `Route.TourStep` | project-AI.py:130-134 | One turn of the loop keeps the whole loop invariant. The path still starts at the start, is repetition-free and ends at the current stop. Path and unvisited set still make up the selection. The distance is still the path's length, and every leg is greedy. |
| `Route.GreedyTour` | project-AI.py:125-134 | When the loop ends, the path starts at the start, visits every selected stop exactly once and nothing else. The accumulated distance equals the sum of its legs, and every leg went to a nearest remaining stop. |
| `Route.RouteFacts` | project-AI.py:135 | A repetition-free tour of the selection contains exactly the selected names and the start. Its length is the number of distinct names, or the number of selected destinations when they are distinct and include the start. |
| `Route.GreedyRoute` | project-AI.py:124-135 | The path begins with the start, has no repeats and contains exactly the selected destinations and the start. The count equals the path length, and equals the number of distinct names. The distance is the sum of the table over consecutive pairs, and is non-negative over a non-negative table. The time is distance/60. At every step no unvisited stop was strictly closer than the one chosen. |
| `Scoring.DistanceTerm` | project-AI.py:150 | For a non-negative distance, `1000/(1+dist/100)` lies in (0, 1000]. It equals 1000 exactly when the distance is 0. |
| `Scoring.DistanceTermAntitone` | project-AI.py:150 | The distance reward never grows as the distance grows, and strictly shrinks when the distance strictly grows. |
| `Scoring.Penalty` | project-AI.py:149 | The penalty is never negative. It is 0 exactly when the cost is within budget; otherwise it is 100·(cost−budget)/budget. |
| `Scoring.PenaltyMonotone` | project-AI.py:149 | The penalty never decreases as the cost grows. |
| `Scoring.TripCost` | project-AI.py:147 | The cost estimate inside the fitness. For a non-empty itinerary with non-negative legs, it is at least the sum of the stops' base costs. |
| `Scoring.InterestScore` | project-AI.py:148 | The interest score, stop by stop. Over a well-formed catalog it is never negative. `InterestScorePermutation` shows it does not depend on the order of the stops. |
| `Scoring.InterestScoreAppend` | project-AI.py:148 | The interest score of two joined lists of stops is the sum of the two scores. |
| `Scoring.InterestScoreRemoveAt` | project-AI.py:148 | Taking any one stop out of the list lowers the score by exactly that stop's points: ten per matching interest and five per rating point. |
| `Scoring.InterestScorePermutation` | project-AI.py:148 | The interest score is the same for every ordering of the same stops. |
| `Scoring.Fitness` | project-AI.py:145-150 | Fitness is at most 1000 plus the interest score. Within budget, it is strictly above the interest score. |
| `Scoring.OverBudgetPenalised` | project-AI.py:147-150 | Over budget, fitness is strictly below its distance and interest terms. |
| `Scoring.FitterIffShorter` | project-AI.py:145-150 | Of two orderings of the same stops, one is at least as fit as the other if and only if its path is no longer. |
| `Scoring.WithinBudgetScoresPositive` | project-AI.py:145-150 | Within budget, over a well-formed catalog, every itinerary scores above zero. |
| `Genetic.Others` | project-AI.py:138 | The destinations other than the start, as a multiset: the selection with every copy of the start removed. |
| `Genetic.OthersLength` | project-AI.py:138 | For a repetition-free selection that contains the start, there are `len(dests)-1` others, the sample size the code asks for. |
| `Genetic.Mutation` | project-AI.py:152-156 | The result is a permutation of the input with the same length. With at most two stops it is the input unchanged. Otherwise exactly the two picked positions are exchanged and every other position, including position 0, is kept. |
| `Genetic.MutationKeepsIndividual` | project-AI.py:152-156 | A mutated individual is still the start followed by an ordering of the other destinations. |
| `Genetic.Mutate` | project-AI.py:152-156 | The in-place swap on the array leaves it holding `Mutation` of its old contents. |
| `Genetic.IndividualScorable` | project-AI.py:138-140 | Every individual of a valid request can be scored: its stops are in the catalog and every leg has a non-negative table entry. |
| `Genetic.SameStops` | project-AI.py:138 | Two individuals of one request hold the same stops. |
| `Genetic.RankedByLength` | project-AI.py:140 | A population ranked by fitness is in order of path length, shortest first. |
| `Genetic.SwapInds` | project-AI.py:140 | Exchanging two keyed entries exchanges the same two individuals, so the population is a permutation of itself. |
| `Genetic.InsertingStep` | project-AI.py:140 | One exchange of the insertion step keeps the sorted prefix sorted around the sinking entry. |
| `Genetic.InsertingDone` | project-AI.py:140 | When the sinking entry stops, the prefix up to it is sorted best first. |
| `Genetic.SortByScore` | project-AI.py:140 | After the in-place sort, the entries are a permutation of the old ones, and so are their individuals. Keys never increase from front to back. |
| `Genetic.EvaluatedPermutation` | project-AI.py:140 | Rearranging keyed entries keeps every key equal to its own individual's fitness. |
| `Genetic.RankedFromKeys` | project-AI.py:140 | Entries sorted by fitness keys give individuals ranked by fitness. |
| `Genetic.Rank` | project-AI.py:140 | `pop.sort(key=-fitness)`: the result is a permutation of the population, ranked best first. |
| `Genetic.RankedIndividuals` | project-AI.py:140 | A permutation of individuals has the same size and holds only individuals. |
| `Genetic.FirstIsFittest` | project-AI.py:140-141 | The first individual of a ranking is at least as fit as every member of the population it ranks. |
| `Genetic.MutatedCopies` | project-AI.py:141 | `[mutate(ind[:]) ...]` gives one mutated copy per survivor, and the survivors themselves are left untouched. |
| `Genetic.NextIndividuals` | project-AI.py:141 | The survivors and their mutated copies are all individuals, and all can be scored. |
| `Genetic.NextGeneration` | project-AI.py:139-141 | The ranking is a permutation of the population, best first. The next population has ten members: the top five unchanged, followed by the mutation of each of them under its pick. All are individuals, and its first member is at least as fit as any member of the previous population. |
| `Genetic.Initial` | project-AI.py:138 | When the draws are orderings of the other destinations, there are ten initial individuals. Each is the start followed by its drawn ordering, and so is an individual of the request. |
| `Genetic.InitialScorable` | project-AI.py:138 | Every initial individual can be scored. |
| `Genetic.ExtendHistory` | project-AI.py:139-141 | Recording one more generation keeps every generation step recorded so far. |
| `Genetic.Evolve` | project-AI.py:138-141 | The loop's `history` begins with the ten initial individuals, and each of the thirty generations is one ranking-and-breeding step. The last population holds ten individuals of the request, all scorable, and its first member is at least as fit as every initial individual. |
| `Genetic.Fittest` | project-AI.py:142 | `max(pop, key=fitness)`: the returned position has the highest key, and is the first position that does. |
| `Genetic.GeneticItinerary` | project-AI.py:137-143 | `history` is the run on the given draws. It begins with the ten initial individuals. Each of the thirty generations turns one population into the next: it ranks the population best first, keeps the top five and appends the mutation of each under that generation's five picks. The result is the first fittest member of the last population, as `max` picks it: nobody in that population is fitter, and everyone before it is strictly less fit. It is the start followed by an ordering of the other destinations, with as many stops as selected. The returned fitness is the result's fitness, and nobody among the initial individuals is fitter. |
| `Costs.Multiplier` | project-AI.py:161 | `max(1, overlap·0.5)` is at least 1, and above 1 exactly when at least three categories match. |
| `Costs.Share` | project-AI.py:161 | One destination's activity cost is at least its base cost. For a positive base cost it equals the base cost exactly when at most two categories match. |
| `Costs.Activities` | project-AI.py:161 | The activities estimate is at least the sum of the selected base costs, because no multiplier is below 1. `ActivitiesEqualBase` says when the two are equal. |
| `Costs.NoBoostSplit` | project-AI.py:161 | No destination of a selection matches three or more interests exactly when that holds of all but the last and of the last. |
| `Costs.ActivitiesEqualBase` | project-AI.py:161 | Over a well-formed catalog, activities equal the sum of base costs if and only if no destination matches three or more interests. |
| `Costs.CalcCosts` | project-AI.py:158-163 | Transportation is (n−1)·150 and Accommodation is (n−1)·100. Activities are at least the sum of the base costs. Food is 50·days and Misc is 30·days. |
| `Costs.CostsNonNegative` | project-AI.py:158-163 | With at least one destination and a non-negative day count, all five categories are non-negative. |
| `Costs.Total` | project-AI.py:118 | When no category is negative, the total is at least every category. |
| `Costs.BudgetStatus` | project-AI.py:171 | The verdict is "Within budget" exactly when the total is at most the budget, and "Over budget" exactly when it exceeds it. |
| `Costs.NewYorkParisWeek` | project-AI.py:158-171 | New York and Paris, seven days, interest Culture: the costs are 150, 100, 380, 350 and 210. The total is 1190, within a budget of 2000. |
| `Costs.TokyoBoosted` | project-AI.py:161 | Tokyo with three matching interests costs 1.5 times its base in activities, that is 330. |
| `Plan.Message` | project-AI.py:104-111 | Every rejection has a non-empty message. |
| `Plan.MessagesDistinct` | project-AI.py:104-111 | Two rejections show the same message only when they are the same rejection. |
| `Plan.Validate` | project-AI.py:103-111 | The checks run in order. The request passes if and only if there are at least two destinations, the start is among them, and budget and days are both positive. Too few destinations is reported first. A missing start is reported only when there are enough destinations. A non-positive budget or day count is reported only when both earlier checks pass. |
| `Plan.SelectionCovered` | project-AI.py:11-12 | The table built over the whole catalog covers any selection from it, with non-negative entries. |
| `Plan.GeneratePlan` | project-AI.py:95-122 | A rejected request returns the first failing check's error and does no work. An accepted request gets a report with these parts: the greedy route over exactly the selection, starting at the start; the optimizer's itinerary and fitness, the first fittest member of the thirty generations' last population recorded in `history`, as `Genetic.GeneticItinerary` states; `calc_costs` of the selection; the sum of the costs; and the verdict on that sum. |

## Left out

- The haversine formula's trigonometry (`project-AI.py:40-44`). Distances are a caller-supplied function, assumed
  only non-negative and symmetric. No kilometre figure, such as New York to Paris, is claimed.
- IEEE floating-point rounding: all arithmetic is exact `real`. Printed precision (`:.1f`, `%.2f`) is not modelled.
- The `random` module. Its draws are inputs of `Genetic.GeneticItinerary` and `Plan.GeneratePlan`, with the
  properties `random.sample` guarantees. Nothing is claimed about the distribution of draws or about convergence.
- Genetic.SortByScore: proves best-first order and permutation, but not the stability of Python's sort. So the order
  among individuals of equal fitness is not fixed by the model.
- Genetic.Rank: inherits the same gap. Its ranking is best first, but the order of equally fit individuals is not fixed.
- Genetic.NextGeneration: inherits the same gap. When two individuals of equal fitness straddle the fifth place, the
  model does not fix which one survives.
- Genetic.Rank: the source sorts `pop` in place. The model sorts an array of (individual, fitness) pairs in place and
  reads the individuals back out, which is the decorate-sort-undecorate that a key sort performs.
- Route.Closest: returns any closest unvisited stop. Which of several equally close stops `min` picks depends on the
  set's iteration order, which is not modelled.
- Distances.CalcDistances: visits the catalog names in an unspecified order rather than dictionary order. The table it
  builds is the same.
- The window (`__init__`, `create_widgets`, `get_selected`, `get_interests`, `display_results`, `main`). The request
  arrives as values, and the report is returned rather than written into the text area. The parsing of the budget
  and the day count from text is left out with it.
- The catch-all `except Exception` handler and the error dialog (`project-AI.py:121-122`). Once a request passes
  validation, the modelled computation has no error path, because the preconditions rule out unknown names.
- Scoring.Fitness: the source's `fitness` takes a `days` argument that it never uses, so the model has no such
  parameter.
- Genetic.GeneticItinerary: requires the selection to have no repeated names. `get_selected`
  (`project-AI.py:88-90`) reads a listbox whose entries are the distinct catalog names, so this holds at the only
  call site. Only a repeated start would make `random.sample` at `project-AI.py:138` raise `ValueError`; a selection
  with other repeats is not modelled.
- Plan.GeneratePlan: the budget is an exact `real`, so the values `float()` accepts at `project-AI.py:99` but no
  real has, "nan" and "inf", are not modelled. A NaN budget passes the `budget <= 0` check at `project-AI.py:109`,
  its penalty `max(0, nan)*100` is 0, and the verdict at `project-AI.py:171` reads "Over budget"; an infinite budget
  likewise gives a zero penalty and "Within budget".
