# Genetic path search: a verified model

This project models the genetic path search in `PathDrawingSample.java`. The
search evolves a route of integer points from a fixed start point to a fixed end
point across a field of axis-aligned rectangular obstacles. A route is scored by
its length plus a penalty of 10000 for every (segment, obstacle) pair that
intersects. Each generation then:

1. scores the population;
2. picks parents by binary tournament;
3. recombines consecutive pairs at a random cut;
4. mutates one interior waypoint of some routes in place.

The loop in `main` keeps a record of the best route seen so far. It stops after
the configured number of generations, or as soon as the best fitness is 0.

The model is split into these modules:

| file | module | models |
|---|---|---|
| `field.dfy` | `Field` | points, rectangles, the map configuration, the geometry primitives, `nextInt` |
| `obstacles.dfy` | `Obstacles` | `isPointInObstacle`, the rejection-sampling loops, the shape every route keeps |
| `scoring.dfy` | `Scoring` | `fitness`, `calculateIntersections` |
| `initialization.dfy` | `Initialization` | `initializePopulation` |
| `selection.dfy` | `Selection` | `select` |
| `recombination.dfy` | `Recombination` | `crossover` |
| `mutation.dfy` | `Mutation` | `mutate` |
| `evolution.dfy` | `Evolution` | the generation and best-tracking loop of `main` (lines 27-53) |

**Randomness.** Every random choice is an explicit argument, so each contract
holds for every possible random outcome.
- A call `rand.nextInt(bound)` is modelled as `NextInt(draw, bound)`, where the
  caller supplies `draw`. Every value below `bound` is the outcome of some draw.
- `rand.nextDouble()` is a supplied real `roll`.
- A rejection-sampling loop gets a supplied, finite stream of candidate points.
  The loop accepts the first candidate that lies in no obstacle, and its
  precondition says that such a candidate exists.

**Geometry.** The geometry library is taken as given: `Rectangle.contains`,
`Rectangle.intersectsLine` and `Point.distance` are the three fields of
`Geometry`. A distance is some non-negative real. `fitness` and
`calculateIntersections` both count crossings with the same primitive,
`geo.crosses`.

**Lists.**
- The lists of points that `mutate` changes in place are arrays.
- A population is a sequence of references to them. `Routes` reads the routes
  those arrays hold.
- `crossover` copies every child into a fresh array, so the in-place writes of
  `mutate` never reach the route that the record holds.

**The run.** The proof of the run uses the sequence of populations it goes
through: population 0 is the initial one, and population `k + 1` is the one that
generation `k` breeds (`IsRun`). The record is then a function of that sequence
(`BestUpTo`).

**Odd-sized lists in crossover.** `crossover` pairs entry `i` with entry
`(i + 1) % n` (lines 170-172). On an odd-sized list, the last entry therefore
pairs with entry 0, and the list grows by one (`Recombination.OddSizeWrapsAround`).
An entry pairs with itself only in a one-entry list (`Recombination.Partner`).
A route paired with itself yields copies of itself (`Recombination.SelfPairing`).

## Model

| member | source | states |
|---|---|---|
| Field.NextInt | src/maps/PathDrawingSample.java:156-157 | `rand.nextInt(bound)` lies in `[0, bound)`; a draw below the bound is returned as it is, so every outcome is reachable |
| Field.DrawPoint | src/maps/PathDrawingSample.java:94 | a random point lies in `[0, width) x [0, height)`, and every point of that range can be drawn |
| Field.NewRoute | src/maps/PathDrawingSample.java:175-179 | copying into a new list gives a fresh list holding exactly the given points |
| Obstacles.IsPointInObstacle | src/maps/PathDrawingSample.java:105-112 | true exactly when some obstacle contains the point (both directions of the if-and-only-if) |
| Obstacles.FirstFreeIndex | src/maps/PathDrawingSample.java:93-95 | the candidate the sampling loop accepts lies in no obstacle, and every earlier candidate lies in one |
| Obstacles.Sample | src/maps/PathDrawingSample.java:93-95 | the sampled point is in the field, lies in no obstacle, and is one of the drawn candidates |
| Obstacles.SamplePoint | src/maps/PathDrawingSample.java:193-195 | the `do ... while (isPointInObstacle(p))` loop returns the first obstacle-free candidate, an in-field point outside every obstacle |
| Scoring.Hits | src/maps/PathDrawingSample.java:124-128 | one segment counts at most one intersection per obstacle |
| Scoring.FitnessOf | src/maps/PathDrawingSample.java:131 | the fitness is at least the route's length and at least 10000 per intersection |
| Scoring.Fitness | src/maps/PathDrawingSample.java:114-132 | `fitness` is the summed segment length plus 10000 times the intersection count of the route |
| Scoring.CalculateIntersections | src/maps/PathDrawingSample.java:134-150 | `calculateIntersections` returns the same intersection count that `fitness` penalises |
| Scoring.HitsZero | src/maps/PathDrawingSample.java:124-128 | a segment counts no intersection exactly when no obstacle intersects it |
| Scoring.CrossingsUpToZero | src/maps/PathDrawingSample.java:137-147 | the first `n` segments count nothing exactly when none of them intersects an obstacle |
| Scoring.CrossingsZeroIffCollisionFree | src/maps/PathDrawingSample.java:134-150 | the count is 0 exactly when the route is collision-free, so counter and fitness agree on which routes collide |
| Scoring.CrossingsUpToBound | src/maps/PathDrawingSample.java:137-147 | the first `n` segments count at most `n` times the number of obstacles |
| Scoring.CrossingsBound | src/maps/PathDrawingSample.java:134-150 | the count is 0 for routes of fewer than two points and at most (points - 1) x obstacles otherwise |
| Scoring.FitnessOfCollisionFree | src/maps/PathDrawingSample.java:131 | a collision-free route scores exactly its length |
| Scoring.PenaltyDominates | src/maps/PathDrawingSample.java:131 | when a route is shorter than the penalty, fewer intersections always mean a lower fitness |
| Scoring.BelowPenaltyIsCollisionFree | src/maps/PathDrawingSample.java:131 | a fitness below 10000 certifies a collision-free route |
| Selection.Tournament | src/maps/PathDrawingSample.java:158-162 | the winner is one of the two draws, is no worse than either, and on a tie is the second draw |
| Selection.Selected | src/maps/PathDrawingSample.java:155-163 | the selection has one entry per population entry, each taken from the population |
| Selection.Select | src/maps/PathDrawingSample.java:152-165 | the loop of `select` returns exactly `Selected`: entry `i` is the winner of tournament `i` |
| Initialization.WaypointCount | src/maps/PathDrawingSample.java:90 | `rand.nextInt(5) + 1` lies between 1 and 5 |
| Initialization.SampleAll | src/maps/PathDrawingSample.java:91-97 | the waypoints are the sampled points of the successive loops, in order |
| Initialization.InitialRoute | src/maps/PathDrawingSample.java:87-100 | a new route has 3 to 7 points, starts at the start, ends at the end, and has only obstacle-free interior points |
| Initialization.BuildRoute | src/maps/PathDrawingSample.java:87-99 | the point-by-point loop builds exactly that route |
| Initialization.InitializePopulation | src/maps/PathDrawingSample.java:83-103 | `populationSize` fresh routes, route `i` built from draw `i` |
| Recombination.Splice | src/maps/PathDrawingSample.java:175-179 | a child has the length of the parent that gives its suffix; below the cut it holds the first parent's points, from the cut on the second parent's points |
| Recombination.Partner | src/maps/PathDrawingSample.java:172 | the partner of entry `i` is `(i + 1) % n`, an index of the list, and it is the entry itself exactly when the list has one entry |
| Recombination.Cut | src/maps/PathDrawingSample.java:173 | the cut lies below the length of both parents |
| Recombination.Offspring | src/maps/PathDrawingSample.java:167-185 | an even-sized list keeps its size; an odd-sized list grows by one |
| Recombination.OffspringUpToPairs | src/maps/PathDrawingSample.java:170-183 | entries `2u` and `2u + 1` of the result are `child1` and `child2` of pair `u` |
| Recombination.Mate | src/maps/PathDrawingSample.java:175-179 | the two children are distinct fresh lists holding the two splices at the cut |
| Recombination.CrossPair | src/maps/PathDrawingSample.java:171-182 | one pass of the loop appends the two children of its pair, keeps the earlier lists, and keeps all lists distinct |
| Recombination.Crossover | src/maps/PathDrawingSample.java:167-185 | `crossover` returns distinct fresh lists holding exactly the offspring of the pairs, in order |
| Recombination.SpliceWellFormed | src/maps/PathDrawingSample.java:173-179 | children of well-formed parents keep the start, the end, 3 to 7 points and obstacle-free interiors |
| Recombination.OffspringUpToWellFormed | src/maps/PathDrawingSample.java:170-183 | every child of the first `t` pairs is well-formed when the parents are |
| Recombination.OffspringWellFormed | src/maps/PathDrawingSample.java:167-185 | every route `crossover` returns is well-formed when its parents are |
| Recombination.ChildLength | src/maps/PathDrawingSample.java:175-179 | `child1` has the second parent's length and `child2` the first parent's |
| Recombination.OffspringUpToMinLength | src/maps/PathDrawingSample.java:170-183 | no child is shorter than the shortest parent |
| Recombination.SpliceConservesPoints | src/maps/PathDrawingSample.java:175-179 | the two children together hold exactly the points of the two parents |
| Recombination.SelfPairing | src/maps/PathDrawingSample.java:172-179 | a route paired with itself yields copies of itself |
| Recombination.OddSizeWrapsAround | src/maps/PathDrawingSample.java:170-172 | in an odd-sized list the last entry pairs with the first, and the result has one more entry |
| Mutation.MutationPoint | src/maps/PathDrawingSample.java:191 | the mutation point is interior: never index 0 nor the last index |
| Mutation.MutatedRoute | src/maps/PathDrawingSample.java:189-197 | mutation keeps the length and both endpoints, leaves a route unchanged unless the roll is below the rate, changes at most the mutation point, and writes only obstacle-free points |
| Mutation.MutatedRouteWellFormed | src/maps/PathDrawingSample.java:190-196 | mutation keeps a route well-formed |
| Mutation.MutatedAll | src/maps/PathDrawingSample.java:187-199 | path `j` is mutated with draw `j` and the list keeps its size |
| Mutation.MutatePath | src/maps/PathDrawingSample.java:190-197 | the in-place `path.set` leaves exactly the mutated route |
| Mutation.Mutate | src/maps/PathDrawingSample.java:187-199 | after `mutate` the lists hold exactly the mutated routes of what they held before |
| Evolution.Even | src/maps/PathDrawingSample.java:170-183 | the size of the list `crossover` returns is even and is the input size or one more |
| Evolution.OffspringLongEnough | src/maps/PathDrawingSample.java:175-179 | crossover keeps every route at least 3 points long, as `nextInt(size - 2)` in `mutate` needs |
| Evolution.NextGeneration | src/maps/PathDrawingSample.java:32-38 | one generation yields an even-sized population of routes at least 3 points long |
| Evolution.NextGenerationWellFormed | src/maps/PathDrawingSample.java:32-38 | one generation keeps every route well-formed |
| Evolution.EvaluateAll | src/maps/PathDrawingSample.java:32-33 | the stream computes the fitness of every route of the population, in order |
| Evolution.Generation | src/maps/PathDrawingSample.java:32-38 | evaluate, select, cross over and mutate leave fresh lists holding the next generation |
| Evolution.LowestUpTo | src/maps/PathDrawingSample.java:40-48 | scoring routes never raises the record, and keeps it non-negative |
| Evolution.LowestUpToIsMinimum | src/maps/PathDrawingSample.java:40-48 | after the first `n` routes the record is at most each of their fitnesses and equals the old record or one of them |
| Evolution.LowestIsLowest | src/maps/PathDrawingSample.java:40-48 | after a whole population the record is the minimum of the old record and every route's fitness |
| Evolution.LowestIsMinimum | src/maps/PathDrawingSample.java:40-48 | any value that is at most the old record and every fitness, and equals one of them, is that minimum |
| Evolution.UpdateBest | src/maps/PathDrawingSample.java:40-48 | the record never rises and ends at most every route's fitness; it changes only on strict improvement, and then holds the first route with the new minimum, with its fitness and `calculateIntersections` count |
| Evolution.InitialRoutes | src/maps/PathDrawingSample.java:27 | the initial population has one well-formed route per draw |
| Evolution.RunSizes | src/maps/PathDrawingSample.java:31-38 | population 0 has `populationSize` routes, every later one has the even size `crossover` returns, and every route is at least 3 points long |
| Evolution.RunExtends | src/maps/PathDrawingSample.java:31-38 | a run grows by the population its next generation breeds |
| Evolution.BreedsOne | src/maps/PathDrawingSample.java:32-38 | helper for `RunDeterministic`: a generation is a function of its population and draws, so it breeds one population only |
| Evolution.RunDeterministic | src/maps/PathDrawingSample.java:27-38 | two runs on the same draws agree on every generation both reach |
| Evolution.RunWellFormed | src/maps/PathDrawingSample.java:27-38 | every route of every population of a run is well-formed: start and end kept, 3 to 7 points, obstacle-free interior |
| Evolution.BestUpTo | src/maps/PathDrawingSample.java:29-48 | the record lies between 0 and `Double.MAX_VALUE` |
| Evolution.BestUpToIsLowest | src/maps/PathDrawingSample.java:29-48 | after `n` generations the record is the lowest fitness of any route they bred, or `Double.MAX_VALUE` when there is none |
| Evolution.BestIsLowest | src/maps/PathDrawingSample.java:29-48 | the record of a run is the lowest fitness bred over the whole run |
| Evolution.BestNonIncreasing | src/maps/PathDrawingSample.java:43-45 | the best fitness never increases from one generation to a later one |
| Evolution.StopsAtFirstZero | src/maps/PathDrawingSample.java:50-52 | if the record before the last generation is not 0, no earlier generation reached 0 either |
| Evolution.BestUpToPrefix | src/maps/PathDrawingSample.java:40-48 | the record after `n` generations depends only on the populations those generations bred |
| Evolution.BestStep | src/maps/PathDrawingSample.java:40-48 | one more generation lowers the record by its routes and leaves the earlier records as they were |
| Evolution.Step | src/maps/PathDrawingSample.java:32-48 | one pass of the loop body breeds the next generation into fresh lists, lowers the record to the lowest of it and its routes, and keeps the recorded route and its counts unchanged unless it improves |
| Evolution.Advance | src/maps/PathDrawingSample.java:31-48 | one pass extends the run by one population and keeps the record the best fitness of the run |
| Evolution.Evolve | src/maps/PathDrawingSample.java:27-53 | the loop runs every generation unless the record reaches 0, stopping at the first 0; the record is the lowest fitness of the run, held by a well-formed route bred in some generation whose fitness and intersection count it stores |

## Left out

- `Maps.getMap`, the map chosen in `main` and the constants 100, 2000 and 0.05 (lines 19-25) are not modelled. The map configuration and the run configuration are inputs.
- The console output and the viewer hand-off after the loop (lines 55-80) are I/O and are not modelled. The model stops at the values passed to them.
- `java.util.Random` and its seeding are not modelled. Every draw is supplied by the caller.
- CanSample: the field must have a positive width and height. On an empty field `nextInt` throws at lines 94 and 194, and that exception is not modelled.
- Rejection-sampling runs that never end are not modelled. Each sampling loop gets a finite stream of candidates, and its precondition says one of them lies in no obstacle.
- The internals of `Rectangle.contains`, `Rectangle.intersectsLine` and `Point.distance` are library code and are not modelled. They are the given functions of `Geometry`.
- Floating point is not modelled. A `double` is a real; `Double.MAX_VALUE` is its exact value; the rounding of the distance sums and of the test `bestFitness == 0` is not modelled.
- Fitness: does not model the 32-bit overflow of `intersections * 10000`, which needs more than 214748 intersections on one route.
- CalculateIntersections: does not model 32-bit overflow of the counter.
- Mutate: requires the lists to be distinct. Java would also accept a list given twice. The only caller passes the distinct fresh lists `crossover` builds.
- InitializePopulation: `populationSize` is a natural number. A negative size, for which the Java loop builds no route, is not modelled.
- Evolve: `generations` is a natural number, and the draws must cover every generation. The loop tests the record before each generation, where `main` breaks out after the generation that brings it to 0. The record starts at `Double.MAX_VALUE`, so the same generations run.
- The lists of the population are arrays, because no list changes size after it is built. The static field `bestIntersections` is a return value of `Evolve`.
