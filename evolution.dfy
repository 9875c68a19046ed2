/** The generation loop of `main` and its best-ever record. */
module Evolution {
  import opened Field
  import opened Obstacles
  import opened Scoring
  import opened Initialization
  import opened Selection
  import opened Recombination
  import opened Mutation

  /** `Double.MAX_VALUE`, the best fitness before any route has been scored. */
  const MaxDouble: real := 179769313486231570814527423731704356798070567525844996598917476803157260780028538760589558632766878171540458953514382464234321326889464182768467546703537516986049910576551282076245490090389328944075868508455133942304583236903222948165808559332123348274797826204144723168738177180919299881250404026184124858368.0

  /** The run configuration: `populationSize`, `generations`, `mutationRate`. */
  datatype Config = Config(populationSize: nat, generations: nat, mutationRate: real)

  /** The random draws of one generation: the tournaments of `select`, the
      cuts of `crossover` and the per-path draws of `mutate`. */
  datatype GenerationDraw = GenerationDraw(picks: seq<Pick>, cuts: seq<nat>, mutations: seq<MutationDraw>)

  /** The size of the list `crossover` returns for `n` entries. */
  function Even(n: nat): (m: nat)
    ensures m % 2 == 0
    ensures m == n || m == n + 1
  {
    2 * ((n + 1) / 2)
  }

  /** The draws of a generation fit a population of `size` routes, and every
      sampling loop of a path that mutates ends. */
  predicate ValidGenerationDraw(env: Environment, geo: Geometry, d: GenerationDraw, size: nat, mutationRate: real) {
    && |d.picks| == size
    && |d.cuts| == (size + 1) / 2
    && |d.mutations| == Even(size)
    && forall i :: 0 <= i < |d.mutations| && d.mutations[i].roll < mutationRate ==>
         CanSample(env, geo, d.mutations[i].candidates)
  }

  /** The fitness list of `main`'s stream over the population. */
  function Evaluate(env: Environment, geo: Geometry, routes: seq<Route>): (fitnessValues: seq<real>)
    ensures |fitnessValues| == |routes|
    ensures forall i :: 0 <= i < |routes| ==> fitnessValues[i] == FitnessOf(env, geo, routes[i])
  {
    seq(|routes|, i requires 0 <= i < |routes| => FitnessOf(env, geo, routes[i]))
  }

  /** Every route has at least the three points `crossover` and `mutate` need. */
  predicate LongEnough(routes: seq<Route>) {
    forall i :: 0 <= i < |routes| ==> |routes[i]| >= 3
  }

  /** Crossover keeps routes long enough: every child has the length of a
      parent. */
  lemma OffspringLongEnough(parents: seq<Route>, cuts: seq<nat>)
    requires CanCross(parents, cuts) && LongEnough(parents)
    ensures LongEnough(Offspring(parents, cuts))
  {
    OffspringUpToMinLength(parents, cuts, |cuts|, 3);
  }

  /** The population one generation turns `routes` into. */
  function NextGeneration(env: Environment, geo: Geometry, routes: seq<Route>, d: GenerationDraw, mutationRate: real): (next: seq<Route>)
    requires LongEnough(routes)
    requires ValidGenerationDraw(env, geo, d, |routes|, mutationRate)
    ensures |next| == Even(|routes|)
    ensures LongEnough(next)
  {
    var selected := Selected(routes, Evaluate(env, geo, routes), d.picks);
    OffspringLongEnough(selected, d.cuts);
    MutatedAll(env, geo, Offspring(selected, d.cuts), d.mutations, mutationRate)
  }

  /** Every route of every generation is well-formed: it starts at the start,
      ends at the end, has 3 to 7 points and obstacle-free waypoints. */
  lemma NextGenerationWellFormed(env: Environment, geo: Geometry, routes: seq<Route>, d: GenerationDraw, mutationRate: real)
    requires LongEnough(routes)
    requires forall i :: 0 <= i < |routes| ==> WellFormedRoute(env, geo, routes[i])
    requires ValidGenerationDraw(env, geo, d, |routes|, mutationRate)
    ensures forall j :: 0 <= j < Even(|routes|) ==> WellFormedRoute(env, geo, NextGeneration(env, geo, routes, d, mutationRate)[j])
  {
    var selected := Selected(routes, Evaluate(env, geo, routes), d.picks);
    var children := Offspring(selected, d.cuts);
    OffspringWellFormed(env, geo, selected, d.cuts);
    var next := NextGeneration(env, geo, routes, d, mutationRate);
    forall j | 0 <= j < |next|
      ensures WellFormedRoute(env, geo, next[j])
    {
      MutatedRouteWellFormed(env, geo, children[j], d.mutations[j], mutationRate);
    }
  }

  /** `main`'s stream computing the fitness of each route. */
  method EvaluateAll(population: seq<array<Point>>, env: Environment, geo: Geometry) returns (fitnessValues: seq<real>)
    ensures fitnessValues == Evaluate(env, geo, Routes(population))
  {
    fitnessValues := [];
    for i := 0 to |population|
      invariant |fitnessValues| == i
      invariant forall k :: 0 <= k < i ==> fitnessValues[k] == FitnessOf(env, geo, population[k][..])
    {
      var f := Fitness(population[i], env, geo);
      fitnessValues := fitnessValues + [f];
    }
  }

  /** One generation of `main` (lines 32-38): evaluate, select, cross over,
      mutate. Every list it mutates is one it allocated itself. */
  method Generation(population: seq<array<Point>>, env: Environment, geo: Geometry, d: GenerationDraw, mutationRate: real)
    returns (offspring: seq<array<Point>>)
    requires LongEnough(Routes(population))
    requires ValidGenerationDraw(env, geo, d, |population|, mutationRate)
    ensures forall i :: 0 <= i < |offspring| ==> fresh(offspring[i])
    ensures Routes(offspring) == NextGeneration(env, geo, old(Routes(population)), d, mutationRate)
  {
    ghost var routes := Routes(population);
    var fitnessValues := EvaluateAll(population, env, geo);
    var selected := Select(population, fitnessValues, d.picks);
    ghost var chosen := Selected(routes, fitnessValues, d.picks);
    assert Routes(selected) == chosen;
    offspring := Crossover(selected, d.cuts);
    ghost var children := Offspring(chosen, d.cuts);
    OffspringLongEnough(chosen, d.cuts);
    Mutate(offspring, mutationRate, env, geo, d.mutations);
    assert Routes(offspring) == NextGeneration(env, geo, routes, d, mutationRate);
  }

  /** The best fitness after scoring the first `n` of `routes` in order
      against a record standing at `bound`. */
  function LowestUpTo(env: Environment, geo: Geometry, bound: real, routes: seq<Route>, n: nat): (m: real)
    requires n <= |routes|
    ensures m <= bound
    ensures 0.0 <= bound ==> 0.0 <= m
  {
    if n == 0 then bound
    else
      var rest := LowestUpTo(env, geo, bound, routes, n - 1);
      var f := FitnessOf(env, geo, routes[n - 1]);
      if f < rest then f else rest
  }

  /** The best fitness after scoring all of `routes` against a record
      standing at `bound`. */
  function Lowest(env: Environment, geo: Geometry, bound: real, routes: seq<Route>): (m: real)
    ensures m <= bound
    ensures 0.0 <= bound ==> 0.0 <= m
  {
    LowestUpTo(env, geo, bound, routes, |routes|)
  }

  /** Scoring the first `n` routes leaves the smallest of `bound` and their
      fitnesses. */
  lemma {:induction false} LowestUpToIsMinimum(env: Environment, geo: Geometry, bound: real, routes: seq<Route>, n: nat)
    requires n <= |routes|
    ensures forall i :: 0 <= i < n ==> LowestUpTo(env, geo, bound, routes, n) <= FitnessOf(env, geo, routes[i])
    ensures LowestUpTo(env, geo, bound, routes, n) == bound
         || exists i :: 0 <= i < n && LowestUpTo(env, geo, bound, routes, n) == FitnessOf(env, geo, routes[i])
  {
    if n > 0 {
      LowestUpToIsMinimum(env, geo, bound, routes, n - 1);
    }
  }

  /** `Lowest` is at most `bound` and every route's fitness, and equal to one
      of them. */
  lemma LowestIsLowest(env: Environment, geo: Geometry, bound: real, routes: seq<Route>)
    ensures forall i :: 0 <= i < |routes| ==> Lowest(env, geo, bound, routes) <= FitnessOf(env, geo, routes[i])
    ensures Lowest(env, geo, bound, routes) == bound
         || exists i :: 0 <= i < |routes| && Lowest(env, geo, bound, routes) == FitnessOf(env, geo, routes[i])
  {
    LowestUpToIsMinimum(env, geo, bound, routes, |routes|);
  }

  /** A value that is at most `bound` and every fitness, and is one of them,
      is the lowest. */
  lemma LowestIsMinimum(env: Environment, geo: Geometry, bound: real, routes: seq<Route>, m: real)
    requires m <= bound
    requires forall i :: 0 <= i < |routes| ==> m <= FitnessOf(env, geo, routes[i])
    requires m == bound || exists i :: 0 <= i < |routes| && m == FitnessOf(env, geo, routes[i])
    ensures m == Lowest(env, geo, bound, routes)
  {
    LowestIsLowest(env, geo, bound, routes);
  }

  /** The best-tracking loop of `main` (lines 40-48): a route replaces the
      record only when it is strictly better, and then its intersection count
      is recomputed with `calculateIntersections`. */
  method UpdateBest(population: seq<array<Point>>, env: Environment, geo: Geometry,
                    bestSolution: array?<Point>, bestFitness: real, bestIntersections: int)
    returns (newSolution: array?<Point>, newFitness: real, newIntersections: int)
    ensures newFitness <= bestFitness
    ensures forall i :: 0 <= i < |population| ==> newFitness <= FitnessOf(env, geo, population[i][..])
    ensures newFitness == bestFitness ==> newSolution == bestSolution && newIntersections == bestIntersections
    ensures newFitness < bestFitness ==>
      exists k :: 0 <= k < |population| && newSolution == population[k]
        && newFitness == FitnessOf(env, geo, population[k][..])
        && newIntersections == Crossings(env, geo, population[k][..])
        && forall j :: 0 <= j < k ==> newFitness < FitnessOf(env, geo, population[j][..])
  {
    newSolution, newFitness, newIntersections := bestSolution, bestFitness, bestIntersections;
    ghost var chosen := 0;
    for i := 0 to |population|
      invariant newFitness <= bestFitness
      invariant forall j :: 0 <= j < i ==> newFitness <= FitnessOf(env, geo, population[j][..])
      invariant newFitness == bestFitness ==> newSolution == bestSolution && newIntersections == bestIntersections
      invariant newFitness < bestFitness ==>
        && chosen < i && newSolution == population[chosen]
        && newFitness == FitnessOf(env, geo, population[chosen][..])
        && newIntersections == Crossings(env, geo, population[chosen][..])
        && forall j :: 0 <= j < chosen ==> newFitness < FitnessOf(env, geo, population[j][..])
    {
      var currentPath := population[i];
      var fitness := Fitness(currentPath, env, geo);
      if fitness < newFitness {
        newFitness := fitness;
        newSolution := currentPath;
        newIntersections := CalculateIntersections(currentPath, env, geo);
        chosen := i;
      }
    }
  }

  /** The routes `initializePopulation` builds. */
  function InitialRoutes(env: Environment, geo: Geometry, draws: seq<RouteDraw>): (routes: seq<Route>)
    requires forall i :: 0 <= i < |draws| ==> ValidRouteDraw(env, geo, draws[i])
    ensures |routes| == |draws|
    ensures forall i :: 0 <= i < |routes| ==> WellFormedRoute(env, geo, routes[i])
  {
    seq(|draws|, i requires 0 <= i < |draws| => InitialRoute(env, geo, draws[i]))
  }

  /** The draws of a whole run fit it: one route draw per initial route, and
      per generation one generation draw sized for that generation's
      population (an odd population grows by one in the first generation). */
  predicate ValidRun(env: Environment, geo: Geometry, config: Config, initDraws: seq<RouteDraw>, draws: seq<GenerationDraw>) {
    && |initDraws| == config.populationSize
    && (forall i :: 0 <= i < |initDraws| ==> ValidRouteDraw(env, geo, initDraws[i]))
    && |draws| == config.generations
    && (|draws| > 0 ==> ValidGenerationDraw(env, geo, draws[0], config.populationSize, config.mutationRate))
    && (forall g :: 0 < g < |draws| ==>
          ValidGenerationDraw(env, geo, draws[g], Even(config.populationSize), config.mutationRate))
  }

  /** One generation under the draws `d` turns the population `before` into
      `after`. */
  predicate Breeds(env: Environment, geo: Geometry, config: Config, d: GenerationDraw, before: seq<Route>, after: seq<Route>) {
    && LongEnough(before)
    && ValidGenerationDraw(env, geo, d, |before|, config.mutationRate)
    && after == NextGeneration(env, geo, before, d, config.mutationRate)
  }

  /** `populations` holds the populations of a run, from the initial one up to
      the one after generation `|populations| - 1`: generation `k` breeds
      population `l == k + 1` from population `k`. */
  ghost predicate IsRun(env: Environment, geo: Geometry, config: Config, initDraws: seq<RouteDraw>,
                  draws: seq<GenerationDraw>, populations: seq<seq<Route>>)
  {
    && ValidRun(env, geo, config, initDraws, draws)
    && 0 < |populations| <= |draws| + 1
    && populations[0] == InitialRoutes(env, geo, initDraws)
    // `l` names `k + 1` so that the trigger is the whole `Breeds` term rather
    // than `populations[k]`, which would unfold a generation at every index
    && forall k, l {:trigger Breeds(env, geo, config, draws[k], populations[k], populations[l])} ::
         0 <= k && l == k + 1 && l < |populations| ==> Breeds(env, geo, config, draws[k], populations[k], populations[l])
  }

  /** The populations after the initial one have the size of an even list,
      and every population of a run is long enough for the next generation. */
  lemma {:induction false} RunSizes(env: Environment, geo: Geometry, config: Config, initDraws: seq<RouteDraw>,
                                    draws: seq<GenerationDraw>, populations: seq<seq<Route>>, g: nat)
    requires IsRun(env, geo, config, initDraws, draws, populations) && g < |populations|
    ensures |populations[g]| == if g == 0 then config.populationSize else Even(config.populationSize)
    ensures LongEnough(populations[g])
  {
    if g > 0 {
      RunSizes(env, geo, config, initDraws, draws, populations, g - 1);
      assert Breeds(env, geo, config, draws[g - 1], populations[g - 1], populations[g]);
    }
  }

  /** A run grows by the population its next generation breeds. */
  lemma RunExtends(env: Environment, geo: Geometry, config: Config, initDraws: seq<RouteDraw>,
                   draws: seq<GenerationDraw>, populations: seq<seq<Route>>, next: seq<Route>)
    requires IsRun(env, geo, config, initDraws, draws, populations) && |populations| <= |draws|
    requires Breeds(env, geo, config, draws[|populations| - 1], populations[|populations| - 1], next)
    ensures IsRun(env, geo, config, initDraws, draws, populations + [next])
  {
    var longer := populations + [next];
    forall k, l | 0 <= k && l == k + 1 && l < |longer|
      ensures Breeds(env, geo, config, draws[k], longer[k], longer[l])
    {
      if l < |populations| {
        assert Breeds(env, geo, config, draws[k], populations[k], populations[l]);
      }
    }
  }

  /** A generation breeds one population only. */
  lemma BreedsOne(env: Environment, geo: Geometry, config: Config, d: GenerationDraw,
                  before: seq<Route>, after1: seq<Route>, after2: seq<Route>)
    requires Breeds(env, geo, config, d, before, after1) && Breeds(env, geo, config, d, before, after2)
    ensures after1 == after2
  { }

  /** The draws decide the run: two runs on the same draws agree on every
      generation both reach. */
  lemma {:induction false} RunDeterministic(env: Environment, geo: Geometry, config: Config, initDraws: seq<RouteDraw>,
                                            draws: seq<GenerationDraw>, p1: seq<seq<Route>>, p2: seq<seq<Route>>, n: nat)
    requires IsRun(env, geo, config, initDraws, draws, p1) && IsRun(env, geo, config, initDraws, draws, p2)
    requires n < |p1| && n < |p2|
    ensures p1[n] == p2[n]
  {
    if n > 0 {
      RunDeterministic(env, geo, config, initDraws, draws, p1, p2, n - 1);
      BreedsOne(env, geo, config, draws[n - 1], p1[n - 1], p1[n], p2[n]);
    }
  }

  /** Every route of every population of a run is well-formed: it starts at
      the start, ends at the end, has 3 to 7 points and obstacle-free
      waypoints. */
  lemma {:induction false} RunWellFormed(env: Environment, geo: Geometry, config: Config, initDraws: seq<RouteDraw>,
                                         draws: seq<GenerationDraw>, populations: seq<seq<Route>>, g: nat)
    requires IsRun(env, geo, config, initDraws, draws, populations) && g < |populations|
    ensures forall i :: 0 <= i < |populations[g]| ==> WellFormedRoute(env, geo, populations[g][i])
  {
    if g > 0 {
      RunWellFormed(env, geo, config, initDraws, draws, populations, g - 1);
      assert Breeds(env, geo, config, draws[g - 1], populations[g - 1], populations[g]);
      NextGenerationWellFormed(env, geo, populations[g - 1], draws[g - 1], config.mutationRate);
    }
  }

  /** The best fitness `main` has recorded after the first `n` generations of
      `populations`: `Double.MAX_VALUE` lowered by each route they bred, in
      turn. */
  function BestUpTo(env: Environment, geo: Geometry, populations: seq<seq<Route>>, n: nat): (b: real)
    requires n < |populations|
    ensures 0.0 <= b <= MaxDouble
  {
    if n == 0 then MaxDouble
    else Lowest(env, geo, BestUpTo(env, geo, populations, n - 1), populations[n])
  }

  /** The best fitness recorded after every generation of `populations`. */
  function Best(env: Environment, geo: Geometry, populations: seq<seq<Route>>): (b: real)
    requires |populations| > 0
    ensures 0.0 <= b <= MaxDouble
  {
    BestUpTo(env, geo, populations, |populations| - 1)
  }

  /** After `n` generations the record is the lowest fitness of any route
      they bred, or `Double.MAX_VALUE` when there is none. The initial
      population is never scored. */
  lemma {:induction false} BestUpToIsLowest(env: Environment, geo: Geometry, populations: seq<seq<Route>>, n: nat)
    requires n < |populations|
    ensures forall g, i :: 0 < g <= n && 0 <= i < |populations[g]| ==>
      BestUpTo(env, geo, populations, n) <= FitnessOf(env, geo, populations[g][i])
    ensures BestUpTo(env, geo, populations, n) == MaxDouble
         || exists g, i :: 0 < g <= n && 0 <= i < |populations[g]| && BestUpTo(env, geo, populations, n) == FitnessOf(env, geo, populations[g][i])
  {
    if n > 0 {
      BestUpToIsLowest(env, geo, populations, n - 1);
      LowestIsLowest(env, geo, BestUpTo(env, geo, populations, n - 1), populations[n]);
    }
  }

  /** The best fitness of a run is the lowest fitness of any route its
      generations bred, or `Double.MAX_VALUE` when there is none. */
  lemma BestIsLowest(env: Environment, geo: Geometry, populations: seq<seq<Route>>)
    requires |populations| > 0
    ensures forall g, i :: 0 < g < |populations| && 0 <= i < |populations[g]| ==>
      Best(env, geo, populations) <= FitnessOf(env, geo, populations[g][i])
    ensures Best(env, geo, populations) == MaxDouble
         || exists g, i :: 0 < g < |populations| && 0 <= i < |populations[g]| && Best(env, geo, populations) == FitnessOf(env, geo, populations[g][i])
  {
    BestUpToIsLowest(env, geo, populations, |populations| - 1);
  }

  /** The best fitness never increases from one generation to a later one. */
  lemma {:induction false} BestNonIncreasing(env: Environment, geo: Geometry, populations: seq<seq<Route>>, g: nat, h: nat)
    requires g <= h < |populations|
    ensures BestUpTo(env, geo, populations, h) <= BestUpTo(env, geo, populations, g)
    decreases h
  {
    if g < h {
      BestNonIncreasing(env, geo, populations, g, h - 1);
    }
  }

  /** When the record before the last generation is not 0, it was not 0 after
      any earlier generation either: the run stops at the first 0. */
  lemma StopsAtFirstZero(env: Environment, geo: Geometry, populations: seq<seq<Route>>)
    requires |populations| > 1 && BestUpTo(env, geo, populations, |populations| - 2) != 0.0
    ensures forall g :: 0 <= g < |populations| - 1 ==> BestUpTo(env, geo, populations, g) > 0.0
  {
    forall g | 0 <= g < |populations| - 1
      ensures BestUpTo(env, geo, populations, g) > 0.0
    {
      BestNonIncreasing(env, geo, populations, g, |populations| - 2);
    }
  }

  /** The record after `n` generations depends only on the populations they
      bred. */
  lemma {:induction false} BestUpToPrefix(env: Environment, geo: Geometry, p1: seq<seq<Route>>, p2: seq<seq<Route>>, n: nat)
    requires n < |p1| && n < |p2|
    requires forall k :: 0 < k <= n ==> p1[k] == p2[k]
    ensures BestUpTo(env, geo, p1, n) == BestUpTo(env, geo, p2, n)
  {
    if n > 0 {
      BestUpToPrefix(env, geo, p1, p2, n - 1);
    }
  }

  /** One more generation lowers the record by the routes it bred, and leaves
      the record of the earlier generations as it was. */
  lemma BestStep(env: Environment, geo: Geometry, populations: seq<seq<Route>>, next: seq<Route>)
    requires |populations| > 0
    ensures BestUpTo(env, geo, populations + [next], |populations| - 1) == Best(env, geo, populations)
    ensures Best(env, geo, populations + [next]) == Lowest(env, geo, Best(env, geo, populations), next)
  {
    BestUpToPrefix(env, geo, populations + [next], populations, |populations| - 1);
  }

  /** The record `main` keeps of the best route so far: no route yet and
      `Double.MAX_VALUE`, or a route with its fitness and its intersection
      count. */
  predicate Record(env: Environment, geo: Geometry, bestSolution: array?<Point>, bestFitness: real, bestIntersections: int)
    reads bestSolution
  {
    && bestFitness <= MaxDouble
    && (bestSolution == null ==> bestFitness == MaxDouble && bestIntersections == 0)
    && (bestSolution != null ==>
          && bestFitness == FitnessOf(env, geo, bestSolution[..])
          && bestIntersections == Crossings(env, geo, bestSolution[..]))
  }

  /** One pass of `main`'s loop body (lines 32-48): a generation, then the
      record update. The mutated lists are fresh, so the recorded route is
      left as it was. */
  method Step(population: seq<array<Point>>, env: Environment, geo: Geometry, d: GenerationDraw, mutationRate: real,
              bestSolution: array?<Point>, bestFitness: real, bestIntersections: int)
    returns (offspring: seq<array<Point>>, newSolution: array?<Point>, newFitness: real, newIntersections: int)
    requires LongEnough(Routes(population))
    requires ValidGenerationDraw(env, geo, d, |population|, mutationRate)
    requires Record(env, geo, bestSolution, bestFitness, bestIntersections)
    ensures Routes(offspring) == NextGeneration(env, geo, old(Routes(population)), d, mutationRate)
    ensures Record(env, geo, newSolution, newFitness, newIntersections)
    ensures newFitness == Lowest(env, geo, bestFitness, Routes(offspring))
    ensures newFitness < bestFitness ==> newSolution != null && newSolution[..] in Routes(offspring)
    ensures newFitness == bestFitness ==> newSolution == bestSolution
  {
    offspring := Generation(population, env, geo, d, mutationRate);
    newSolution, newFitness, newIntersections := UpdateBest(offspring, env, geo, bestSolution, bestFitness, bestIntersections);
    LowestIsMinimum(env, geo, bestFitness, Routes(offspring), newFitness);
  }

  /** The state of `main` after the generations of `populations`: the
      population is the last one, the record is the best fitness of the run so
      far, and a recorded route comes from population `foundAt`. */
  ghost predicate Reached(env: Environment, geo: Geometry, config: Config, initDraws: seq<RouteDraw>,
                          draws: seq<GenerationDraw>, populations: seq<seq<Route>>, population: seq<array<Point>>,
                          bestSolution: array?<Point>, bestFitness: real, bestIntersections: int, foundAt: nat)
    reads population, bestSolution
  {
    && IsRun(env, geo, config, initDraws, draws, populations)
    && Routes(population) == populations[|populations| - 1]
    && bestFitness == Best(env, geo, populations)
    && Record(env, geo, bestSolution, bestFitness, bestIntersections)
    && (bestSolution != null ==> 0 < foundAt < |populations| && bestSolution[..] in populations[foundAt])
  }

  /** The loop body of `main` in generation `g` of a run: it breeds the run's
      next population, and the record it starts from stays the best of the
      first `g` generations of the longer run. */
  method Advance(population: seq<array<Point>>, env: Environment, geo: Geometry, config: Config,
                 initDraws: seq<RouteDraw>, draws: seq<GenerationDraw>, g: nat,
                 bestSolution: array?<Point>, bestFitness: real, bestIntersections: int,
                 ghost populations: seq<seq<Route>>, ghost foundAt: nat)
    returns (offspring: seq<array<Point>>, newSolution: array?<Point>, newFitness: real, newIntersections: int,
             ghost newPopulations: seq<seq<Route>>, ghost newFoundAt: nat)
    requires g < |draws| && |populations| == g + 1
    requires Reached(env, geo, config, initDraws, draws, populations, population, bestSolution, bestFitness, bestIntersections, foundAt)
    ensures newPopulations == populations + [Routes(offspring)]
    ensures Reached(env, geo, config, initDraws, draws, newPopulations, offspring, newSolution, newFitness, newIntersections, newFoundAt)
    ensures BestUpTo(env, geo, newPopulations, g) == bestFitness
  {
    RunSizes(env, geo, config, initDraws, draws, populations, g);
    offspring, newSolution, newFitness, newIntersections :=
      Step(population, env, geo, draws[g], config.mutationRate, bestSolution, bestFitness, bestIntersections);
    newPopulations := populations + [Routes(offspring)];
    RunExtends(env, geo, config, initDraws, draws, populations, Routes(offspring));
    BestStep(env, geo, populations, Routes(offspring));
    newFoundAt := if newFitness < bestFitness then g + 1 else foundAt;
  }

  /** The run of `main` (lines 27-53), up to the hand-off to the viewer.
      `populations` are the populations of the run, `foundAt` the one that
      holds the recorded route. */
  method Evolve(config: Config, env: Environment, geo: Geometry, initDraws: seq<RouteDraw>, draws: seq<GenerationDraw>)
    returns (bestSolution: array?<Point>, bestFitness: real, bestIntersections: int, generationsRun: nat,
             ghost populations: seq<seq<Route>>, ghost foundAt: nat)
    requires ValidRun(env, geo, config, initDraws, draws)
    ensures IsRun(env, geo, config, initDraws, draws, populations) && |populations| == generationsRun + 1
    // the loop runs every generation unless the best fitness reaches 0, and stops at the first 0
    ensures generationsRun <= config.generations
    ensures generationsRun < config.generations ==> generationsRun > 0 && bestFitness == 0.0
    ensures generationsRun > 0 ==> BestUpTo(env, geo, populations, generationsRun - 1) != 0.0
    // the record is the lowest fitness of every route of every generation run
    ensures bestFitness == Best(env, geo, populations)
    // and it is held by a route of some generation whose fitness and count agree with it
    ensures bestSolution == null ==> bestFitness == MaxDouble && bestIntersections == 0
    ensures bestSolution != null ==>
      && 0 < foundAt <= generationsRun
      && bestSolution[..] in populations[foundAt]
      && WellFormedRoute(env, geo, bestSolution[..])
      && bestFitness == FitnessOf(env, geo, bestSolution[..])
      && bestIntersections == Crossings(env, geo, bestSolution[..])
  {
    var population := InitializePopulation(config.populationSize, env, geo, initDraws);
    bestSolution, bestFitness, bestIntersections := null, MaxDouble, 0;
    generationsRun, populations, foundAt := 0, [Routes(population)], 0;
    // `main` breaks out at the end of a generation whose best fitness is 0;
    // the record starts at `Double.MAX_VALUE`, so testing it before every
    // generation instead stops after the same generation
    while generationsRun < config.generations && bestFitness != 0.0
      invariant generationsRun <= config.generations && |populations| == generationsRun + 1
      invariant Reached(env, geo, config, initDraws, draws, populations, population,
                        bestSolution, bestFitness, bestIntersections, foundAt)
      invariant generationsRun > 0 ==> BestUpTo(env, geo, populations, generationsRun - 1) != 0.0
    {
      population, bestSolution, bestFitness, bestIntersections, populations, foundAt :=
        Advance(population, env, geo, config, initDraws, draws, generationsRun,
                bestSolution, bestFitness, bestIntersections, populations, foundAt);
      generationsRun := generationsRun + 1;
    }
    if bestSolution != null {
      RunWellFormed(env, geo, config, initDraws, draws, populations, foundAt);
    }
  }
}
