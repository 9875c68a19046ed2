/** `mutate`: in-place replacement of one interior waypoint. */
module Mutation {
  import opened Field
  import opened Obstacles

  /** The random draws behind one path's turn in `mutate`: `nextDouble()`,
      then, when the path mutates, `nextInt(size - 2)` and the candidate
      points the rejection loop draws. */
  datatype MutationDraw = MutationDraw(roll: real, index: nat, candidates: seq<PointDraw>)

  /** What `mutate` needs of a path of `size` points when it mutates it:
      `nextInt(size - 2)` needs a positive bound, and the sampling loop must
      end. A path that does not mutate needs nothing. */
  predicate CanMutate(env: Environment, geo: Geometry, size: int, d: MutationDraw, mutationRate: real) {
    d.roll < mutationRate ==> size >= 3 && CanSample(env, geo, d.candidates)
  }

  /** `rand.nextInt(path.size() - 2) + 1`: an interior position. */
  function MutationPoint(d: MutationDraw, size: int): (m: int)
    requires size >= 3
    ensures 0 < m < size - 1
  {
    NextInt(d.index, size - 2) + 1
  }

  /** The route `mutate` leaves in place of `r`. */
  function MutatedRoute(env: Environment, geo: Geometry, r: Route, d: MutationDraw, mutationRate: real): (m: Route)
    requires CanMutate(env, geo, |r|, d, mutationRate)
    ensures |m| == |r|
    ensures |r| > 0 ==> m[0] == r[0] && m[|r| - 1] == r[|r| - 1]
    ensures d.roll >= mutationRate ==> m == r
    ensures d.roll < mutationRate ==> Free(env, geo, m[MutationPoint(d, |r|)])
    ensures forall j :: 0 <= j < |r| && m[j] != r[j] ==> d.roll < mutationRate && j == MutationPoint(d, |r|)
  {
    if d.roll < mutationRate then r[MutationPoint(d, |r|) := Sample(env, geo, d.candidates)] else r
  }

  /** Mutation keeps a route well-formed: the endpoints stay, the length stays,
      and the one point it may write is obstacle-free. */
  lemma MutatedRouteWellFormed(env: Environment, geo: Geometry, r: Route, d: MutationDraw, mutationRate: real)
    requires WellFormedRoute(env, geo, r)
    requires CanMutate(env, geo, |r|, d, mutationRate)
    ensures WellFormedRoute(env, geo, MutatedRoute(env, geo, r, d, mutationRate))
  {
    var m := MutatedRoute(env, geo, r, d, mutationRate);
    forall j | 0 < j < |m| - 1
      ensures Free(env, geo, m[j])
    {
      if m[j] != r[j] {
        assert j == MutationPoint(d, |r|);
      }
    }
  }

  /** The routes `mutate` leaves in place of `routes`. */
  function MutatedAll(env: Environment, geo: Geometry, routes: seq<Route>, draws: seq<MutationDraw>, mutationRate: real): (ms: seq<Route>)
    requires |draws| == |routes|
    requires forall j :: 0 <= j < |routes| ==> CanMutate(env, geo, |routes[j]|, draws[j], mutationRate)
    ensures |ms| == |routes|
    ensures forall j :: 0 <= j < |routes| ==> ms[j] == MutatedRoute(env, geo, routes[j], draws[j], mutationRate)
  {
    seq(|routes|, j requires 0 <= j < |routes| => MutatedRoute(env, geo, routes[j], draws[j], mutationRate))
  }

  /** The body of `mutate`'s loop for one path: with probability
      `mutationRate`, one interior point is overwritten in place. */
  method MutatePath(path: array<Point>, mutationRate: real, env: Environment, geo: Geometry, d: MutationDraw)
    requires CanMutate(env, geo, path.Length, d, mutationRate)
    modifies path
    ensures path[..] == MutatedRoute(env, geo, old(path[..]), d, mutationRate)
  {
    if d.roll < mutationRate {
      var mutationPoint := NextInt(d.index, path.Length - 2) + 1;
      var newPoint := SamplePoint(env, geo, d.candidates);
      path[mutationPoint] := newPoint;
    }
  }

  /** `mutate`: visits the paths in order and mutates each in place. The paths
      must be distinct lists; the only caller passes the fresh lists
      `crossover` builds. */
  method Mutate(population: seq<array<Point>>, mutationRate: real, env: Environment, geo: Geometry, draws: seq<MutationDraw>)
    requires |draws| == |population|
    requires forall i, j :: 0 <= i < j < |population| ==> population[i] != population[j]
    requires forall i :: 0 <= i < |population| ==> CanMutate(env, geo, population[i].Length, draws[i], mutationRate)
    modifies population
    ensures Routes(population) == MutatedAll(env, geo, old(Routes(population)), draws, mutationRate)
  {
    ghost var before := Routes(population);
    for i := 0 to |population|
      invariant forall k :: 0 <= k < i ==> population[k][..] == MutatedRoute(env, geo, before[k], draws[k], mutationRate)
      invariant forall k :: i <= k < |population| ==> population[k][..] == before[k]
    {
      MutatePath(population[i], mutationRate, env, geo, draws[i]);
    }
    RoutesAre(population, MutatedAll(env, geo, before, draws, mutationRate));
  }
}
