/** Obstacle tests and the rejection sampling of obstacle-free waypoints, and
    the shape every route of the population keeps. */
module Obstacles {
  import opened Field

  /** Some obstacle of the map contains `p`. */
  predicate InObstacle(env: Environment, geo: Geometry, p: Point) {
    exists k :: 0 <= k < |env.obstacles| && geo.contains(env.obstacles[k], p)
  }

  /** A point the sampler may accept as a waypoint. */
  predicate Free(env: Environment, geo: Geometry, p: Point) {
    InField(env, p) && !InObstacle(env, geo, p)
  }

  /** `isPointInObstacle`: scans the obstacles in order and stops at the first
      one that contains the point. */
  method IsPointInObstacle(p: Point, env: Environment, geo: Geometry) returns (inside: bool)
    ensures inside <==> InObstacle(env, geo, p)
  {
    for k := 0 to |env.obstacles|
      invariant forall j :: 0 <= j < k ==> !geo.contains(env.obstacles[j], p)
    {
      if geo.contains(env.obstacles[k], p) {
        return true;
      }
    }
    return false;
  }

  /** The successive random points a rejection-sampling loop draws: the loop
      ends only if one of them is obstacle-free, and `nextInt` needs a
      non-empty field. */
  predicate CanSample(env: Environment, geo: Geometry, draws: seq<PointDraw>) {
    && env.width > 0 && env.height > 0
    && exists k :: 0 <= k < |draws| && !InObstacle(env, geo, DrawPoint(env, draws[k]))
  }

  /** The number of the first draw from `from` on whose point lies in no
      obstacle. */
  function FirstFreeFrom(env: Environment, geo: Geometry, draws: seq<PointDraw>, from: nat): (k: nat)
    requires env.width > 0 && env.height > 0
    requires exists k :: from <= k < |draws| && !InObstacle(env, geo, DrawPoint(env, draws[k]))
    ensures from <= k < |draws|
    ensures !InObstacle(env, geo, DrawPoint(env, draws[k]))
    ensures forall j :: from <= j < k ==> InObstacle(env, geo, DrawPoint(env, draws[j]))
    decreases |draws| - from
  {
    if !InObstacle(env, geo, DrawPoint(env, draws[from])) then from
    else FirstFreeFrom(env, geo, draws, from + 1)
  }

  /** The number of the draw the sampling loop accepts: the first whose point
      lies in no obstacle. */
  function FirstFreeIndex(env: Environment, geo: Geometry, draws: seq<PointDraw>): (k: nat)
    requires CanSample(env, geo, draws)
    ensures k < |draws|
    ensures !InObstacle(env, geo, DrawPoint(env, draws[k]))
    ensures forall j :: 0 <= j < k ==> InObstacle(env, geo, DrawPoint(env, draws[j]))
  {
    FirstFreeFrom(env, geo, draws, 0)
  }

  /** The point the sampling loop returns. */
  function Sample(env: Environment, geo: Geometry, draws: seq<PointDraw>): (p: Point)
    requires CanSample(env, geo, draws)
    ensures Free(env, geo, p)
    ensures exists k :: 0 <= k < |draws| && p == DrawPoint(env, draws[k])
  {
    var k := FirstFreeIndex(env, geo, draws);
    DrawPoint(env, draws[k])
  }

  /** The `do { p = random point } while (isPointInObstacle(p))` loop of
      `initializePopulation` and `mutate`, over a given stream of draws. */
  method SamplePoint(env: Environment, geo: Geometry, draws: seq<PointDraw>) returns (p: Point)
    requires CanSample(env, geo, draws)
    ensures Free(env, geo, p)
    ensures p == Sample(env, geo, draws)
  {
    ghost var accept := FirstFreeIndex(env, geo, draws);
    var i := 0;
    p := DrawPoint(env, draws[0]);
    var inside := IsPointInObstacle(p, env, geo);
    while inside
      invariant 0 <= i <= accept
      invariant p == DrawPoint(env, draws[i])
      invariant inside <==> InObstacle(env, geo, p)
      decreases accept - i
    {
      i := i + 1;
      p := DrawPoint(env, draws[i]);
      inside := IsPointInObstacle(p, env, geo);
    }
  }

  /** The shape of every route in the population: it starts at the start, ends
      at the end, holds 1 to 5 interior waypoints, and every interior waypoint
      is an obstacle-free point of the field. */
  predicate WellFormedRoute(env: Environment, geo: Geometry, r: Route) {
    && 3 <= |r| <= 7
    && r[0] == env.start
    && r[|r| - 1] == env.end
    && forall j :: 0 < j < |r| - 1 ==> Free(env, geo, r[j])
  }
}
