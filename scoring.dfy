/** Scoring a route: its length, its (segment, obstacle) intersections, and the
    fitness that combines them. `fitness` and `calculateIntersections` both
    count with the same primitive, `geo.crosses`. */
module Scoring {
  import opened Field

  /** Penalty added to the fitness for each (segment, obstacle) intersection. */
  const Penalty: real := 10000.0

  /** How many of the first `n` obstacles the segment from `p` to `q`
      intersects. */
  function Hits(geo: Geometry, obstacles: seq<Rect>, n: nat, p: Point, q: Point): (c: nat)
    requires n <= |obstacles|
    ensures c <= n
  {
    if n == 0 then 0
    else Hits(geo, obstacles, n - 1, p, q) + (if geo.crosses(obstacles[n - 1], p, q) then 1 else 0)
  }

  /** How many of `obstacles` the segment from `p` to `q` intersects. */
  function HitCount(geo: Geometry, obstacles: seq<Rect>, p: Point, q: Point): (c: nat)
    ensures c <= |obstacles|
  {
    Hits(geo, obstacles, |obstacles|, p, q)
  }

  /** The number of segments of route `r`. */
  function Segments(r: Route): nat {
    if |r| == 0 then 0 else |r| - 1
  }

  /** The (segment, obstacle) intersections of the first `n` segments of `r`. */
  function CrossingsUpTo(env: Environment, geo: Geometry, r: Route, n: nat): nat
    requires n <= Segments(r)
  {
    if n == 0 then 0
    else CrossingsUpTo(env, geo, r, n - 1) + HitCount(geo, env.obstacles, r[n - 1], r[n])
  }

  /** The number of (segment, obstacle) pairs of route `r` that intersect. */
  function Crossings(env: Environment, geo: Geometry, r: Route): nat {
    CrossingsUpTo(env, geo, r, Segments(r))
  }

  /** The summed length of the first `n` segments of `r`. */
  function LengthUpTo(geo: Geometry, r: Route, n: nat): (len: real)
    requires n <= Segments(r)
    ensures len >= 0.0
  {
    if n == 0 then 0.0
    else LengthUpTo(geo, r, n - 1) + geo.distance(r[n - 1], r[n])
  }

  /** The summed length of the segments of route `r`. */
  function PathLength(geo: Geometry, r: Route): (len: real)
    ensures len >= 0.0
  {
    LengthUpTo(geo, r, Segments(r))
  }

  /** The score `fitness` computes: length plus the penalty per intersection;
      lower is better. */
  function FitnessOf(env: Environment, geo: Geometry, r: Route): (f: real)
    ensures f >= PathLength(geo, r)
    ensures f >= Penalty * Crossings(env, geo, r) as real
  {
    PathLength(geo, r) + Penalty * Crossings(env, geo, r) as real
  }

  /** No segment of `r` intersects any obstacle. */
  predicate CollisionFree(env: Environment, geo: Geometry, r: Route) {
    forall i, k :: 0 <= i < |r| - 1 && 0 <= k < |env.obstacles| ==> !geo.crosses(env.obstacles[k], r[i], r[i + 1])
  }

  /** `fitness`: one pass over the segments, adding each segment's length and
      counting the obstacles it intersects. */
  method Fitness(path: array<Point>, env: Environment, geo: Geometry) returns (f: real)
    ensures f == PathLength(geo, path[..]) + Penalty * Crossings(env, geo, path[..]) as real
  {
    var distance := 0.0;
    var intersections := 0;
    var i := 0;
    while i < path.Length - 1
      invariant 0 <= i <= Segments(path[..])
      invariant distance == LengthUpTo(geo, path[..], i)
      invariant intersections == CrossingsUpTo(env, geo, path[..], i)
    {
      var p1 := path[i];
      var p2 := path[i + 1];
      distance := distance + geo.distance(p1, p2);
      var j := 0;
      while j < |env.obstacles|
        invariant 0 <= j <= |env.obstacles|
        invariant intersections == CrossingsUpTo(env, geo, path[..], i) + Hits(geo, env.obstacles, j, p1, p2)
      {
        if geo.crosses(env.obstacles[j], p1, p2) {
          intersections := intersections + 1;
        }
        j := j + 1;
      }
      i := i + 1;
    }
    f := distance + Penalty * intersections as real;
  }

  /** `calculateIntersections`: the same double loop as `fitness`, keeping only
      the count. */
  method CalculateIntersections(path: array<Point>, env: Environment, geo: Geometry) returns (intersections: int)
    ensures intersections == Crossings(env, geo, path[..])
  {
    intersections := 0;
    var i := 0;
    while i < path.Length - 1
      invariant 0 <= i <= Segments(path[..])
      invariant intersections == CrossingsUpTo(env, geo, path[..], i)
    {
      var p1 := path[i];
      var p2 := path[i + 1];
      var j := 0;
      while j < |env.obstacles|
        invariant 0 <= j <= |env.obstacles|
        invariant intersections == CrossingsUpTo(env, geo, path[..], i) + Hits(geo, env.obstacles, j, p1, p2)
      {
        if geo.crosses(env.obstacles[j], p1, p2) {
          intersections := intersections + 1;
        }
        j := j + 1;
      }
      i := i + 1;
    }
  }

  /** The first `n` obstacles all miss a segment exactly when it hits none of
      them. */
  lemma {:induction false} HitsZero(geo: Geometry, obstacles: seq<Rect>, n: nat, p: Point, q: Point)
    requires n <= |obstacles|
    ensures Hits(geo, obstacles, n, p, q) == 0 <==> forall k :: 0 <= k < n ==> !geo.crosses(obstacles[k], p, q)
  {
    if n > 0 {
      HitsZero(geo, obstacles, n - 1, p, q);
    }
  }

  /** The first `n` segments have no intersection counted exactly when none of
      them intersects an obstacle. */
  lemma {:induction false} CrossingsUpToZero(env: Environment, geo: Geometry, r: Route, n: nat)
    requires n <= Segments(r)
    ensures CrossingsUpTo(env, geo, r, n) == 0 <==>
      forall i, k :: 0 <= i < n && 0 <= k < |env.obstacles| ==> !geo.crosses(env.obstacles[k], r[i], r[i + 1])
  {
    if n > 0 {
      CrossingsUpToZero(env, geo, r, n - 1);
      HitsZero(geo, env.obstacles, |env.obstacles|, r[n - 1], r[n]);
    }
  }

  /** The intersection count is zero exactly when the route is collision-free:
      the counter and the fitness agree on which routes collide. */
  lemma CrossingsZeroIffCollisionFree(env: Environment, geo: Geometry, r: Route)
    ensures Crossings(env, geo, r) == 0 <==> CollisionFree(env, geo, r)
  {
    CrossingsUpToZero(env, geo, r, Segments(r));
  }

  /** The first `n` segments count at most one intersection per obstacle. */
  lemma {:induction false} CrossingsUpToBound(env: Environment, geo: Geometry, r: Route, n: nat)
    requires n <= Segments(r)
    ensures CrossingsUpTo(env, geo, r, n) <= n * |env.obstacles|
  {
    if n > 0 {
      CrossingsUpToBound(env, geo, r, n - 1);
      assert (n - 1) * |env.obstacles| + |env.obstacles| == n * |env.obstacles|;
    }
  }

  /** The count of a route never exceeds one per (segment, obstacle) pair, and
      a route with fewer than two points has none. */
  lemma CrossingsBound(env: Environment, geo: Geometry, r: Route)
    ensures |r| < 2 ==> Crossings(env, geo, r) == 0
    ensures |r| >= 1 ==> Crossings(env, geo, r) <= (|r| - 1) * |env.obstacles|
  {
    CrossingsUpToBound(env, geo, r, Segments(r));
  }

  /** A collision-free route scores exactly its length. */
  lemma FitnessOfCollisionFree(env: Environment, geo: Geometry, r: Route)
    requires CollisionFree(env, geo, r)
    ensures FitnessOf(env, geo, r) == PathLength(geo, r)
  {
    CrossingsZeroIffCollisionFree(env, geo, r);
  }

  /** On a field whose routes are shorter than the penalty, a route with fewer
      intersections always scores better, whatever the lengths. */
  lemma PenaltyDominates(env: Environment, geo: Geometry, a: Route, b: Route)
    requires PathLength(geo, a) < Penalty
    requires Crossings(env, geo, a) < Crossings(env, geo, b)
    ensures FitnessOf(env, geo, a) < FitnessOf(env, geo, b)
  {
  }

  /** A score below the penalty certifies a collision-free route. */
  lemma BelowPenaltyIsCollisionFree(env: Environment, geo: Geometry, r: Route)
    requires FitnessOf(env, geo, r) < Penalty
    ensures CollisionFree(env, geo, r)
  {
    CrossingsZeroIffCollisionFree(env, geo, r);
  }
}
