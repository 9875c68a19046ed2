/** `initializePopulation`: random routes from the start to the end through
    1 to 5 obstacle-free waypoints. */
module Initialization {
  import opened Field
  import opened Obstacles

  /** The random draws behind one initial route: `rand.nextInt(5)` for the
      number of waypoints, then the candidate points the rejection loop draws
      for each waypoint. */
  datatype RouteDraw = RouteDraw(size: nat, waypoints: seq<seq<PointDraw>>)

  /** `rand.nextInt(5) + 1` interior waypoints. */
  function WaypointCount(d: RouteDraw): (n: int)
    ensures 1 <= n <= 5
  {
    NextInt(d.size, 5) + 1
  }

  /** The draws of one route are complete and every waypoint's sampling loop
      ends. */
  predicate ValidRouteDraw(env: Environment, geo: Geometry, d: RouteDraw) {
    && |d.waypoints| == WaypointCount(d)
    && forall j :: 0 <= j < |d.waypoints| ==> CanSample(env, geo, d.waypoints[j])
  }

  /** The points the waypoint sampling loops accept, in order. */
  function SampleAll(env: Environment, geo: Geometry, ws: seq<seq<PointDraw>>): (ps: seq<Point>)
    requires forall j :: 0 <= j < |ws| ==> CanSample(env, geo, ws[j])
    ensures |ps| == |ws|
    ensures forall j :: 0 <= j < |ws| ==> ps[j] == Sample(env, geo, ws[j])
  {
    if ws == [] then [] else SampleAll(env, geo, ws[..|ws| - 1]) + [Sample(env, geo, ws[|ws| - 1])]
  }

  /** The route `initializePopulation` builds from draw `d`. */
  function InitialRoute(env: Environment, geo: Geometry, d: RouteDraw): (r: Route)
    requires ValidRouteDraw(env, geo, d)
    ensures |r| == WaypointCount(d) + 2
    ensures WellFormedRoute(env, geo, r)
  {
    [env.start] + SampleAll(env, geo, d.waypoints) + [env.end]
  }

  /** The body of the outer loop of `initializePopulation`: one route, grown
      point by point. */
  method BuildRoute(env: Environment, geo: Geometry, d: RouteDraw) returns (path: Route)
    requires ValidRouteDraw(env, geo, d)
    ensures path == InitialRoute(env, geo, d)
  {
    path := [env.start];
    var size := NextInt(d.size, 5) + 1;
    for j := 0 to size
      invariant path == [env.start] + SampleAll(env, geo, d.waypoints[..j])
    {
      var p := SamplePoint(env, geo, d.waypoints[j]);
      assert SampleAll(env, geo, d.waypoints[..j + 1]) == SampleAll(env, geo, d.waypoints[..j]) + [p];
      path := path + [p];
    }
    assert d.waypoints[..size] == d.waypoints;
    path := path + [env.end];
  }

  /** `initializePopulation`: `populationSize` fresh routes, route `i` built
      from draw `i`. */
  method InitializePopulation(populationSize: nat, env: Environment, geo: Geometry, draws: seq<RouteDraw>)
    returns (population: seq<array<Point>>)
    requires |draws| == populationSize
    requires forall i :: 0 <= i < |draws| ==> ValidRouteDraw(env, geo, draws[i])
    ensures |population| == populationSize
    ensures forall i :: 0 <= i < |population| ==> fresh(population[i])
    ensures forall i :: 0 <= i < |population| ==> population[i][..] == InitialRoute(env, geo, draws[i])
  {
    population := [];
    for i := 0 to populationSize
      invariant |population| == i
      invariant forall k :: 0 <= k < i ==> fresh(population[k])
      invariant forall k :: 0 <= k < i ==> population[k][..] == InitialRoute(env, geo, draws[k])
    {
      var route := BuildRoute(env, geo, draws[i]);
      var path := NewRoute(route);
      population := population + [path];
    }
  }
}
