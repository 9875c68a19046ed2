/** The field a route is planned across: integer points, rectangular obstacles,
    the run's environment, the geometry library the search relies on, and the
    way random draws are supplied to the model. */
module Field {

  /** An integer point (java.awt.Point). */
  datatype Point = Point(x: int, y: int)

  /** An axis-aligned obstacle (java.awt.Rectangle): corner, width and height. */
  datatype Rect = Rect(x: int, y: int, width: int, height: int)

  /** A route: the ordered waypoints from the start to the end. */
  type Route = seq<Point>

  /** The map configuration of one run; it is never changed during the run. */
  datatype Environment = Environment(
    width: int,
    height: int,
    start: Point,
    end: Point,
    obstacles: seq<Rect>)

  /** A Euclidean distance: some non-negative real. */
  type Distance = r: real | r >= 0.0

  /** The three geometric primitives of the AWT library that the search calls,
      taken as given:
      - contains(o, p):     Rectangle.contains(p)
      - crosses(o, p, q):   Rectangle.intersectsLine of the segment from p to q
      - distance(p, q):     Point.distance, a square root kept abstract */
  datatype Geometry = Geometry(
    contains: (Rect, Point) -> bool,
    crosses: (Rect, Point, Point) -> bool,
    distance: (Point, Point) -> Distance)

  /** The value `rand.nextInt(bound)` yields when the generator's hidden state
      is `draw`. Every value below `bound` is the outcome of some draw (the draw
      equal to it), so a contract that holds for all draws holds for every
      possible random outcome. Java throws for a bound that is not positive. */
  function NextInt(draw: nat, bound: int): (r: int)
    requires bound > 0
    ensures 0 <= r < bound
    ensures draw < bound ==> r == draw
  {
    draw % bound
  }

  /** The two `nextInt` draws that make one random point of the field. */
  datatype PointDraw = PointDraw(dx: nat, dy: nat)

  predicate InField(env: Environment, p: Point) {
    0 <= p.x < env.width && 0 <= p.y < env.height
  }

  /** `new Point(rand.nextInt(width), rand.nextInt(height))`. */
  function DrawPoint(env: Environment, d: PointDraw): (p: Point)
    requires env.width > 0 && env.height > 0
    ensures InField(env, p)
    ensures d.dx < env.width && d.dy < env.height ==> p == Point(d.dx, d.dy)
  {
    Point(NextInt(d.dx, env.width), NextInt(d.dy, env.height))
  }

  /** The routes the arrays of a population hold. */
  ghost function Routes(population: seq<array<Point>>): (rs: seq<Route>)
    reads population
    ensures |rs| == |population|
    ensures forall i :: 0 <= i < |population| ==> rs[i] == population[i][..]
  {
    seq(|population|, i reads population requires 0 <= i < |population| => population[i][..])
  }

  /** The arrays of `population` hold the routes `rs`, one by one. */
  lemma RoutesAre(population: seq<array<Point>>, rs: seq<Route>)
    requires |rs| == |population|
    requires forall i :: 0 <= i < |population| ==> population[i][..] == rs[i]
    ensures Routes(population) == rs
  {
  }

  /** Appending two arrays to a population appends the routes they hold. */
  lemma RoutesAppend(population: seq<array<Point>>, a: array<Point>, b: array<Point>)
    ensures Routes(population + [a, b]) == Routes(population) + [a[..], b[..]]
  {
  }

  /** A fresh array holding `s`: a new list built by copying. */
  method NewRoute(s: Route) returns (a: array<Point>)
    ensures fresh(a)
    ensures a[..] == s
  {
    a := new Point[|s|](i requires 0 <= i < |s| => s[i]);
  }
}
