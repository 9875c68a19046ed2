/** `crossover`: one-point prefix/suffix recombination of consecutive pairs. */
module Recombination {
  import opened Field
  import opened Obstacles

  /** The child made of the first `k` points of `head` followed by the points
      of `tail` from position `k` on. */
  function Splice(head: Route, tail: Route, k: nat): (child: Route)
    requires k <= |head| && k <= |tail|
    ensures |child| == |tail|
    ensures forall j :: 0 <= j < k ==> child[j] == head[j]
    ensures forall j :: k <= j < |tail| ==> child[j] == tail[j]
  {
    head[..k] + tail[k..]
  }

  /** The partner of entry `i` in a list of `n`: `(i + 1) % n`, the next
      entry, wrapping around to the first. */
  function Partner(n: nat, i: nat): (j: nat)
    requires i < n
    ensures j < n
    ensures j == (i + 1) % n
    ensures j == i <==> n == 1
  {
    if i + 1 < n then i + 1 else 0
  }

  /** The cut draws fit the pairs of `parents` (one `nextInt` per pair) and
      every parent is non-empty, as `nextInt(min(size1, size2))` demands. */
  predicate CanCross(parents: seq<Route>, cuts: seq<nat>) {
    && |cuts| == (|parents| + 1) / 2
    && forall i :: 0 <= i < |parents| ==> |parents[i]| > 0
  }

  /** The cut of pair `t`: `rand.nextInt(Math.min(parent1.size(), parent2.size()))`. */
  function Cut(parents: seq<Route>, cuts: seq<nat>, t: nat): (k: nat)
    requires CanCross(parents, cuts) && t < |cuts|
    ensures k < |parents[2 * t]| && k < |parents[Partner(|parents|, 2 * t)]|
  {
    var p1, p2 := parents[2 * t], parents[Partner(|parents|, 2 * t)];
    NextInt(cuts[t], if |p1| < |p2| then |p1| else |p2|)
  }

  /** The two children of pair `t`: `child1` (the first parent's prefix, the
      second parent's suffix), then `child2` (the other way round). */
  function Pair(parents: seq<Route>, cuts: seq<nat>, t: nat): (children: seq<Route>)
    requires CanCross(parents, cuts) && t < |cuts|
    ensures |children| == 2
  {
    var p1, p2 := parents[2 * t], parents[Partner(|parents|, 2 * t)];
    var k := Cut(parents, cuts, t);
    [Splice(p1, p2, k), Splice(p2, p1, k)]
  }

  /** The children of the first `t` pairs, in the order `crossover` adds them. */
  function OffspringUpTo(parents: seq<Route>, cuts: seq<nat>, t: nat): (children: seq<Route>)
    requires CanCross(parents, cuts) && t <= |cuts|
    ensures |children| == 2 * t
  {
    if t == 0 then [] else OffspringUpTo(parents, cuts, t - 1) + Pair(parents, cuts, t - 1)
  }

  /** The list `crossover` returns. */
  function Offspring(parents: seq<Route>, cuts: seq<nat>): (children: seq<Route>)
    requires CanCross(parents, cuts)
    ensures |parents| % 2 == 0 ==> |children| == |parents|
    ensures |parents| % 2 == 1 ==> |children| == |parents| + 1
  {
    OffspringUpTo(parents, cuts, |cuts|)
  }

  /** Entries `2 * u` and `2 * u + 1` of the list are the children of pair `u`. */
  lemma {:induction false} OffspringUpToPairs(parents: seq<Route>, cuts: seq<nat>, t: nat)
    requires CanCross(parents, cuts) && t <= |cuts|
    ensures forall u :: 0 <= u < t ==>
      && OffspringUpTo(parents, cuts, t)[2 * u] == Pair(parents, cuts, u)[0]
      && OffspringUpTo(parents, cuts, t)[2 * u + 1] == Pair(parents, cuts, u)[1]
  {
    if t > 0 {
      OffspringUpToPairs(parents, cuts, t - 1);
    }
  }

  /** The loop body of `crossover` for one pair: both children copied into
      fresh lists. */
  method Mate(parent1: array<Point>, parent2: array<Point>, crossoverPoint: nat)
    returns (child1: array<Point>, child2: array<Point>)
    requires crossoverPoint < parent1.Length && crossoverPoint < parent2.Length
    ensures fresh(child1) && fresh(child2) && child1 != child2
    ensures child1[..] == Splice(parent1[..], parent2[..], crossoverPoint)
    ensures child2[..] == Splice(parent2[..], parent1[..], crossoverPoint)
  {
    child1 := NewRoute(parent1[..crossoverPoint] + parent2[crossoverPoint..]);
    child2 := NewRoute(parent2[..crossoverPoint] + parent1[crossoverPoint..]);
  }

  /** One pass of the loop of `crossover`: the entry at `i` and the next one,
      wrapping around, make the two children of pair `t`, which are appended
      to `offspring`. */
  method CrossPair(selected: seq<array<Point>>, cutDraws: seq<nat>, offspring: seq<array<Point>>, i: nat,
                   ghost parents: seq<Route>, ghost t: nat)
    returns (longer: seq<array<Point>>)
    requires parents == Routes(selected) && CanCross(parents, cutDraws)
    requires i == 2 * t && i < |selected| && |offspring| == i
    requires Routes(offspring) == OffspringUpTo(parents, cutDraws, t)
    requires forall a, b :: 0 <= a < b < i ==> offspring[a] != offspring[b]
    ensures |longer| == i + 2 && forall j :: 0 <= j < i ==> longer[j] == offspring[j]
    ensures fresh(longer[i]) && fresh(longer[i + 1])
    ensures forall a, b :: 0 <= a < b < i + 2 ==> longer[a] != longer[b]
    ensures Routes(longer) == OffspringUpTo(parents, cutDraws, t + 1)
  {
    assert i / 2 == t;
    var parent1 := selected[i];
    var parent2 := selected[(i + 1) % |selected|];
    assert parent1[..] == parents[2 * t];
    assert parent2[..] == parents[Partner(|parents|, 2 * t)];
    var crossoverPoint := NextInt(cutDraws[i / 2], if parent1.Length < parent2.Length then parent1.Length else parent2.Length);
    assert crossoverPoint == Cut(parents, cutDraws, t);
    var child1, child2 := Mate(parent1, parent2, crossoverPoint);
    RoutesAppend(offspring, child1, child2);
    longer := offspring + [child1, child2];
  }

  /** `crossover`: walks the list two at a time and copies every child into a
      fresh list, so no child shares storage with a parent or another child. */
  method Crossover(selected: seq<array<Point>>, cutDraws: seq<nat>) returns (offspring: seq<array<Point>>)
    requires CanCross(Routes(selected), cutDraws)
    ensures Routes(offspring) == Offspring(Routes(selected), cutDraws)
    ensures forall j :: 0 <= j < |offspring| ==> fresh(offspring[j])
    ensures forall i, j :: 0 <= i < j < |offspring| ==> offspring[i] != offspring[j]
  {
    ghost var parents := Routes(selected);
    offspring := [];
    var i := 0;
    ghost var t := 0;
    while i < |selected|
      invariant i == 2 * t && t <= |cutDraws| && |offspring| == i && Routes(selected) == parents
      invariant forall j :: 0 <= j < i ==> fresh(offspring[j])
      invariant forall a, b :: 0 <= a < b < i ==> offspring[a] != offspring[b]
      invariant Routes(offspring) == OffspringUpTo(parents, cutDraws, t)
    {
      offspring := CrossPair(selected, cutDraws, offspring, i, parents, t);
      i, t := i + 2, t + 1;
    }
    assert t == |cutDraws|;
  }

  /** Both children of well-formed parents are well-formed: a cut below both
      lengths keeps the first parent's start and the second parent's end. */
  lemma SpliceWellFormed(env: Environment, geo: Geometry, head: Route, tail: Route, k: nat)
    requires WellFormedRoute(env, geo, head) && WellFormedRoute(env, geo, tail)
    requires k < |head| && k < |tail|
    ensures WellFormedRoute(env, geo, Splice(head, tail, k))
  {
    var c := Splice(head, tail, k);
    forall j | 0 < j < |c| - 1
      ensures Free(env, geo, c[j])
    {
      if j < k {
        assert c[j] == head[j] && j < |head| - 1;
      } else {
        assert c[j] == tail[j];
      }
    }
  }

  /** Crossover keeps every route well-formed; in particular every child has
      the length of one of its parents, so it still has an interior point for
      `mutate` to pick. */
  lemma {:induction false} OffspringUpToWellFormed(env: Environment, geo: Geometry, parents: seq<Route>, cuts: seq<nat>, t: nat)
    requires CanCross(parents, cuts) && t <= |cuts|
    requires forall i :: 0 <= i < |parents| ==> WellFormedRoute(env, geo, parents[i])
    ensures forall j :: 0 <= j < 2 * t ==> WellFormedRoute(env, geo, OffspringUpTo(parents, cuts, t)[j])
  {
    if t > 0 {
      OffspringUpToWellFormed(env, geo, parents, cuts, t - 1);
      var p1, p2 := parents[2 * (t - 1)], parents[Partner(|parents|, 2 * (t - 1))];
      var k := Cut(parents, cuts, t - 1);
      SpliceWellFormed(env, geo, p1, p2, k);
      SpliceWellFormed(env, geo, p2, p1, k);
    }
  }

  /** Every child `crossover` returns is well-formed when its parents are. */
  lemma OffspringWellFormed(env: Environment, geo: Geometry, parents: seq<Route>, cuts: seq<nat>)
    requires CanCross(parents, cuts)
    requires forall i :: 0 <= i < |parents| ==> WellFormedRoute(env, geo, parents[i])
    ensures forall j :: 0 <= j < |Offspring(parents, cuts)| ==> WellFormedRoute(env, geo, Offspring(parents, cuts)[j])
  {
    OffspringUpToWellFormed(env, geo, parents, cuts, |cuts|);
  }

  /** Child lengths follow the crossover length law: `child1` has the length of
      the second parent and `child2` that of the first. */
  lemma ChildLength(parents: seq<Route>, cuts: seq<nat>, t: nat)
    requires CanCross(parents, cuts) && t < |cuts|
    ensures |Pair(parents, cuts, t)[0]| == |parents[Partner(|parents|, 2 * t)]|
    ensures |Pair(parents, cuts, t)[1]| == |parents[2 * t]|
  {
  }

  /** So no child is shorter than the shortest parent. */
  lemma {:induction false} OffspringUpToMinLength(parents: seq<Route>, cuts: seq<nat>, t: nat, n: nat)
    requires CanCross(parents, cuts) && t <= |cuts|
    requires forall i :: 0 <= i < |parents| ==> |parents[i]| >= n
    ensures forall j :: 0 <= j < 2 * t ==> |OffspringUpTo(parents, cuts, t)[j]| >= n
  {
    if t > 0 {
      OffspringUpToMinLength(parents, cuts, t - 1, n);
      ChildLength(parents, cuts, t - 1);
    }
  }

  /** The two children of a pair together hold exactly the points of the two
      parents. */
  lemma SpliceConservesPoints(p1: Route, p2: Route, k: nat)
    requires k <= |p1| && k <= |p2|
    ensures multiset(Splice(p1, p2, k)) + multiset(Splice(p2, p1, k)) == multiset(p1) + multiset(p2)
  {
    assert p1 == p1[..k] + p1[k..];
    assert p2 == p2[..k] + p2[k..];
  }

  /** A route paired with itself (the last entry of a one-entry list) yields
      two copies of itself. */
  lemma SelfPairing(p: Route, k: nat)
    requires k <= |p|
    ensures Splice(p, p, k) == p
  {
    assert p[..k] + p[k..] == p;
  }

  /** In a list of odd size the last entry is paired with the first, and the
      list grows by one. */
  lemma OddSizeWrapsAround(parents: seq<Route>, cuts: seq<nat>)
    requires CanCross(parents, cuts) && |parents| % 2 == 1
    ensures Partner(|parents|, 2 * (|cuts| - 1)) == 0
    ensures |Offspring(parents, cuts)| == |parents| + 1
  {
  }
}
