/** `select`: binary tournament selection. */
module Selection {
  import opened Field

  /** The two `rand.nextInt(population.size())` draws of one tournament. */
  datatype Pick = Pick(first: nat, second: nat)

  /** The winner of a tournament between entries `a` and `b`: the one with the
      strictly lower fitness, and `b` on a tie. */
  function Tournament(fitnessValues: seq<real>, a: nat, b: nat): (w: nat)
    requires a < |fitnessValues| && b < |fitnessValues|
    ensures w == a || w == b
    ensures fitnessValues[w] <= fitnessValues[a] && fitnessValues[w] <= fitnessValues[b]
    ensures fitnessValues[a] == fitnessValues[b] ==> w == b
  {
    if fitnessValues[a] < fitnessValues[b] then a else b
  }

  /** The entries `select` returns: entry `i` is the winner of tournament `i`. */
  function Selected<R>(population: seq<R>, fitnessValues: seq<real>, picks: seq<Pick>): (selected: seq<R>)
    requires |fitnessValues| == |population| && |picks| == |population|
    ensures |selected| == |population|
    ensures forall i :: 0 <= i < |selected| ==> selected[i] in population
  {
    seq(|population|, i requires 0 <= i < |population| =>
      population[Tournament(fitnessValues, NextInt(picks[i].first, |population|), NextInt(picks[i].second, |population|))])
  }

  /** `select`: one tournament per entry of the population; the chosen entry
      itself (not a copy) goes into the result. */
  method Select<R>(population: seq<R>, fitnessValues: seq<real>, picks: seq<Pick>) returns (selected: seq<R>)
    requires |fitnessValues| == |population|
    requires |picks| == |population|
    ensures selected == Selected(population, fitnessValues, picks)
  {
    selected := [];
    for i := 0 to |population|
      invariant |selected| == i
      invariant forall k :: 0 <= k < i ==>
        selected[k] == population[Tournament(fitnessValues, NextInt(picks[k].first, |population|), NextInt(picks[k].second, |population|))]
    {
      var idx1 := NextInt(picks[i].first, |population|);
      var idx2 := NextInt(picks[i].second, |population|);
      if fitnessValues[idx1] < fitnessValues[idx2] {
        selected := selected + [population[idx1]];
      } else {
        selected := selected + [population[idx2]];
      }
    }
  }
}
