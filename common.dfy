/** The older generators of `common.h`: an initial solution that lists each
    call once, and a random solution that never deals to the sink. */
module Common {
  import opened Instance
  import opened Solutions
  import opened Shuffling
  import opened Dealing
  import Cost
  import Heuristics

  /// Initial solution

  /** `vehicles` empty routes, then a sink holding `0, 1, ..., n-1`. */
  function SingleInitial(v: nat, n: nat): (s: Solution)
    ensures |s| == v + 1 && s[v] == Iota(n)
    ensures forall r :: 0 <= r < v ==> s[r] == []
  {
    Empties(v) + [Iota(n)]
  }

  /** `genInitialSolution` of `common.h`: `vehicles + 1` routes, the
      `push_back` loop putting every call once into the last one. */
  method GenInitialSolution(p: Problem) returns (routes: Solution)
    ensures |routes| == |p.vehicles| + 1
    ensures forall r :: 0 <= r < |p.vehicles| ==> routes[r] == []
    ensures |routes[|p.vehicles|]| == |p.calls|
    ensures forall k :: 0 <= k < |p.calls| ==> routes[|p.vehicles|][k] == k
    ensures routes == SingleInitial(|p.vehicles|, |p.calls|)
  {
    routes := Empties(|p.vehicles| + 1);
    var back := |routes| - 1;
    assert routes == Empties(|p.vehicles|) + [Iota(0)];
    for i := 0 to |p.calls|
      invariant |routes| == |p.vehicles| + 1
      invariant routes == Empties(|p.vehicles|) + [Iota(i)]
    {
      routes := routes[back := routes[back] + [i]];
    }
  }

  /** Every call sits once in the sink and nowhere else. */
  lemma SingleInitialPlaced(v: nat, n: nat)
    ensures Placed(SingleInitial(v, n), Ids(n), 1)
  {
    var s := SingleInitial(v, n);
    forall x
      ensures multiset(s[|s| - 1])[x] == if x in Ids(n) then 1 else 0
    {
      IotaCounts(n, x);
    }
    LastRoutePlaced(s, Ids(n), 1);
  }

  /** The ids listed by `Iota(n)` are the call indices. */
  lemma IotaIds(n: nat)
    ensures Cost.Distinct(Iota(n)) == Ids(n)
  {
    forall x
      ensures x in Iota(n) <==> 0 <= x < n
    {
      IotaCounts(n, x);
      assert x in Iota(n) <==> x in multiset(Iota(n));
    }
  }

  /** The calls of the sink are call indices. */
  lemma SingleValid(p: Problem)
    ensures Cost.ValidRoutes(p, SingleInitial(|p.vehicles|, |p.calls|))
  {
    var s := SingleInitial(|p.vehicles|, |p.calls|);
    forall r | 0 <= r < |s|
      ensures ValidIds(p, s[r])
    {
    }
  }

  /** The older initial solution costs what the newer one does: the sink is
      charged once per distinct call, so listing each call once or twice
      makes no difference. */
  lemma SingleInitialCost(p: Problem)
    ensures Cost.ValidRoutes(p, SingleInitial(|p.vehicles|, |p.calls|))
    ensures Cost.Cost(p, SingleInitial(|p.vehicles|, |p.calls|)) == Val(Cost.PenaltySum(p, Ids(|p.calls|)))
    ensures && Cost.ValidRoutes(p, Heuristics.InitialSolution(|p.vehicles|, |p.calls|))
            && Cost.Cost(p, SingleInitial(|p.vehicles|, |p.calls|))
               == Cost.Cost(p, Heuristics.InitialSolution(|p.vehicles|, |p.calls|))
  {
    var v, n := |p.vehicles|, |p.calls|;
    var a, b := Empties(v), [Iota(n)];
    SingleValid(p);
    Heuristics.EmptyRoutesCostNothing(p, a, 0);
    assert Cost.ValidRoutes(p, b);
    Cost.CostOfConcat(p, a, b, 0);
    assert SingleInitial(v, n) == a + b;
    Cost.CostFromStep(p, b, v);
    assert b[1..] == [];
    IotaIds(n);
    Heuristics.InitialCost(p);
  }

  /// Random solution

  /** `genRandSolution` of `common.h`: the call indices shuffled, dealt from
      the back to routes `draw % vehicles` only, then every route doubled
      and shuffled. The sink gets nothing. */
  method GenRandSolution(p: Problem, d: RandDraws) returns (routes: Solution)
    requires 0 < |p.vehicles| && RandReady(d, |p.calls|, |p.vehicles| + 1)
    ensures routes == RandomRoutes(|p.calls|, |p.vehicles| + 1, |p.vehicles|, d)
    ensures routes[|p.vehicles|] == []
  {
    var vSize := |p.vehicles|;
    var remainingCalls := Heuristics.CallIndices(|p.calls|);
    remainingCalls := Shuffle(remainingCalls, d.order);
    var dealt := Heuristics.DealCalls(remainingCalls, d.cars, vSize + 1, vSize);
    DealtFits(|p.calls|, vSize + 1, vSize, d, dealt);
    routes := Heuristics.DoubleAndShuffle(dealt, d.shuffles);
    RandomRoutesByRoute(|p.calls|, vSize + 1, vSize, d, dealt, routes);
  }

  /** The older random solution is well formed too: each call twice, in
      one vehicle route. */
  lemma RandomPaired(n: nat, v: nat, d: RandDraws)
    requires 0 < v && RandReady(d, n, v + 1)
    ensures Paired(RandomRoutes(n, v + 1, v, d), n)
    ensures RandomRoutes(n, v + 1, v, d)[v] == []
  {
    RandomRoutesPaired(n, v + 1, v, d);
  }
}
