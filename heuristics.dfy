/** The generators of the initial and of random solutions, and the two
    simple searches built on them: a blind random search and a local search
    over the `ex2`, `ex3` and `ins1` operators. Both keep the best solution
    found so far and replace it only with a feasible candidate whose cost is
    nonzero and strictly lower. The engine's draws are explicit inputs. */
module Heuristics {
  import opened Instance
  import opened Solutions
  import opened Shuffling
  import opened Dealing
  import Feasibility
  import Feasability
  import Cost
  import Operators

  /** How many candidates each search tries. */
  const MAX_SEARCH: nat := 10000

  /// The initial solution

  /** Every call twice in a row: `0, 0, 1, 1, ..., n-1, n-1`. */
  function Pairs(n: nat): (r: Route)
    ensures |r| == 2 * n
  {
    if n == 0 then [] else Pairs(n - 1) + [n - 1, n - 1]
  }

  /** Call `k` sits at positions `2k` and `2k + 1`. */
  lemma {:induction false} PairsAt(n: nat, k: nat)
    requires k < n
    ensures Pairs(n)[2 * k] == k && Pairs(n)[2 * k + 1] == k
  {
    if k < n - 1 {
      PairsAt(n - 1, k);
    }
  }

  /** `v` empty vehicle routes and the sink holding every call. */
  function InitialSolution(v: nat, n: nat): (s: Solution)
    ensures |s| == v + 1 && s[v] == Pairs(n)
    ensures forall r :: 0 <= r < v ==> s[r] == []
  {
    Empties(v) + [Pairs(n)]
  }

  /** `genInitialSolution`: `vehicles + 1` routes; the `push_back` loop puts
      both occurrences of every call into the last one. */
  method GenInitialSolution(p: Problem) returns (routes: Solution)
    ensures |routes| == |p.vehicles| + 1
    ensures forall r :: 0 <= r < |p.vehicles| ==> routes[r] == []
    ensures routes == InitialSolution(|p.vehicles|, |p.calls|)
  {
    routes := Empties(|p.vehicles| + 1);
    var back := |routes| - 1;
    assert routes == Empties(|p.vehicles|) + [Pairs(0)];
    for i := 0 to |p.calls|
      invariant |routes| == |p.vehicles| + 1
      invariant routes == Empties(|p.vehicles|) + [Pairs(i)]
    {
      routes := routes[back := routes[back] + [i]];
      routes := routes[back := routes[back] + [i]];
      assert routes[back] == Pairs(i + 1);
    }
  }

  /** Each call occurs twice in `Pairs(n)`, nothing else occurs. */
  lemma {:induction false} PairsCounts(n: nat, x: int)
    ensures multiset(Pairs(n))[x] == if 0 <= x < n then 2 else 0
  {
    if n == 0 {
      assert Pairs(n) == [];
    } else {
      var m := n - 1;
      PairsCounts(m, x);
      assert Pairs(n) == Pairs(m) + [m, m];
      CountAppendPair(Pairs(m), m, x);
    }
  }

  /** Appending `m` twice adds two to its count and nothing to the others. */
  lemma CountAppendPair(a: seq<int>, m: int, x: int)
    ensures multiset(a + [m, m])[x] == multiset(a)[x] + if x == m then 2 else 0
  {
    assert multiset(a + [m, m]) == multiset(a) + multiset{m, m};
  }

  /** `Pairs(n)` holds call indices only. */
  lemma PairsInRange(n: nat)
    ensures forall k :: 0 <= k < |Pairs(n)| ==> 0 <= Pairs(n)[k] < n
  {
    forall k | 0 <= k < |Pairs(n)|
      ensures 0 <= Pairs(n)[k] < n
    {
      assert Pairs(n)[k] in multiset(Pairs(n));
      PairsCounts(n, Pairs(n)[k]);
    }
  }

  /** The initial solution is well formed. */
  lemma InitialPaired(v: nat, n: nat)
    ensures Paired(InitialSolution(v, n), n)
  {
    var s := InitialSolution(v, n);
    forall x
      ensures multiset(s[|s| - 1])[x] == if x in Ids(n) then 2 else 0
    {
      PairsCounts(n, x);
    }
    LastRoutePlaced(s, Ids(n), 2);
  }

  /** The initial solution is feasible: no vehicle has anything to do. */
  lemma InitialFeasible(p: Problem)
    requires ValidProblem(p)
    ensures Feasibility.Feasibility(p, InitialSolution(|p.vehicles|, |p.calls|)) == None
  {
    var s := InitialSolution(|p.vehicles|, |p.calls|);
    forall j | 0 <= j < |s| && 0 + j < |p.vehicles|
      ensures Feasibility.RouteOutcome(p, 0 + j, s[j]) == None
    {
      Feasibility.EmptyRoutePasses(p, j);
    }
    Feasibility.FeasibleIffEveryRoutePasses(p, s, 0);
  }

  /** The ids of `Pairs(n)` are the calls. */
  lemma PairsIds(n: nat)
    ensures Cost.Distinct(Pairs(n)) == Ids(n)
  {
    forall x
      ensures x in Pairs(n) <==> 0 <= x < n
    {
      PairsCounts(n, x);
      assert x in Pairs(n) <==> x in multiset(Pairs(n));
    }
  }

  /** Routes that are all empty cost nothing. */
  lemma {:induction false} EmptyRoutesCostNothing(p: Problem, routes: Solution, i: nat)
    requires forall r :: 0 <= r < |routes| ==> routes[r] == []
    ensures Cost.ValidRoutes(p, routes) && Cost.CostFrom(p, routes, i) == Val(0)
    decreases |routes|
  {
    if routes != [] {
      Cost.CostFromStep(p, routes, i);
      Cost.EmptyRouteCostsNothing(p, i);
      EmptyRoutesCostNothing(p, routes[1..], i + 1);
    }
  }

  /** The initial solution holds only call indices. */
  lemma InitialValid(p: Problem)
    ensures Cost.ValidRoutes(p, InitialSolution(|p.vehicles|, |p.calls|))
  {
    var s := InitialSolution(|p.vehicles|, |p.calls|);
    PairsInRange(|p.calls|);
    assert forall r :: 0 <= r < |s| ==> ValidIds(p, s[r]);
  }

  /** The initial solution costs the outsourcing penalty of every call,
      each counted once. */
  lemma InitialCost(p: Problem)
    ensures Cost.ValidRoutes(p, InitialSolution(|p.vehicles|, |p.calls|))
    ensures Cost.Cost(p, InitialSolution(|p.vehicles|, |p.calls|)) == Val(Cost.PenaltySum(p, Ids(|p.calls|)))
  {
    var v, n := |p.vehicles|, |p.calls|;
    var a, b := Empties(v), [Pairs(n)];
    EmptyRoutesCostNothing(p, a, 0);
    PairsInRange(n);
    assert Cost.ValidRoutes(p, b);
    Cost.CostOfConcat(p, a, b, 0);
    assert InitialSolution(v, n) == a + b;
    Cost.CostFromStep(p, b, v);
    assert b[1..] == [];
    PairsIds(n);
  }

  /// Random solutions

  /** The `push_back` loop that lists the call indices in order. */
  method CallIndices(n: nat) returns (calls: seq<int>)
    ensures |calls| == n && forall k :: 0 <= k < n ==> calls[k] == k
    ensures calls == Iota(n)
  {
    calls := [];
    for i := 0 to n
      invariant calls == Iota(i)
    {
      calls := calls + [i];
    }
  }

  /** The `pop_back` drain of `genRandSolution`: the last call of the pile
      goes to route `cars[j] % m`, for `j = 0, 1, ...`. */
  method DealCalls(pile: seq<int>, cars: seq<nat>, count: nat, m: nat) returns (routes: Solution)
    requires 0 < m <= count && |pile| <= |cars|
    ensures routes == DealFrom(Empties(count), pile, cars, 0, m)
  {
    routes := Empties(count);
    var remainingCalls := pile;
    var j := 0;
    while remainingCalls != []
      invariant |routes| == count && j + |remainingCalls| == |pile|
      invariant DealFrom(Empties(count), pile, cars, 0, m) == DealFrom(routes, remainingCalls, cars, j, m)
      decreases |remainingCalls|
    {
      var car := cars[j] % m;
      routes := routes[car := routes[car] + [remainingCalls[|remainingCalls| - 1]]];
      remainingCalls := remainingCalls[..|remainingCalls| - 1];
      j := j + 1;
    }
  }

  /** The last loop of `genRandSolution`: every route doubled, then
      shuffled with its own draws. */
  method DoubleAndShuffle(dealt: Solution, shuffles: seq<seq<nat>>) returns (routes: Solution)
    requires |shuffles| == |dealt| && forall q :: 0 <= q < |dealt| ==> 2 * |dealt[q]| <= |shuffles[q]|
    ensures |routes| == |dealt|
    ensures forall q :: 0 <= q < |dealt| ==> routes[q] == Shuffled(dealt[q] + dealt[q], shuffles[q])
  {
    routes := dealt;
    for r := 0 to |routes|
      invariant |routes| == |dealt|
      invariant forall q :: 0 <= q < r ==> routes[q] == Shuffled(dealt[q] + dealt[q], shuffles[q])
      invariant forall q :: r <= q < |routes| ==> routes[q] == dealt[q]
    {
      var route := routes[r] + routes[r];
      route := Shuffle(route, shuffles[r]);
      routes := routes[r := route];
    }
  }

  /** `genRandSolution`: the call indices shuffled, dealt from the back over
      all `vehicles + 1` routes (the sink included), then every route
      doubled and shuffled. */
  method GenRandSolution(p: Problem, d: RandDraws) returns (routes: Solution)
    requires RandReady(d, |p.calls|, |p.vehicles| + 1)
    ensures routes == RandomRoutes(|p.calls|, |p.vehicles| + 1, |p.vehicles| + 1, d)
  {
    var vSize := |p.vehicles|;
    var remainingCalls := CallIndices(|p.calls|);
    remainingCalls := Shuffle(remainingCalls, d.order);
    var dealt := DealCalls(remainingCalls, d.cars, vSize + 1, vSize + 1);
    DealtFits(|p.calls|, vSize + 1, vSize + 1, d, dealt);
    routes := DoubleAndShuffle(dealt, d.shuffles);
    RandomRoutesByRoute(|p.calls|, vSize + 1, vSize + 1, d, dealt, routes);
  }

  /// The search fold

  /** A well-formed solution holds only call indices. */
  lemma PairedValid(p: Problem, s: Solution)
    requires Paired(s, |p.calls|)
    ensures Cost.ValidRoutes(p, s)
  {
    Operators.PairedRange(s, |p.calls|);
  }

  /** Every trip and handling record the cost pass looks up along a vehicle
      route, the time pass looked up before it, at the same nodes: where the
      time pass gets through, the cost pass does too. */
  lemma {:induction false} TimedRouteHasCost(p: Problem, i: nat, route: Route, k: nat, time: int, node: int,
                                             open: seq<int>, total: int)
    requires i < |p.vehicles| && ValidIds(p, route) && k <= |route|
    requires Feasibility.TimeRun(p, i, route, k, time, node, open) == None
    ensures Cost.RouteCostRun(p, i, route, k, node, open, total).Val?
    decreases |route| - k
  {
    if k < |route| {
      var x := route[k];
      var visit := Feasibility.Visit(p, i, x, x !in open, time, node);
      var step := Cost.VisitCost(p, i, x, x !in open, node);
      assert visit.Val?;
      assert step.Val? && step.value.1 == visit.value.1;
      TimedRouteHasCost(p, i, route, k + 1, visit.value.0, visit.value.1, Toggle(open, x), total + step.value.0);
    }
  }

  /** A vehicle route that passes the feasibility check has a cost. */
  lemma PassingRouteHasCost(p: Problem, i: nat, route: Route)
    requires ValidProblem(p) && ValidIds(p, route) && i < |p.vehicles|
    requires Feasibility.RouteOutcome(p, i, route) == None
    ensures Cost.RouteCost(p, i, route).Val?
  {
    var v := p.vehicles[i];
    assert Feasibility.TimeRun(p, i, route, 0, v.startingTime, v.homeNodeIndex as int, []) == None;
    TimedRouteHasCost(p, i, route, 0, v.startingTime, v.homeNodeIndex as int, [], 0);
  }

  /** A feasible solution has a cost, so the searches only take
      `val_or_max()` of a result that holds a value: the initial solution's
      (`InitialCost`) and a feasible candidate's. */
  lemma FeasibleHasCost(p: Problem, s: Solution)
    requires ValidProblem(p) && Cost.ValidRoutes(p, s)
    requires Feasibility.Feasibility(p, s) == None
    ensures Cost.Cost(p, s).Val?
    ensures Tracked(p, s) == Cost.Cost(p, s).value
  {
    Feasibility.FeasibleIffEveryRoutePasses(p, s, 0);
    forall j | 0 <= j < |s|
      ensures Cost.RouteCost(p, 0 + j, s[j]).Val?
    {
      if j < |p.vehicles| {
        assert Feasibility.RouteOutcome(p, 0 + j, s[j]) == None;
        PassingRouteHasCost(p, j, s[j]);
      }
    }
    Cost.CostFailsIffSomeRouteFails(p, s, 0);
  }

  /** The cost the searches keep: `getCost(...).val_or_max()`. */
  ghost function Tracked(p: Problem, s: Solution): int
    requires Cost.ValidRoutes(p, s)
  {
    ValOrMax(Cost.Cost(p, s))
  }

  /** A candidate takes the place of the best solution when it is feasible
      and its cost is nonzero and strictly below the cost kept. */
  ghost predicate Improves(p: Problem, cand: Solution, cost: int)
    requires ValidProblem(p) && Cost.ValidRoutes(p, cand)
  {
    Feasibility.Feasibility(p, cand) == None && Tracked(p, cand) != 0 && Tracked(p, cand) < cost
  }

  ghost predicate AllValid(p: Problem, cands: seq<Solution>) {
    forall i :: 0 <= i < |cands| ==> Cost.ValidRoutes(p, cands[i])
  }

  /** The best solution and its cost after trying `cands` in order. */
  ghost function Improve(p: Problem, best: Solution, cost: int, cands: seq<Solution>): (Solution, int)
    requires ValidProblem(p) && AllValid(p, cands)
    decreases |cands|
  {
    if cands == [] then (best, cost)
    else
      var last := |cands| - 1;
      var before := Improve(p, best, cost, cands[..last]);
      if Improves(p, cands[last], before.1) then (cands[last], Tracked(p, cands[last])) else before
  }

  /** The acceptance test both searches run on a candidate: feasible, then
      a nonzero cost strictly below the one kept. */
  method Consider(p: Problem, best: Solution, cost: int, current: Solution) returns (best': Solution, cost': int)
    requires ValidProblem(p) && Cost.ValidRoutes(p, current)
    ensures Improves(p, current, cost) ==> (best', cost') == (current, Tracked(p, current))
    ensures !Improves(p, current, cost) ==> (best', cost') == (best, cost)
    ensures best' == best || best' == current
  {
    best', cost' := best, cost;
    var result := Feasability.CheckFeasability(p, current);
    if result == None {
      var r := Cost.GetCost(p, current);
      var newCost := ValOrMax(r);
      if newCost != 0 && newCost < cost {
        best', cost' := current, newCost;
      }
    }
  }

  /** The cost kept never goes up. */
  lemma {:induction false} ImproveNeverWorse(p: Problem, best: Solution, cost: int, cands: seq<Solution>)
    requires ValidProblem(p) && AllValid(p, cands)
    ensures Improve(p, best, cost, cands).1 <= cost
    decreases |cands|
  {
    if cands != [] {
      ImproveNeverWorse(p, best, cost, cands[..|cands| - 1]);
    }
  }

  /** The cost kept is always the cost of the solution kept. */
  lemma {:induction false} ImproveTracksCost(p: Problem, best: Solution, cands: seq<Solution>)
    requires ValidProblem(p) && AllValid(p, cands) && Cost.ValidRoutes(p, best)
    ensures var r := Improve(p, best, Tracked(p, best), cands);
            Cost.ValidRoutes(p, r.0) && r.1 == Tracked(p, r.0)
    decreases |cands|
  {
    if cands != [] {
      ImproveTracksCost(p, best, cands[..|cands| - 1]);
    }
  }

  /** One round of the fold: trying candidate `i` turns the pair `kept`
      after the first `i` candidates into `next`, which is the candidate
      when it improves on `kept` and `kept` otherwise. */
  lemma ImproveStep(p: Problem, best: Solution, cost: int, cands: seq<Solution>, i: nat,
                    kept: (Solution, int), next: (Solution, int))
    requires ValidProblem(p) && i < |cands| && AllValid(p, cands[..i]) && Cost.ValidRoutes(p, cands[i])
    requires kept == Improve(p, best, cost, cands[..i])
    requires Improves(p, cands[i], kept.1) ==> next == (cands[i], Tracked(p, cands[i]))
    requires !Improves(p, cands[i], kept.1) ==> next == kept
    ensures AllValid(p, cands[..i + 1]) && next == Improve(p, best, cost, cands[..i + 1])
  {
    assert cands[..i + 1][..i] == cands[..i];
  }

  /** Appending keeps the prefix. */
  lemma PrefixOfAppend<T>(s: seq<T>, x: T)
    ensures (s + [x])[..|s|] == s && (s + [x])[|s|] == x && (s + [x])[..|s| + 1] == s + [x]
  {
  }

  /** When the start and every candidate are well formed, so is the
      solution kept. */
  lemma ImproveKeepsPaired(p: Problem, best: Solution, cost: int, cands: seq<Solution>, n: nat)
    requires ValidProblem(p) && AllValid(p, cands)
    requires Paired(best, n) && forall i :: 0 <= i < |cands| ==> Paired(cands[i], n)
    ensures Paired(Improve(p, best, cost, cands).0, n)
  {
    ImproveOutcome(p, best, cost, cands);
    var r := Improve(p, best, cost, cands);
    if r != (best, cost) {
      var i :| 0 <= i < |cands| && r.0 == cands[i] && Improves(p, cands[i], cost) && r.1 == Tracked(p, cands[i]);
      assert Paired(cands[i], n);
    }
  }

  /** The result is the starting pair, or a candidate that is feasible, has a
      nonzero cost below the starting cost, and comes with that cost. */
  lemma {:induction false} ImproveOutcome(p: Problem, best: Solution, cost: int, cands: seq<Solution>)
    requires ValidProblem(p) && AllValid(p, cands)
    ensures var r := Improve(p, best, cost, cands);
            || r == (best, cost)
            || exists i :: 0 <= i < |cands| && r.0 == cands[i] && Improves(p, cands[i], cost) && r.1 == Tracked(p, cands[i])
    decreases |cands|
  {
    if cands != [] {
      var last := |cands| - 1;
      var before := Improve(p, best, cost, cands[..last]);
      ImproveOutcome(p, best, cost, cands[..last]);
      ImproveNeverWorse(p, best, cost, cands[..last]);
      if !Improves(p, cands[last], before.1) && before != (best, cost) {
        var i :| 0 <= i < last && before.0 == cands[..last][i] && Improves(p, cands[..last][i], cost)
                 && before.1 == Tracked(p, cands[..last][i]);
        assert cands[..last][i] == cands[i];
      }
    }
  }

  /** The cost kept is at most that of every feasible candidate of nonzero
      cost: the search ends on the cheapest one it met, or on the start. */
  lemma {:induction false} ImproveIsLeast(p: Problem, best: Solution, cost: int, cands: seq<Solution>)
    requires ValidProblem(p) && AllValid(p, cands)
    ensures forall i :: 0 <= i < |cands| && Feasibility.Feasibility(p, cands[i]) == None && Tracked(p, cands[i]) != 0
              ==> Improve(p, best, cost, cands).1 <= Tracked(p, cands[i])
    decreases |cands|
  {
    if cands != [] {
      var last := |cands| - 1;
      ImproveIsLeast(p, best, cost, cands[..last]);
      forall i | 0 <= i < last
        ensures cands[..last][i] == cands[i]
      {
      }
    }
  }

  /** When no candidate would improve on the starting cost, the search ends
      where it started. */
  lemma NothingImprovesKeepsStart(p: Problem, best: Solution, cost: int, cands: seq<Solution>)
    requires ValidProblem(p) && AllValid(p, cands)
    requires forall i :: 0 <= i < |cands| ==> !Improves(p, cands[i], cost)
    ensures Improve(p, best, cost, cands) == (best, cost)
  {
    ImproveOutcome(p, best, cost, cands);
  }

  /// Blind random search

  /** The random solutions the blind search tries, one per set of draws. */
  ghost function RandomCandidates(p: Problem, draws: seq<RandDraws>): (cands: seq<Solution>)
    requires forall i :: 0 <= i < |draws| ==> RandReady(draws[i], |p.calls|, |p.vehicles| + 1)
    ensures |cands| == |draws|
    ensures forall i :: 0 <= i < |draws| ==> cands[i] == RandomRoutes(|p.calls|, |p.vehicles| + 1, |p.vehicles| + 1, draws[i])
  {
    seq(|draws|, i requires 0 <= i < |draws| => RandomRoutes(|p.calls|, |p.vehicles| + 1, |p.vehicles| + 1, draws[i]))
  }

  /** Every random candidate is well formed. */
  lemma RandomCandidatesPaired(p: Problem, draws: seq<RandDraws>)
    requires forall i :: 0 <= i < |draws| ==> RandReady(draws[i], |p.calls|, |p.vehicles| + 1)
    ensures forall i :: 0 <= i < |draws| ==> Paired(RandomCandidates(p, draws)[i], |p.calls|)
    ensures AllValid(p, RandomCandidates(p, draws))
  {
    var cands := RandomCandidates(p, draws);
    forall i | 0 <= i < |cands|
      ensures Paired(cands[i], |p.calls|) && Cost.ValidRoutes(p, cands[i])
    {
      RandomRoutesPaired(|p.calls|, |p.vehicles| + 1, |p.vehicles| + 1, draws[i]);
      PairedValid(p, cands[i]);
    }
  }

  /** `blindRandomSearch`: the initial solution, then `MAX_SEARCH` random
      solutions, each taken when it improves on the best so far. */
  method BlindRandomSearch(p: Problem, draws: seq<RandDraws>) returns (best: Solution)
    requires ValidProblem(p) && |draws| == MAX_SEARCH
    requires forall i :: 0 <= i < |draws| ==> RandReady(draws[i], |p.calls|, |p.vehicles| + 1)
    ensures var init := InitialSolution(|p.vehicles|, |p.calls|);
            && Cost.ValidRoutes(p, init) && AllValid(p, RandomCandidates(p, draws))
            && best == Improve(p, init, Tracked(p, init), RandomCandidates(p, draws)).0
  {
    best := GenInitialSolution(p);
    ghost var init := best;
    InitialValid(p);
    var c := Cost.GetCost(p, best);
    var cost := ValOrMax(c);
    ghost var c0 := cost;
    ghost var seen: seq<Solution> := [];
    for i := 0 to MAX_SEARCH
      invariant |seen| == i && AllValid(p, seen) && Tried(p, draws, seen)
      invariant (best, cost) == Improve(p, init, c0, seen)
    {
      best, cost, seen := BlindStep(p, draws, i, best, cost, init, c0, seen);
    }
    TriedAll(p, draws, seen);
  }

  /** `seen` are the random solutions of the first draws, in order. */
  ghost predicate Tried(p: Problem, draws: seq<RandDraws>, seen: seq<Solution>)
    requires forall i :: 0 <= i < |draws| ==> RandReady(draws[i], |p.calls|, |p.vehicles| + 1)
  {
    |seen| <= |draws| && seen == RandomCandidates(p, draws)[..|seen|]
  }

  /** The random solutions of all the draws are the blind search's
      candidates. */
  lemma TriedAll(p: Problem, draws: seq<RandDraws>, seen: seq<Solution>)
    requires forall i :: 0 <= i < |draws| ==> RandReady(draws[i], |p.calls|, |p.vehicles| + 1)
    requires Tried(p, draws, seen) && |seen| == |draws|
    ensures seen == RandomCandidates(p, draws)
  {
    assert RandomCandidates(p, draws)[..|draws|] == RandomCandidates(p, draws);
  }

  /** One more random solution, from the next draws, keeps the record. */
  lemma TriedStep(p: Problem, draws: seq<RandDraws>, seen: seq<Solution>, next: Solution)
    requires forall i :: 0 <= i < |draws| ==> RandReady(draws[i], |p.calls|, |p.vehicles| + 1)
    requires Tried(p, draws, seen) && |seen| < |draws|
    requires next == RandomRoutes(|p.calls|, |p.vehicles| + 1, |p.vehicles| + 1, draws[|seen|])
    ensures Tried(p, draws, seen + [next])
  {
    var cands := RandomCandidates(p, draws);
    assert cands[..|seen| + 1] == cands[..|seen|] + [cands[|seen|]];
  }

  /** The body of the `blindRandomSearch` loop: a fresh random solution from
      the `i`-th draws, then the acceptance test. `init` and `c0` are where
      the search started and `seen` the candidates tried so far, of which
      `(best, cost)` is the fold. */
  method BlindStep(p: Problem, draws: seq<RandDraws>, i: nat, best: Solution, cost: int,
                   ghost init: Solution, ghost c0: int, ghost seen: seq<Solution>)
    returns (best': Solution, cost': int, ghost seen': seq<Solution>)
    requires ValidProblem(p) && i == |seen| < |draws|
    requires forall j :: 0 <= j < |draws| ==> RandReady(draws[j], |p.calls|, |p.vehicles| + 1)
    requires AllValid(p, seen) && Tried(p, draws, seen) && (best, cost) == Improve(p, init, c0, seen)
    ensures |seen'| == i + 1 && Tried(p, draws, seen')
    ensures AllValid(p, seen') && (best', cost') == Improve(p, init, c0, seen')
    ensures (best', cost') == Improve(p, init, c0, RandomCandidates(p, draws)[..i + 1])
  {
    var current := GenRandSolution(p, draws[i]);
    RandomRoutesPaired(|p.calls|, |p.vehicles| + 1, |p.vehicles| + 1, draws[i]);
    PairedValid(p, current);
    best', cost' := Consider(p, best, cost, current);
    seen' := seen + [current];
    PrefixOfAppend(seen, current);
    ImproveStep(p, init, c0, seen', i, (best, cost), (best', cost'));
    TriedStep(p, draws, seen, current);
  }


  /** The blind search ends on a well-formed solution. */
  lemma BlindSearchPaired(p: Problem, draws: seq<RandDraws>)
    requires ValidProblem(p)
    requires forall i :: 0 <= i < |draws| ==> RandReady(draws[i], |p.calls|, |p.vehicles| + 1)
    ensures var init := InitialSolution(|p.vehicles|, |p.calls|);
            && Cost.ValidRoutes(p, init) && AllValid(p, RandomCandidates(p, draws))
            && Paired(Improve(p, init, Tracked(p, init), RandomCandidates(p, draws)).0, |p.calls|)
  {
    var init := InitialSolution(|p.vehicles|, |p.calls|);
    InitialCost(p);
    InitialPaired(|p.vehicles|, |p.calls|);
    RandomCandidatesPaired(p, draws);
    ImproveKeepsPaired(p, init, Tracked(p, init), RandomCandidates(p, draws), |p.calls|);
  }

  /// Local search

  /** One draw of the local search: `pick` is `ran() % 100`, choosing the
      operator, and `draws` are the values that operator takes from the
      engine. */
  datatype Move = Move(pick: nat, draws: seq<nat>)

  /** The operator chosen by `pick`: `ex2` up to 40, `ex3` up to 70, `ins1`
      otherwise; and enough draws for it on `n` calls. In IEEE single
      precision `40 * 0.01f` is a tie that rounds to even, just below `0.4f`,
      and `70 * 0.01f` rounds to `0.7f`, just below `0.4f + 0.3f`; so 40 and
      70 themselves choose the lower operator. */
  predicate MoveReady(mv: Move, n: nat) {
    && 1 <= n && mv.pick < 100
    && if mv.pick <= 40 then n - 1 < 2 || Operators.Ex2Ids(mv.draws, 0, n - 1).Some?
       else if mv.pick <= 70 then n - 1 < 3 || Operators.Ex3Ids(mv.draws, 0, n - 1).Some?
       else 4 <= |mv.draws|
  }

  /** `t` is what the chosen operator makes of the well-formed `s`: `ex2`
      exchanges the two drawn calls everywhere, `ex3` rotates the three drawn
      calls, `ins1` moves the drawn call into the drawn route. */
  ghost predicate Applied(s: Solution, t: Solution, mv: Move, n: nat)
    requires MoveReady(mv, n)
  {
    if mv.pick <= 40 then
      if n - 1 < 2 then t == s
      else
        var ids := Operators.Ex2Ids(mv.draws, 0, n - 1).value;
        t == Operators.Relabel(s, map[ids.0 := ids.1, ids.1 := ids.0])
    else if mv.pick <= 70 then
      if n - 1 < 3 then t == s
      else
        var ids := Operators.Ex3Ids(mv.draws, 0, n - 1).value;
        t == Operators.Relabel(s, map[ids.0 := ids.1, ids.1 := ids.2, ids.2 := ids.0])
    else if n == 1 then t == s
    else
      |s| > 0 && Operators.PutInto(s, t, Operators.DrawId(mv.draws[0], 0, n - 1), mv.draws[1] % |s|, mv.draws[2..])
  }

  /** A call of a well-formed solution occurs at two positions. */
  lemma OccursTwice(s: Solution, n: nat, x: int)
    requires Paired(s, n) && 0 <= x < n
    ensures Operators.AtLeastTwice(s, x)
  {
    Operators.PairedIdsOccurTwice(s, n, x);
    Operators.TwiceEnds(s, x);
  }

  /** On a well-formed solution with `n` calls the span is `n - 1`, and
      `ex2` is defined whenever the draws yield two ids. */
  lemma Ex2Ready(s: Solution, n: nat, draws: seq<nat>)
    requires Paired(s, n) && 1 <= n <= INT_MAX
    requires n - 1 >= 2 ==> Operators.Ex2Ids(draws, 0, n - 1).Some?
    ensures Operators.MinMax(s) == (0, n - 1) && Operators.Ex2Defined(s, draws)
  {
    Operators.PairedMinMax(s, n);
    var m := Operators.MinMax(s);
    if m.1 - m.0 >= 2 {
      var ids := Operators.Ex2Ids(draws, m.0, m.1);
      OccursTwice(s, n, ids.value.0);
      OccursTwice(s, n, ids.value.1);
    }
  }

  /** The same for `ex3` and three ids. */
  lemma Ex3Ready(s: Solution, n: nat, draws: seq<nat>)
    requires Paired(s, n) && 1 <= n <= INT_MAX
    requires n - 1 >= 3 ==> Operators.Ex3Ids(draws, 0, n - 1).Some?
    ensures Operators.MinMax(s) == (0, n - 1) && Operators.Ex3Defined(s, draws)
  {
    Operators.PairedMinMax(s, n);
    var m := Operators.MinMax(s);
    if m.1 - m.0 >= 3 {
      var ids := Operators.Ex3Ids(draws, m.0, m.1);
      OccursTwice(s, n, ids.value.0);
      OccursTwice(s, n, ids.value.1);
      OccursTwice(s, n, ids.value.2);
    }
  }

  /** And for `ins1`, which needs up to four draws. */
  lemma Ins1Ready(s: Solution, n: nat, draws: seq<nat>)
    requires Paired(s, n) && 1 <= n <= INT_MAX && 4 <= |draws|
    ensures Operators.MinMax(s) == (0, n - 1) && Operators.Ins1Defined(s, draws)
  {
    Operators.PairedMinMax(s, n);
  }

  /** What `ex2` promises, read as a move: the solution stays well formed. */
  lemma Ex2Applied(s: Solution, t: Solution, mv: Move, n: nat)
    requires Paired(s, n) && n <= INT_MAX && MoveReady(mv, n) && mv.pick <= 40
    requires Operators.MinMax(s) == (0, n - 1)
    requires var m := Operators.MinMax(s); m.1 - m.0 < 2 ==> t == s
    requires var m := Operators.MinMax(s); m.1 - m.0 >= 2 ==>
               var ids := Operators.Ex2Ids(mv.draws, m.0, m.1).value;
               Operators.SwappedEnds(s, t, ids.0, ids.1)
    ensures Applied(s, t, mv, n) && Paired(t, n)
  {
    var m := Operators.MinMax(s);
    if m.1 - m.0 >= 2 {
      var ids := Operators.Ex2Ids(mv.draws, m.0, m.1).value;
      Operators.Ex2KeepsPaired(s, t, n, ids.0, ids.1);
    }
  }

  /** What `ex3` promises, read as a move. */
  lemma Ex3Applied(s: Solution, t: Solution, mv: Move, n: nat)
    requires Paired(s, n) && n <= INT_MAX && MoveReady(mv, n) && 40 < mv.pick <= 70
    requires Operators.MinMax(s) == (0, n - 1)
    requires var m := Operators.MinMax(s); m.1 - m.0 < 3 ==> t == s
    requires var m := Operators.MinMax(s); m.1 - m.0 >= 3 ==>
               var ids := Operators.Ex3Ids(mv.draws, m.0, m.1).value;
               Operators.RotatedEnds(s, t, ids.0, ids.1, ids.2)
    ensures Applied(s, t, mv, n) && Paired(t, n)
  {
    var m := Operators.MinMax(s);
    if m.1 - m.0 >= 3 {
      var ids := Operators.Ex3Ids(mv.draws, m.0, m.1).value;
      Operators.Ex3KeepsPaired(s, t, n, ids.0, ids.1, ids.2);
    }
  }

  /** The operator choice of the loop body: `ran() % 100 * 0.01f` against
      `0.4f` and `0.4f + 0.3f`, which is `pick <= 40` and `pick <= 70`. */
  method Neighbour(s: Solution, mv: Move, n: nat) returns (t: Solution)
    requires Paired(s, n) && n <= INT_MAX && MoveReady(mv, n)
    ensures Applied(s, t, mv, n) && Paired(t, n)
  {
    if mv.pick <= 40 {
      Ex2Ready(s, n, mv.draws);
      t := Operators.Ex2(s, mv.draws);
      Ex2Applied(s, t, mv, n);
    } else if mv.pick <= 70 {
      Ex3Ready(s, n, mv.draws);
      t := Operators.Ex3(s, mv.draws);
      Ex3Applied(s, t, mv, n);
    } else {
      Ins1Ready(s, n, mv.draws);
      t := Operators.Ins1(s, mv.draws);
      if n > 1 {
        var a := Operators.DrawId(mv.draws[0], 0, n - 1);
        Operators.Ins1KeepsPaired(s, t, n, a, mv.draws[1] % |s|);
      }
    }
  }

  /** Every candidate is the chosen move applied to the best solution kept
      before it was tried. */
  ghost predicate FollowsMoves(p: Problem, init: Solution, c0: int, cands: seq<Solution>, moves: seq<Move>, n: nat)
    requires ValidProblem(p) && AllValid(p, cands) && |cands| <= |moves|
    requires forall i :: 0 <= i < |moves| ==> MoveReady(moves[i], n)
  {
    forall i :: 0 <= i < |cands| ==> Applied(Improve(p, init, c0, cands[..i]).0, cands[i], moves[i], n)
  }

  /** A further candidate made by the next move keeps the trail. */
  lemma FollowsMovesStep(p: Problem, init: Solution, c0: int, cands: seq<Solution>, cand: Solution,
                         moves: seq<Move>, n: nat, prev: Solution, k: nat)
    requires ValidProblem(p) && AllValid(p, cands) && AllValid(p, cands + [cand]) && k == |cands| < |moves|
    requires forall i :: 0 <= i < |moves| ==> MoveReady(moves[i], n)
    requires FollowsMoves(p, init, c0, cands, moves, n)
    requires prev == Improve(p, init, c0, cands).0 && Applied(prev, cand, moves[k], n)
    ensures FollowsMoves(p, init, c0, cands + [cand], moves, n)
  {
    var next := cands + [cand];
    forall i | 0 <= i < |next|
      ensures Applied(Improve(p, init, c0, next[..i]).0, next[i], moves[i], n)
    {
      if i < |cands| {
        assert next[..i] == cands[..i];
      } else {
        assert next[..i] == cands;
      }
    }
  }

  /** One round of the local search keeps the fold and the trail. */
  lemma LocalRound(p: Problem, init: Solution, c0: int, before: seq<Solution>, current: Solution,
                   after: seq<Solution>, moves: seq<Move>, n: nat, kept: (Solution, int), next: (Solution, int), k: nat)
    requires ValidProblem(p) && AllValid(p, before) && Cost.ValidRoutes(p, current) && after == before + [current]
    requires k == |before| < |moves| && forall i :: 0 <= i < |moves| ==> MoveReady(moves[i], n)
    requires kept == Improve(p, init, c0, before)
    requires FollowsMoves(p, init, c0, before, moves, n)
    requires Applied(kept.0, current, moves[k], n)
    requires Improves(p, current, kept.1) ==> next == (current, Tracked(p, current))
    requires !Improves(p, current, kept.1) ==> next == kept
    ensures |after| == k + 1 && AllValid(p, after)
    ensures next == Improve(p, init, c0, after)
    ensures FollowsMoves(p, init, c0, after, moves, n)
  {
    var cands := after;
    PrefixOfAppend(before, current);
    ImproveStep(p, init, c0, cands, k, kept, next);
    FollowsMovesStep(p, init, c0, before, current, moves, n, kept.0, k);
  }

  /** The solution kept after a round is one of two well-formed ones. */
  lemma EitherPaired(a: Solution, b: Solution, c: Solution, n: nat)
    requires Paired(a, n) && Paired(b, n) && (c == a || c == b)
    ensures Paired(c, n)
  {
    if c == a {
      assert Paired(a, n);
    }
  }

  /** The body of the `localSearch` loop: the chosen operator applied to the
      best solution, then the acceptance test. `init`, `c0` and `cands` are
      the search so far: the pair `(best, cost)` is the fold of the
      candidates tried, each made by its move. */
  method LocalStep(p: Problem, moves: seq<Move>, i: nat, best: Solution, cost: int,
                   ghost init: Solution, ghost c0: int, ghost cands: seq<Solution>)
    returns (best': Solution, cost': int, ghost cands': seq<Solution>)
    requires ValidProblem(p) && |p.calls| <= INT_MAX && i == |cands| < |moves|
    requires forall j :: 0 <= j < |moves| ==> MoveReady(moves[j], |p.calls|)
    requires AllValid(p, cands) && (best, cost) == Improve(p, init, c0, cands)
    requires Paired(best, |p.calls|) && FollowsMoves(p, init, c0, cands, moves, |p.calls|)
    ensures |cands'| == i + 1 && cands'[..i] == cands
    ensures AllValid(p, cands') && (best', cost') == Improve(p, init, c0, cands')
    ensures Paired(best', |p.calls|) && FollowsMoves(p, init, c0, cands', moves, |p.calls|)
  {
    var n := |p.calls|;
    var current := Neighbour(best, moves[i], n);
    PairedValid(p, current);
    best', cost' := Consider(p, best, cost, current);
    EitherPaired(best, current, best', n);
    cands' := cands + [current];
    LocalRound(p, init, c0, cands, current, cands', moves, n, (best, cost), (best', cost'), i);
  }

  /** `localSearch`: from the initial solution, `MAX_SEARCH` times apply the
      chosen operator to the best solution so far and keep the candidate
      when it improves on it. `cands` are the candidates in the order tried. */
  method LocalSearch(p: Problem, moves: seq<Move>) returns (best: Solution, ghost cands: seq<Solution>)
    requires ValidProblem(p) && |p.calls| <= INT_MAX && |moves| == MAX_SEARCH
    requires forall i :: 0 <= i < |moves| ==> MoveReady(moves[i], |p.calls|)
    ensures var init := InitialSolution(|p.vehicles|, |p.calls|);
            && |cands| == MAX_SEARCH && Cost.ValidRoutes(p, init) && AllValid(p, cands)
            && best == Improve(p, init, Tracked(p, init), cands).0
            && FollowsMoves(p, init, Tracked(p, init), cands, moves, |p.calls|)
    ensures Paired(best, |p.calls|)
  {
    var n := |p.calls|;
    best := GenInitialSolution(p);
    ghost var init := best;
    InitialPaired(|p.vehicles|, n);
    InitialValid(p);
    var c := Cost.GetCost(p, best);
    var cost := ValOrMax(c);
    ghost var c0 := cost;
    cands := [];
    for i := 0 to MAX_SEARCH
      invariant |cands| == i && AllValid(p, cands)
      invariant (best, cost) == Improve(p, init, c0, cands)
      invariant Paired(best, n)
      invariant FollowsMoves(p, init, c0, cands, moves, n)
    {
      best, cost, cands := LocalStep(p, moves, i, best, cost, init, c0, cands);
    }
  }

  /// What the searches guarantee

  /** Both searches end on the initial solution or on a feasible candidate
      whose nonzero cost is strictly below that of the initial solution. */
  lemma SearchOutcome(p: Problem, cands: seq<Solution>)
    requires ValidProblem(p) && AllValid(p, cands)
    ensures var init := InitialSolution(|p.vehicles|, |p.calls|);
            Cost.ValidRoutes(p, init) &&
            var r := Improve(p, init, Tracked(p, init), cands);
            || r.0 == init
            || (&& Feasibility.Feasibility(p, r.0) == None
                && (exists i :: 0 <= i < |cands| && r.0 == cands[i] && 0 != Tracked(p, cands[i]) < Tracked(p, init)))
  {
    var init := InitialSolution(|p.vehicles|, |p.calls|);
    InitialCost(p);
    ImproveOutcome(p, init, Tracked(p, init), cands);
  }
}
