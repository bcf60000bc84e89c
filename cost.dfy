/** The cost evaluator. A vehicle route costs the trip to each stop plus the
    handling cost there: a first visit of a call is its pickup at the call's
    origin, the next one its delivery at its destination. A route at or
    beyond the vehicle count (the sink) costs the outsourcing penalty of each
    distinct call on it. Capacity, time windows and permissions play no part;
    only a missing trip or handling record makes the evaluation fail. */
module Cost {
  import opened Instance
  import opened Solutions

  /** Every route holds only ids of calls of the instance. */
  ghost predicate ValidRoutes(p: Problem, s: Solution) {
    forall r :: 0 <= r < |s| ==> ValidIds(p, s[r])
  }

  /** `c` added to a cost, an error passed on unchanged. */
  function AddTo(c: int, r: Result<int, Failure>): (q: Result<int, Failure>)
    ensures q.Val? <==> r.Val?
    ensures q.Val? ==> q.value == c + r.value
    ensures q.Err? ==> q.error == r.error
  {
    match r
    case Val(v) => Val(c + v)
    case Err(f) => Err(f)
  }

  /// Vehicle routes

  /** One stop of vehicle `i` at `node`: the trip to the origin of call `x` on
      a pickup or to its destination on a delivery, and the handling cost
      there. The result is (cost of the stop, node after it). */
  function VisitCost(p: Problem, i: nat, x: int, pickup: bool, node: int): (r: Result<(int, int), Failure>)
    requires 0 <= x < |p.calls|
    ensures var target := if pickup then p.calls[x].origin else p.calls[x].destination;
            var trip := FindTrip(p.trips, i, node, target as int);
            && (r == Err(NoRoutePath) <==> trip.None?)
            && (r == Err(NoVehicleCallCombo) <==> trip.Some? && (i, x) !in p.vehicleCalls)
            && (r.Val? ==>
                  var vc := p.vehicleCalls[(i, x)];
                  && r.value.0 == trip.value.cost + (if pickup then vc.originNodeCosts else vc.destNodeCosts)
                  && r.value.1 == target as int)
  {
    var call := p.calls[x];
    var target := if pickup then call.origin else call.destination;
    match FindTrip(p.trips, i, node, target as int)
    case None => Err(NoRoutePath)
    case Some(t) =>
      if (i, x) !in p.vehicleCalls then Err(NoVehicleCallCombo)
      else
        var vc := p.vehicleCalls[(i, x)];
        Val((t.cost + (if pickup then vc.originNodeCosts else vc.destNodeCosts), t.destination as int))
  }

  /** `total` plus the cost of the visits `k ..` of a vehicle route from
      `node` with the calls `open` picked up and not yet delivered. */
  function RouteCostRun(p: Problem, i: nat, route: Route, k: nat, node: int, open: seq<int>, total: int): Result<int, Failure>
    requires ValidIds(p, route) && k <= |route|
    decreases |route| - k
  {
    if k == |route| then Val(total)
    else
      var x := route[k];
      match VisitCost(p, i, x, x !in open, node)
      case Err(f) => Err(f)
      case Val(step) => RouteCostRun(p, i, route, k + 1, step.1, Toggle(open, x), total + step.0)
  }

  /// The sink

  /** The outsourcing penalty of every call in `ids`, each counted once. */
  ghost function PenaltySum(p: Problem, ids: set<int>): int
    requires forall x :: x in ids ==> 0 <= x < |p.calls|
    decreases |ids|
  {
    if ids == {} then 0
    else
      EmptyOrMember(ids);
      var x :| x in ids;
      p.calls[x].costOfNotTransporting + PenaltySum(p, ids - {x})
  }

  /** The distinct ids of a route. */
  function Distinct(route: Route): set<int> {
    set x | x in route
  }

  /// Routes and solutions

  /** The contribution of route `i`. */
  ghost function RouteCost(p: Problem, i: nat, route: Route): Result<int, Failure>
    requires ValidIds(p, route)
  {
    if i < |p.vehicles| then
      RouteCostRun(p, i, route, 0, p.vehicles[i].homeNodeIndex as int, [], 0)
    else
      Val(PenaltySum(p, Distinct(route)))
  }

  /** The total cost of `routes`, the routes with indices `i, i + 1, ...`:
      the sum of their contributions, or the first error met. */
  ghost function CostFrom(p: Problem, routes: Solution, i: nat): Result<int, Failure>
    requires ValidRoutes(p, routes)
    decreases |routes|
  {
    if routes == [] then Val(0)
    else
      assert ValidRoutes(p, routes[1..]) by {
        assert forall r :: 0 <= r < |routes| - 1 ==> routes[1..][r] == routes[r + 1];
      }
      match RouteCost(p, i, routes[0])
      case Err(f) => Err(f)
      case Val(c) => AddTo(c, CostFrom(p, routes[1..], i + 1))
  }

  /** One step of `CostFrom`: the first route, then the rest. */
  lemma CostFromStep(p: Problem, routes: Solution, i: nat)
    requires ValidRoutes(p, routes) && routes != []
    ensures ValidRoutes(p, routes[1..])
    ensures CostFrom(p, routes, i) == Then(RouteCost(p, i, routes[0]), CostFrom(p, routes[1..], i + 1))
  {
    assert forall r :: 0 <= r < |routes| - 1 ==> routes[1..][r] == routes[r + 1];
  }

  /** `getCost` on a nested solution. */
  ghost function Cost(p: Problem, s: Solution): Result<int, Failure>
    requires ValidRoutes(p, s)
  {
    CostFrom(p, s, 0)
  }

  /// The evaluator as the source runs it

  /** One stop of a vehicle route: the trip there (`findPath`) and the
      handling record of the call for the vehicle, in the order the source
      looks them up. */
  method Stop(p: Problem, i: nat, callIndex: int, pickup: bool, currentNode: int) returns (r: Result<(int, int), Failure>)
    requires 0 <= callIndex < |p.calls|
    ensures r == VisitCost(p, i, callIndex, pickup, currentNode)
  {
    var call := p.calls[callIndex];
    var path := FindTrip(p.trips, i, currentNode, (if pickup then call.origin else call.destination) as int);
    if path.None? {
      return Err(NoRoutePath);
    }
    if (i, callIndex) !in p.vehicleCalls {
      return Err(NoVehicleCallCombo);
    }
    var vehicleCall := p.vehicleCalls[(i, callIndex)];
    var handling := if pickup then vehicleCall.originNodeCosts else vehicleCall.destNodeCosts;
    return Val((path.value.cost + handling, path.value.destination as int));
  }

  /** The cost of one vehicle route. */
  method VehicleRouteCost(p: Problem, i: nat, route: Route) returns (r: Result<int, Failure>)
    requires i < |p.vehicles| && ValidIds(p, route)
    ensures r == RouteCostRun(p, i, route, 0, p.vehicles[i].homeNodeIndex as int, [], 0)
  {
    var totalCost := 0;
    var currentCalls: seq<int> := [];
    var currentNode := p.vehicles[i].homeNodeIndex as int;
    var k := 0;
    while k < |route|
      invariant 0 <= k <= |route|
      invariant RouteCostRun(p, i, route, 0, p.vehicles[i].homeNodeIndex as int, [], 0)
                == RouteCostRun(p, i, route, k, currentNode, currentCalls, totalCost)
    {
      var failure;
      failure, currentNode, currentCalls, totalCost := RouteStop(p, i, route, k, currentNode, currentCalls, totalCost);
      if failure.Some? {
        return Err(failure.value);
      }
      k := k + 1;
    }
    return Val(totalCost);
  }

  /** The body of the route loop: the stop for call `route[k]`, a pickup
      when the call is not on board; on success the call is toggled, the
      node moves and the cost is added. */
  method RouteStop(p: Problem, i: nat, route: Route, k: nat, currentNode: int, currentCalls: seq<int>, totalCost: int)
    returns (failure: Option<Failure>, node': int, calls': seq<int>, total': int)
    requires ValidIds(p, route) && k < |route|
    ensures failure.Some? ==> RouteCostRun(p, i, route, k, currentNode, currentCalls, totalCost) == Err(failure.value)
    ensures failure.None? ==> RouteCostRun(p, i, route, k, currentNode, currentCalls, totalCost)
                              == RouteCostRun(p, i, route, k + 1, node', calls', total')
  {
    var callIndex := route[k];
    var pickup := callIndex !in currentCalls;
    var stop := Stop(p, i, callIndex, pickup, currentNode);
    if pickup {
      calls' := currentCalls + [callIndex];
    } else {
      calls' := RemoveFirst(currentCalls, callIndex);
    }
    RouteCostStep(p, i, route, k, currentNode, currentCalls, totalCost, stop, calls');
    if stop.Err? {
      return Some(stop.error), currentNode, currentCalls, totalCost;
    }
    failure, node', total' := None, stop.value.1, totalCost + stop.value.0;
  }

  /** One stop of the route loop: an error ends the run, otherwise it goes
      on from the stop's node with the call toggled and its cost added. */
  lemma RouteCostStep(p: Problem, i: nat, route: Route, k: nat, node: int, open: seq<int>, total: int,
                      stop: Result<(int, int), Failure>, open': seq<int>)
    requires ValidIds(p, route) && k < |route|
    requires stop == VisitCost(p, i, route[k], route[k] !in open, node) && open' == Toggle(open, route[k])
    ensures stop.Err? ==> RouteCostRun(p, i, route, k, node, open, total) == Err(stop.error)
    ensures stop.Val? ==> RouteCostRun(p, i, route, k, node, open, total)
                          == RouteCostRun(p, i, route, k + 1, stop.value.1, open', total + stop.value.0)
  {
  }


  /** The penalty of the sink: the route's ids collected in a set, summed in
      whatever order the set yields them. */
  method SinkCost(p: Problem, route: Route) returns (total: int)
    requires ValidIds(p, route)
    ensures total == PenaltySum(p, Distinct(route))
  {
    var ids := Distinct(route);
    total := 0;
    while ids != {}
      invariant ids <= Distinct(route)
      invariant total + PenaltySum(p, ids) == PenaltySum(p, Distinct(route))
      decreases |ids|
    {
      var x :| x in ids;
      PenaltySumRemove(p, ids, x);
      total := total + p.calls[x].costOfNotTransporting;
      ids := ids - {x};
    }
  }

  /** The contribution of route `i`, by the method for its kind. */
  method RouteCostOf(p: Problem, i: nat, route: Route) returns (r: Result<int, Failure>)
    requires ValidIds(p, route)
    ensures r == RouteCost(p, i, route)
  {
    if i < |p.vehicles| {
      r := VehicleRouteCost(p, i, route);
    } else {
      var penalty := SinkCost(p, route);
      r := Val(penalty);
    }
  }

  /** `getCost` for a nested solution. */
  method GetCost(p: Problem, solution: Solution) returns (r: Result<int, Failure>)
    requires ValidRoutes(p, solution)
    ensures r == Cost(p, solution)
  {
    var totalCost := 0;
    var i := 0;
    assert solution[0..] == solution;
    while i < |solution|
      invariant 0 <= i <= |solution|
      invariant ValidRoutes(p, solution[i..])
      invariant Cost(p, solution) == AddTo(totalCost, CostFrom(p, solution[i..], i))
    {
      assert solution[i..][0] == solution[i] && solution[i..][1..] == solution[i + 1..];
      var c := RouteCostOf(p, i, solution[i]);
      if c.Err? {
        return Err(c.error);
      }
      totalCost := totalCost + c.value;
      i := i + 1;
    }
    return Val(totalCost);
  }

  /** One round of the compact loop: cut route `i` at the next separator and
      evaluate it unless it is empty. */
  method CostNextRoute(p: Problem, solution: SolutionComp, routeStart: nat, i: nat, ghost k: nat, ghost ahead: Solution)
    returns (c: Result<int, Failure>, next: nat)
    requires 0 < k && RoutesAhead(solution, routeStart, k, ahead) && ValidRoutes(p, ahead)
    ensures ValidRoutes(p, ahead[1..])
    ensures RoutesAhead(solution, next, k - 1, ahead[1..])
    ensures c.Err? ==> CostFrom(p, ahead, i) == c
    ensures c.Val? ==> CostFrom(p, ahead, i) == AddTo(c.value, CostFrom(p, ahead[1..], i + 1))
  {
    CostFromStep(p, ahead, i);
    var routeSize := SepIndex(solution[routeStart..]);
    next := routeStart + routeSize + 1;
    AheadStep(solution, routeStart, k, ahead, routeSize, next);
    var route := solution[routeStart..routeStart + routeSize];
    assert ValidIds(p, ahead[0]);
    if routeSize == 0 {
      EmptyRouteCostsNothing(p, i);
      assert route == [];
      c := Val(0);
    } else {
      c := RouteCostOf(p, i, route);
    }
  }

  /** One round of the loop of `getCost`, with the running total: a failing
      route ends the evaluation with its error, a passing one adds its cost. */
  method CostRound(p: Problem, solution: SolutionComp, routeStart: nat, i: nat, ghost left: nat, ghost ahead: Solution,
                   totalCost: int, ghost whole: Result<int, Failure>)
    returns (failure: Option<Failure>, next: nat, total': int)
    requires 0 < left && RoutesAhead(solution, routeStart, left, ahead) && ValidRoutes(p, ahead)
    requires whole == AddTo(totalCost, CostFrom(p, ahead, i))
    ensures ValidRoutes(p, ahead[1..]) && RoutesAhead(solution, next, left - 1, ahead[1..])
    ensures failure.Some? ==> whole == Err(failure.value)
    ensures failure.None? ==> whole == AddTo(total', CostFrom(p, ahead[1..], i + 1))
  {
    var c;
    c, next := CostNextRoute(p, solution, routeStart, i, left, ahead);
    FoldStep(whole, totalCost, c, CostFrom(p, ahead, i), CostFrom(p, ahead[1..], i + 1));
    if c.Err? {
      return Some(c.error), next, totalCost;
    }
    return None, next, totalCost + c.value;
  }

  /** `getCost` for a compact solution: route `i` runs from `routeStart` to
      the next separator; the last of the vehicles + 1 routes is the sink. */
  method GetCostComp(p: Problem, solution: SolutionComp) returns (r: Result<int, Failure>)
    requires |p.vehicles| <= SepCount(solution)
    requires ValidRoutes(p, ToNested(solution, |p.vehicles| + 1))
    ensures r == Cost(p, ToNested(solution, |p.vehicles| + 1))
  {
    var count := |p.vehicles| + 1;
    ghost var ahead := ToNested(solution, count);
    ghost var whole := Cost(p, ahead);
    var totalCost := 0;
    var routeStart: nat := 0;
    var i := 0;
    ghost var left := count;
    AheadStart(solution, count);
    FoldStart(p, ahead);
    while i < count
      invariant 0 <= i <= count && left == count - i
      invariant |ahead| == left && RoutesAhead(solution, routeStart, left, ahead)
      invariant ValidRoutes(p, ahead)
      invariant whole == AddTo(totalCost, CostFrom(p, ahead, i))
    {
      var failure;
      failure, routeStart, totalCost := CostRound(p, solution, routeStart, i, left, ahead, totalCost, whole);
      if failure.Some? {
        return Err(failure.value);
      }
      i, left, ahead := i + 1, left - 1, ahead[1..];
    }
    FoldEnd(p, ahead, i, totalCost);
    return Val(totalCost);
  }

  /** The fold of `getCost` starts from a zero total. */
  lemma FoldStart(p: Problem, routes: Solution)
    requires ValidRoutes(p, routes)
    ensures Cost(p, routes) == AddTo(0, CostFrom(p, routes, 0))
  {
  }

  /** Once no route is left, the fold's result is its total. */
  lemma FoldEnd(p: Problem, routes: Solution, i: nat, total: int)
    requires ValidRoutes(p, routes) && |routes| == 0
    ensures AddTo(total, CostFrom(p, routes, i)) == Val(total)
  {
  }

  /** One round of the fold of `getCost`: a failing route ends it with that
      route's error, a passing one moves its cost into the running total. */
  lemma FoldStep(whole: Result<int, Failure>, total: int, c: Result<int, Failure>,
                 here: Result<int, Failure>, rest: Result<int, Failure>)
    requires whole == AddTo(total, here)
    requires c.Err? ==> here == c
    requires c.Val? ==> here == AddTo(c.value, rest)
    ensures c.Err? ==> whole == Err(c.error)
    ensures c.Val? ==> whole == AddTo(total + c.value, rest)
  {
  }

  /// Properties

  /** Taking one id out of a set takes away its penalty, whichever id the
      sum happened to pick first. */
  lemma PenaltySumRemove(p: Problem, ids: set<int>, y: int)
    requires forall x :: x in ids ==> 0 <= x < |p.calls|
    requires y in ids
    ensures PenaltySum(p, ids) == p.calls[y].costOfNotTransporting + PenaltySum(p, ids - {y})
    decreases |ids|
  {
    var x :| x in ids && PenaltySum(p, ids) == p.calls[x].costOfNotTransporting + PenaltySum(p, ids - {x});
    if x != y {
      PenaltySumRemove(p, ids - {x}, y);
      PenaltySumRemove(p, ids - {y}, x);
      assert ids - {x} - {y} == ids - {y} - {x};
    }
  }

  /** An empty route costs nothing, vehicle route or sink. */
  lemma EmptyRouteCostsNothing(p: Problem, i: nat)
    ensures RouteCost(p, i, []) == Val(0)
  {
    assert Distinct([]) == {};
  }

  /** The first of two costs, then the second added to it. */
  function Then(x: Result<int, Failure>, y: Result<int, Failure>): Result<int, Failure> {
    if x.Err? then x else AddTo(x.value, y)
  }

  /** The routes of two runs of routes placed one after the other are valid. */
  lemma ValidRoutesConcat(p: Problem, a: Solution, b: Solution)
    requires ValidRoutes(p, a) && ValidRoutes(p, b)
    ensures ValidRoutes(p, a + b)
  {
    forall r | 0 <= r < |a + b|
      ensures ValidIds(p, (a + b)[r])
    {
      if r < |a| {
        assert (a + b)[r] == a[r];
      } else {
        assert (a + b)[r] == b[r - |a|];
      }
    }
  }

  /** The total is summed route by route: the cost of two runs of routes
      one after the other is the cost of the first plus that of the second,
      and an error in the first is reported before anything in the second. */
  lemma {:induction false} CostOfConcat(p: Problem, a: Solution, b: Solution, i: nat)
    requires ValidRoutes(p, a) && ValidRoutes(p, b)
    ensures ValidRoutes(p, a + b)
    ensures CostFrom(p, a + b, i) == Then(CostFrom(p, a, i), CostFrom(p, b, i + |a|))
    decreases |a|
  {
    ValidRoutesConcat(p, a, b);
    if a == [] {
      assert a + b == b;
    } else {
      var ab, rest, j := a + b, a[1..], i + 1;
      CostFromStep(p, a, i);
      CostFromStep(p, ab, i);
      assert ab[0] == a[0] && ab[1..] == rest + b;
      CostOfConcat(p, rest, b, j);
      assert j + |rest| == i + |a|;
      ThenAssoc(RouteCost(p, i, a[0]), CostFrom(p, rest, j), CostFrom(p, b, i + |a|));
    }
  }

  /** Failing first, then adding up, groups either way. */
  lemma ThenAssoc(x: Result<int, Failure>, y: Result<int, Failure>, z: Result<int, Failure>)
    ensures Then(Then(x, y), z) == Then(x, Then(y, z))
  {
  }

  /** A failing route makes the whole evaluation fail: route `j`, the
      `k`-th of the solution. */
  lemma {:induction false} RouteFailureFailsCost(p: Problem, routes: Solution, i: nat, j: nat, k: nat)
    requires ValidRoutes(p, routes) && j < |routes| && k == i + j
    requires RouteCost(p, k, routes[j]).Err?
    ensures CostFrom(p, routes, i).Err?
    decreases j
  {
    CostFromStep(p, routes, i);
    if j > 0 && RouteCost(p, i, routes[0]).Val? {
      assert routes[1..][j - 1] == routes[j];
      RouteFailureFailsCost(p, routes[1..], i + 1, j - 1, k);
    }
  }

  /** The evaluation fails only through a failing route: route `j`, the
      `k`-th of the solution. */
  lemma {:induction false} CostFailureHasFailingRoute(p: Problem, routes: Solution, i: nat) returns (j: nat, k: nat)
    requires ValidRoutes(p, routes) && CostFrom(p, routes, i).Err?
    ensures j < |routes| && k == i + j && RouteCost(p, k, routes[j]).Err?
    decreases |routes|, 1
  {
    if RouteCost(p, i, routes[0]).Err? {
      j, k := 0, i;
    } else {
      j, k := FailureInRest(p, routes, i);
    }
  }

  /** A failing evaluation whose first route passes fails in the rest. */
  lemma {:induction false} FailureInRest(p: Problem, routes: Solution, i: nat) returns (j: nat, k: nat)
    requires ValidRoutes(p, routes) && routes != [] && RouteCost(p, i, routes[0]).Val?
    requires CostFrom(p, routes, i).Err?
    ensures 0 < j < |routes| && k == i + j && RouteCost(p, k, routes[j]).Err?
    decreases |routes|, 0
  {
    CostFromStep(p, routes, i);
    var j' := 0;
    j', k := CostFailureHasFailingRoute(p, routes[1..], i + 1);
    j := j' + 1;
    assert routes[1..][j'] == routes[j];
  }

  /** The evaluation fails exactly when some route fails. */
  lemma CostFailsIffSomeRouteFails(p: Problem, routes: Solution, i: nat)
    requires ValidRoutes(p, routes)
    ensures CostFrom(p, routes, i).Err?
            <==> exists j :: 0 <= j < |routes| && RouteCost(p, i + j, routes[j]).Err?
  {
    if CostFrom(p, routes, i).Err? {
      var j, k := CostFailureHasFailingRoute(p, routes, i);
      assert RouteCost(p, i + j, routes[j]).Err?;
    }
    forall j | 0 <= j < |routes| && RouteCost(p, i + j, routes[j]).Err?
      ensures CostFrom(p, routes, i).Err?
    {
      RouteFailureFailsCost(p, routes, i, j, i + j);
    }
  }

  /** The error reported is that of the first route that fails: route `j`,
      the `k`-th of the solution. */
  lemma {:induction false} CostReportsFirstFailure(p: Problem, routes: Solution, i: nat, j: nat, k: nat)
    requires ValidRoutes(p, routes) && j < |routes| && k == i + j
    requires RouteCost(p, k, routes[j]).Err? && PassBefore(p, routes, i, j)
    ensures CostFrom(p, routes, i) == RouteCost(p, k, routes[j])
    decreases j
  {
    CostFromStep(p, routes, i);
    if j > 0 {
      PassingShift(p, routes, i, j);
      assert routes[1..][j - 1] == routes[j];
      CostReportsFirstFailure(p, routes[1..], i + 1, j - 1, k);
    }
  }

  /** The first `j` of `routes`, the first being route `i`, pass. */
  ghost predicate PassBefore(p: Problem, routes: Solution, i: nat, j: nat)
    requires ValidRoutes(p, routes) && j <= |routes|
  {
    forall n :: 0 <= n < j ==> RouteCost(p, i + n, routes[n]).Val?
  }

  /** The first `j` routes passing means the first route passes and the
      first `j - 1` of the rest do. */
  lemma PassingShift(p: Problem, routes: Solution, i: nat, j: nat)
    requires ValidRoutes(p, routes) && 0 < j < |routes| && PassBefore(p, routes, i, j)
    ensures ValidRoutes(p, routes[1..]) && RouteCost(p, i, routes[0]).Val?
    ensures PassBefore(p, routes[1..], i + 1, j - 1)
  {
    assert forall r :: 0 <= r < |routes| - 1 ==> routes[1..][r] == routes[r + 1];
    assert RouteCost(p, i + 0, routes[0]).Val?;
    forall n | 0 <= n < j - 1
      ensures RouteCost(p, i + 1 + n, routes[1..][n]).Val?
    {
      assert RouteCost(p, i + (n + 1), routes[n + 1]).Val?;
    }
  }

  /** Only a missing trip or a missing handling record makes a vehicle route
      fail. */
  lemma {:induction false} RouteFailureKinds(p: Problem, i: nat, route: Route, k: nat, node: int, open: seq<int>, total: int)
    requires ValidIds(p, route) && k <= |route|
    ensures var r := RouteCostRun(p, i, route, k, node, open, total);
            r.Err? ==> r.error == NoRoutePath || r.error == NoVehicleCallCombo
    decreases |route| - k
  {
    if k < |route| {
      var x := route[k];
      var v := VisitCost(p, i, x, x !in open, node);
      RouteCostStep(p, i, route, k, node, open, total, v, Toggle(open, x));
      if v.Val? {
        RouteFailureKinds(p, i, route, k + 1, v.value.1, Toggle(open, x), total + v.value.0);
      }
    }
  }

  /** Capacity, time windows and permissions never make the evaluation
      fail: the only errors are a missing trip and a missing handling record. */
  lemma {:induction false} CostFailureKinds(p: Problem, routes: Solution, i: nat)
    requires ValidRoutes(p, routes)
    ensures var r := CostFrom(p, routes, i);
            r.Err? ==> r.error == NoRoutePath || r.error == NoVehicleCallCombo
    decreases |routes|
  {
    if routes != [] {
      assert forall r :: 0 <= r < |routes| - 1 ==> routes[1..][r] == routes[r + 1];
      if i < |p.vehicles| {
        RouteFailureKinds(p, i, routes[0], 0, p.vehicles[i].homeNodeIndex as int, [], 0);
      }
      CostFailureKinds(p, routes[1..], i + 1);
    }
  }

  /** Two instances that differ at most in capacities, starting times,
      permissions, call sizes and time windows. */
  ghost predicate SameCostData(p: Problem, q: Problem) {
    && |p.vehicles| == |q.vehicles|
    && (forall v :: 0 <= v < |p.vehicles| ==> p.vehicles[v].homeNodeIndex == q.vehicles[v].homeNodeIndex)
    && |p.calls| == |q.calls|
    && (forall c :: 0 <= c < |p.calls| ==>
          && p.calls[c].origin == q.calls[c].origin
          && p.calls[c].destination == q.calls[c].destination
          && p.calls[c].costOfNotTransporting == q.calls[c].costOfNotTransporting)
    && p.trips == q.trips
    && p.vehicleCalls == q.vehicleCalls
  }

  lemma {:induction false} RouteCostRunSame(p: Problem, q: Problem, i: nat, route: Route, k: nat, node: int, open: seq<int>, total: int)
    requires SameCostData(p, q) && ValidIds(p, route) && k <= |route|
    ensures ValidIds(q, route)
    ensures RouteCostRun(p, i, route, k, node, open, total) == RouteCostRun(q, i, route, k, node, open, total)
    decreases |route| - k
  {
    if k < |route| {
      var x := route[k];
      var v := VisitCost(p, i, x, x !in open, node);
      VisitCostSame(p, q, i, x, x !in open, node);
      if v.Val? {
        RouteCostRunSame(p, q, i, route, k + 1, v.value.1, Toggle(open, x), total + v.value.0);
      }
    }
  }

  /** One stop costs the same in both instances. */
  lemma VisitCostSame(p: Problem, q: Problem, i: nat, x: int, pickup: bool, node: int)
    requires SameCostData(p, q) && 0 <= x < |p.calls|
    ensures VisitCost(p, i, x, pickup, node) == VisitCost(q, i, x, pickup, node)
  {
  }

  lemma {:induction false} PenaltySumSame(p: Problem, q: Problem, ids: set<int>)
    requires SameCostData(p, q) && forall x :: x in ids ==> 0 <= x < |p.calls|
    ensures PenaltySum(p, ids) == PenaltySum(q, ids)
    decreases |ids|
  {
    if ids != {} {
      EmptyOrMember(ids);
      var y :| y in ids;
      PenaltySumRemove(p, ids, y);
      PenaltySumRemove(q, ids, y);
      PenaltySumSame(p, q, ids - {y});
    }
  }

  /** Capacity, starting times, permissions, sizes and time windows never
      change the cost. */
  lemma {:induction false} CostIgnoresWindowsAndCapacity(p: Problem, q: Problem, routes: Solution, i: nat)
    requires SameCostData(p, q) && ValidRoutes(p, routes)
    ensures ValidRoutes(q, routes)
    ensures CostFrom(p, routes, i) == CostFrom(q, routes, i)
    decreases |routes|
  {
    if routes != [] {
      assert forall r :: 0 <= r < |routes| - 1 ==> routes[1..][r] == routes[r + 1];
      if i < |p.vehicles| {
        RouteCostRunSame(p, q, i, routes[0], 0, p.vehicles[i].homeNodeIndex as int, [], 0);
      } else {
        PenaltySumSame(p, q, Distinct(routes[0]));
      }
      CostIgnoresWindowsAndCapacity(p, q, routes[1..], i + 1);
    }
  }

  /** The penalties of a list of ids, counted with repetition. */
  function ListPenalty(p: Problem, route: Route): int
    requires ValidIds(p, route)
  {
    if route == [] then 0 else p.calls[route[0]].costOfNotTransporting + ListPenalty(p, route[1..])
  }

  /** On a route without repeated ids the sink penalty is the plain sum over
      the route; repetitions and order do not matter, since only the set of
      ids enters. */
  lemma {:induction false} SinkPenaltyOfDistinctIds(p: Problem, route: Route)
    requires ValidIds(p, route)
    requires forall j, k :: 0 <= j < k < |route| ==> route[j] != route[k]
    ensures PenaltySum(p, Distinct(route)) == ListPenalty(p, route)
    decreases |route|
  {
    if route != [] {
      var rest := route[1..];
      assert forall j, k :: 0 <= j < k < |rest| ==> rest[j] != rest[k] by {
        forall j, k | 0 <= j < k < |rest|
          ensures rest[j] != rest[k]
        {
          assert rest[j] == route[j + 1] && rest[k] == route[k + 1];
        }
      }
      SinkPenaltyOfDistinctIds(p, rest);
      assert Distinct(route) - {route[0]} == Distinct(rest) by {
        forall x
          ensures x in Distinct(route) - {route[0]} <==> x in Distinct(rest)
        {
          if x in rest {
            var k :| 0 <= k < |rest| && rest[k] == x;
            assert route[k + 1] == x;
          }
          if x in route && x != route[0] {
            var k :| 0 <= k < |route| && route[k] == x;
            assert rest[k - 1] == x;
          }
        }
      }
      PenaltySumRemove(p, Distinct(route), route[0]);
    }
  }

  /** A vehicle route carrying a single call costs the trip to its origin,
      the handling there, the trip to its destination and the handling there;
      a missing trip or handling record is reported instead. */
  lemma SingleCallRouteCost(p: Problem, i: nat, c: nat)
    requires i < |p.vehicles| && c < |p.calls|
    ensures ValidIds(p, [c, c])
    ensures var call := p.calls[c];
            var toOrigin := FindTrip(p.trips, i, p.vehicles[i].homeNodeIndex as int, call.origin as int);
            var toDest := FindTrip(p.trips, i, call.origin as int, call.destination as int);
            var r := RouteCost(p, i, [c, c]);
            && (toOrigin.None? ==> r == Err(NoRoutePath))
            && (toOrigin.Some? && (i, c) !in p.vehicleCalls ==> r == Err(NoVehicleCallCombo))
            && (toOrigin.Some? && (i, c) in p.vehicleCalls && toDest.None? ==> r == Err(NoRoutePath))
            && (toOrigin.Some? && (i, c) in p.vehicleCalls && toDest.Some? ==>
                  var vc := p.vehicleCalls[(i, c)];
                  r == Val(toOrigin.value.cost + vc.originNodeCosts + toDest.value.cost + vc.destNodeCosts))
  {
    var route := [c, c];
    var home := p.vehicles[i].homeNodeIndex as int;
    var first := VisitCost(p, i, c, true, home);
    assert route[0] == c && route[1] == c && c !in [] && Toggle([], c) == [c];
    assert RouteCost(p, i, route)
           == if first.Err? then Err(first.error) else RouteCostRun(p, i, route, 1, first.value.1, [c], first.value.0);
    if first.Val? {
      var second := VisitCost(p, i, c, false, first.value.1);
      assert c in [c] && Toggle([c], c) == [];
      assert RouteCostRun(p, i, route, 1, first.value.1, [c], first.value.0)
             == if second.Err? then Err(second.error) else Val(first.value.0 + second.value.0);
      assert first.value.1 == p.calls[c].origin as int;
    }
  }
}
