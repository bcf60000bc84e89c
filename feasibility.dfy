/** The feasibility checker. Each vehicle route goes through three passes:
    permission of every call, the load against the capacity, and a
    simulation of travel and handling times against the time windows. The
    first violation found is returned; routes at or beyond the vehicle count
    (the sink) are never checked. */
module Feasibility {
  import opened Instance
  import opened Solutions

  lemma AllPermittedValid(p: Problem, i: nat, route: Route)
    requires ValidProblem(p) && i < |p.vehicles|
    requires forall k :: 0 <= k < |route| ==> Permitted(p.vehicles[i], route[k])
    ensures ValidIds(p, route)
  {
    forall k | 0 <= k < |route|
      ensures 0 <= route[k] < |p.calls|
    {
      PermittedIsValid(p, i, route[k]);
    }
  }

  /// Pass 1: permission

  /** Index of the first call at or after `from` that the vehicle may not carry. */
  function FirstNotPermittedFrom(v: Vehicle, route: Route, from: nat): (r: Option<nat>)
    requires from <= |route|
    ensures r.Some? ==> from <= r.value < |route| && !Permitted(v, route[r.value])
    ensures r.Some? ==> forall j :: from <= j < r.value ==> Permitted(v, route[j])
    ensures r.None? ==> forall j :: from <= j < |route| ==> Permitted(v, route[j])
    decreases |route| - from
  {
    if from == |route| then None
    else if !Permitted(v, route[from]) then Some(from)
    else FirstNotPermittedFrom(v, route, from + 1)
  }

  /// Pass 2: load

  /** The load pass over the visits `k ..` of `route`, starting from `load`
      with the calls `open` on board. The load is compared after each visit
      and clamped at zero. */
  function CapacityRun(p: Problem, i: nat, route: Route, k: nat, load: int, open: seq<int>): Option<Failure>
    requires i < |p.vehicles| && ValidIds(p, route) && k <= |route|
    decreases |route| - k
  {
    if k == |route| then None
    else
      var x := route[k];
      var size := p.calls[x].size;
      var next := if x in open then load - size else load + size;
      if p.vehicles[i].capacity < next then Some(ExceedsCapacity(i))
      else CapacityRun(p, i, route, k + 1, if next < 0 then 0 else next, Toggle(open, x))
  }

  /// Pass 3: time windows

  /** One stop of the simulation: drive to the origin of call `x` on a pickup,
      to its destination on a delivery, check the window's upper bound, wait
      for the delivery window's lower bound (on a pickup too) and handle the
      call. The result is the new (time, node). */
  function Visit(p: Problem, i: nat, x: int, pickup: bool, time: int, node: int): (r: Result<(int, int), Failure>)
    requires 0 <= x < |p.calls|
    ensures var call := p.calls[x];
            var target := if pickup then call.origin else call.destination;
            var trip := FindTrip(p.trips, i, node, target as int);
            && (trip.None? <==> r == Err(NoRoutePath))
            && (trip.Some? ==>
                  var arrival := time + trip.value.time;
                  var upper := if pickup then call.upperTimewindowPickup else call.upperTimewindowDelivery;
                  && (upper < arrival <==> r == Err(if pickup then MissedPickup(i) else MissedDelivery(i)))
                  && (arrival <= upper && (i, x) !in p.vehicleCalls <==> r == Err(NoVehicleCallCombo))
                  && (r.Val? ==>
                        var handling := if pickup then p.vehicleCalls[(i, x)].originNodeTime
                                        else p.vehicleCalls[(i, x)].destNodeTime;
                        && r.value.1 == target as int
                        && r.value.0 - handling >= arrival
                        && r.value.0 - handling >= call.lowerTimewindowDelivery
                        && (r.value.0 - handling == arrival || r.value.0 - handling == call.lowerTimewindowDelivery)))
  {
    var call := p.calls[x];
    var target := if pickup then call.origin else call.destination;
    match FindTrip(p.trips, i, node, target as int)
    case None => Err(NoRoutePath)
    case Some(t) =>
      var arrival := time + t.time;
      var upper := if pickup then call.upperTimewindowPickup else call.upperTimewindowDelivery;
      if upper < arrival then Err(if pickup then MissedPickup(i) else MissedDelivery(i))
      else if (i, x) !in p.vehicleCalls then Err(NoVehicleCallCombo)
      else
        var start := if arrival < call.lowerTimewindowDelivery then call.lowerTimewindowDelivery else arrival;
        var vc := p.vehicleCalls[(i, x)];
        Val((start + (if pickup then vc.originNodeTime else vc.destNodeTime), t.destination as int))
  }

  /** The time pass over the visits `k ..` of `route` from the given time,
      node and open calls. */
  function TimeRun(p: Problem, i: nat, route: Route, k: nat, time: int, node: int, open: seq<int>): Option<Failure>
    requires i < |p.vehicles| && ValidIds(p, route) && k <= |route|
    decreases |route| - k
  {
    if k == |route| then None
    else
      var x := route[k];
      match Visit(p, i, x, x !in open, time, node)
      case Err(f) => Some(f)
      case Val(state) => TimeRun(p, i, route, k + 1, state.0, state.1, Toggle(open, x))
  }

  /// One route and the whole solution

  /** The outcome for vehicle `i`: the permission pass over the whole route,
      then the load pass over the whole route, then the time pass. */
  function RouteOutcome(p: Problem, i: nat, route: Route): Option<Failure>
    requires ValidProblem(p) && i < |p.vehicles|
  {
    var v := p.vehicles[i];
    match FirstNotPermittedFrom(v, route, 0)
    case Some(k) => Some(NotPermitted(i, route[k]))
    case None =>
      AllPermittedValid(p, i, route);
      match CapacityRun(p, i, route, 0, 0, [])
      case Some(f) => Some(f)
      case None => TimeRun(p, i, route, 0, v.startingTime, v.homeNodeIndex as int, [])
  }

  /** The first failure among `routes`, the routes of vehicles `i`, `i + 1`,
      ...; every index that is not a vehicle is skipped. */
  function FeasibilityFrom(p: Problem, routes: Solution, i: nat): Option<Failure>
    requires ValidProblem(p)
  {
    if routes == [] then None
    else if |p.vehicles| <= i then FeasibilityFrom(p, routes[1..], i + 1)
    else match RouteOutcome(p, i, routes[0])
      case Some(f) => Some(f)
      case None => FeasibilityFrom(p, routes[1..], i + 1)
  }

  /** `checkfeasibility` on a nested solution: `None` when feasible. */
  function Feasibility(p: Problem, s: Solution): Option<Failure>
    requires ValidProblem(p)
  {
    FeasibilityFrom(p, s, 0)
  }

  /** An empty route is feasible. */
  lemma EmptyRoutePasses(p: Problem, i: nat)
    requires ValidProblem(p) && i < |p.vehicles|
    ensures RouteOutcome(p, i, []) == None
  {
  }

  /// The checker as the source runs it

  /** The three passes over one vehicle route. */
  method CheckRoute(p: Problem, i: nat, route: Route) returns (r: Option<Failure>)
    requires ValidProblem(p) && i < |p.vehicles|
    ensures r == RouteOutcome(p, i, route)
  {
    r := CheckPermission(p, i, route);
    if r.Some? {
      return;
    }
    AllPermittedValid(p, i, route);
    r := CheckCapacity(p, i, route);
    if r.Some? {
      return;
    }
    r := CheckTimes(p, i, route);
  }

  /** Permission of every call on the route. */
  method CheckPermission(p: Problem, i: nat, route: Route) returns (r: Option<Failure>)
    requires i < |p.vehicles|
    ensures r.None? <==> forall j :: 0 <= j < |route| ==> Permitted(p.vehicles[i], route[j])
    ensures var first := FirstNotPermittedFrom(p.vehicles[i], route, 0);
            first.Some? ==> r == Some(NotPermitted(i, route[first.value]))
  {
    var vehicle := p.vehicles[i];
    var k := 0;
    while k < |route|
      invariant 0 <= k <= |route|
      invariant FirstNotPermittedFrom(vehicle, route, 0) == FirstNotPermittedFrom(vehicle, route, k)
    {
      if !Permitted(vehicle, route[k]) {
        return Some(NotPermitted(i, route[k]));
      }
      k := k + 1;
    }
    return None;
  }

  /** The load after each visit against the vehicle's capacity. */
  method CheckCapacity(p: Problem, i: nat, route: Route) returns (r: Option<Failure>)
    requires i < |p.vehicles| && ValidIds(p, route)
    ensures r == CapacityRun(p, i, route, 0, 0, [])
  {
    var vehicle := p.vehicles[i];
    var capacity := 0;
    var currentCalls: seq<int> := [];
    var k := 0;
    while k < |route|
      invariant 0 <= k <= |route|
      invariant CapacityRun(p, i, route, 0, 0, []) == CapacityRun(p, i, route, k, capacity, currentCalls)
    {
      var callIndex := route[k];
      var call := p.calls[callIndex];
      if callIndex !in currentCalls {
        currentCalls := currentCalls + [callIndex];
        capacity := capacity + call.size;
      } else {
        currentCalls := RemoveFirst(currentCalls, callIndex);
        capacity := capacity - call.size;
      }
      if vehicle.capacity < capacity {
        return Some(ExceedsCapacity(i));
      }
      if capacity < 0 {
        capacity := 0;
      }
      k := k + 1;
    }
    return None;
  }

  /** The travel and handling times against the time windows. */
  method CheckTimes(p: Problem, i: nat, route: Route) returns (r: Option<Failure>)
    requires i < |p.vehicles| && ValidIds(p, route)
    ensures r == TimeRun(p, i, route, 0, p.vehicles[i].startingTime, p.vehicles[i].homeNodeIndex as int, [])
  {
    var vehicle := p.vehicles[i];
    var currentCalls: seq<int> := [];
    var time := vehicle.startingTime;
    var currentNode := vehicle.homeNodeIndex as int;
    var k := 0;
    while k < |route|
      invariant 0 <= k <= |route|
      invariant TimeRun(p, i, route, 0, vehicle.startingTime, vehicle.homeNodeIndex as int, [])
                == TimeRun(p, i, route, k, time, currentNode, currentCalls)
    {
      var callIndex := route[k];
      var pickup := callIndex !in currentCalls;
      var stop := TimedStop(p, i, callIndex, pickup, time, currentNode);
      if stop.Err? {
        return Some(stop.error);
      }
      time, currentNode := stop.value.0, stop.value.1;
      if pickup {
        currentCalls := currentCalls + [callIndex];
      } else {
        currentCalls := RemoveFirst(currentCalls, callIndex);
      }
      k := k + 1;
    }
    return None;
  }

  /** One stop of the time pass, in the order the source checks it: find
      the trip, drive, check the window's upper bound, wait for the delivery
      window's lower bound, look up the handling time. */
  method TimedStop(p: Problem, i: nat, callIndex: int, pickup: bool, time: int, currentNode: int)
    returns (r: Result<(int, int), Failure>)
    requires 0 <= callIndex < |p.calls|
    ensures r == Visit(p, i, callIndex, pickup, time, currentNode)
  {
    var call := p.calls[callIndex];
    var path := FindTrip(p.trips, i, currentNode, (if pickup then call.origin else call.destination) as int);
    if path.None? {
      return Err(NoRoutePath);
    }
    var t := time + path.value.time;
    var node := path.value.destination as int;
    if pickup && call.upperTimewindowPickup < t {
      return Err(MissedPickup(i));
    }
    if !pickup && call.upperTimewindowDelivery < t {
      return Err(MissedDelivery(i));
    }
    if t < call.lowerTimewindowDelivery {
      t := call.lowerTimewindowDelivery;
    }
    if (i, callIndex) !in p.vehicleCalls {
      return Err(NoVehicleCallCombo);
    }
    var vehicleCall := p.vehicleCalls[(i, callIndex)];
    t := t + if pickup then vehicleCall.originNodeTime else vehicleCall.destNodeTime;
    return Val((t, node));
  }

  /** `checkfeasibility` for a nested solution. */
  method CheckFeasibility(p: Problem, solution: Solution) returns (r: Option<Failure>)
    requires ValidProblem(p)
    ensures r == Feasibility(p, solution)
  {
    var i := 0;
    assert solution[0..] == solution;
    while i < |solution|
      invariant 0 <= i <= |solution|
      invariant Feasibility(p, solution) == FeasibilityFrom(p, solution[i..], i)
    {
      assert solution[i..][0] == solution[i] && solution[i..][1..] == solution[i + 1..];
      if i < |p.vehicles| {
        var outcome := CheckRoute(p, i, solution[i]);
        if outcome.Some? {
          return outcome;
        }
      }
      i := i + 1;
    }
    return None;
  }

  /** One round of the compact loop: cut route `i` at the next separator
      and check it unless it is empty or the sink. */
  method CheckNextRoute(p: Problem, solution: SolutionComp, routeStart: nat, i: nat, ghost k: nat, ghost ahead: Solution)
    returns (r: Option<Failure>, next: nat)
    requires ValidProblem(p) && 0 < k && RoutesAhead(solution, routeStart, k, ahead)
    ensures r == if i < |p.vehicles| then RouteOutcome(p, i, ahead[0]) else None
    ensures RoutesAhead(solution, next, k - 1, ahead[1..])
  {
    var routeSize := SepIndex(solution[routeStart..]);
    next := routeStart + routeSize + 1;
    AheadStep(solution, routeStart, k, ahead, routeSize, next);
    var route := solution[routeStart..routeStart + routeSize];
    if routeSize == 0 || |p.vehicles| <= i {
      if i < |p.vehicles| {
        EmptyRoutePasses(p, i);
        assert route == [];
      }
      r := None;
    } else {
      r := CheckRoute(p, i, route);
    }
  }

  /** The verdict from route `i` on: the sink and beyond are skipped, a
      failing vehicle route is reported, and a passing one hands over to
      the next. */
  lemma FeasibilityFromFirst(p: Problem, routes: Solution, i: nat)
    requires ValidProblem(p) && routes != []
    ensures |p.vehicles| <= i ==> FeasibilityFrom(p, routes, i) == FeasibilityFrom(p, routes[1..], i + 1)
    ensures i < |p.vehicles| && RouteOutcome(p, i, routes[0]).Some? ==> FeasibilityFrom(p, routes, i) == RouteOutcome(p, i, routes[0])
    ensures i < |p.vehicles| && RouteOutcome(p, i, routes[0]).None? ==> FeasibilityFrom(p, routes, i) == FeasibilityFrom(p, routes[1..], i + 1)
  {
  }

  /** `checkfeasibility` for a compact solution: route `i` runs from
      `routeStart` to the next separator; empty routes are feasible. */
  method CheckFeasibilityComp(p: Problem, solution: SolutionComp) returns (r: Option<Failure>)
    requires ValidProblem(p)
    requires |p.vehicles| <= SepCount(solution)
    ensures r == Feasibility(p, ToNested(solution, |p.vehicles| + 1))
  {
    var count := |p.vehicles| + 1;
    ghost var ahead := ToNested(solution, count);
    ghost var verdict := Feasibility(p, ahead);
    var routeStart: nat := 0;
    var i := 0;
    ghost var left := count;
    AheadStart(solution, count);
    while i < count
      invariant 0 <= i <= count && left == count - i
      invariant |ahead| == left && RoutesAhead(solution, routeStart, left, ahead)
      invariant verdict == FeasibilityFrom(p, ahead, i)
    {
      var outcome;
      outcome, routeStart := CheckRound(p, solution, routeStart, i, left, ahead, verdict);
      if outcome.Some? {
        return outcome;
      }
      i, left, ahead := i + 1, left - 1, ahead[1..];
    }
    assert ahead == [];
    return None;
  }

  /** One round of the compact loop: the verdict is this route's failure,
      or that of the routes after it. */
  method CheckRound(p: Problem, solution: SolutionComp, routeStart: nat, i: nat,
                    ghost left: nat, ghost ahead: Solution, ghost verdict: Option<Failure>)
    returns (outcome: Option<Failure>, next: nat)
    requires ValidProblem(p) && 0 < left && RoutesAhead(solution, routeStart, left, ahead)
    requires verdict == FeasibilityFrom(p, ahead, i)
    ensures RoutesAhead(solution, next, left - 1, ahead[1..])
    ensures outcome.Some? ==> verdict == outcome
    ensures outcome.None? ==> verdict == FeasibilityFrom(p, ahead[1..], i + 1)
  {
    outcome, next := CheckNextRoute(p, solution, routeStart, i, left, ahead);
    FeasibilityFromFirst(p, ahead, i);
  }

  /// Properties

  /** Every vehicle route among `routes`, the first being route `i`, passes. */
  predicate AllPass(p: Problem, routes: Solution, i: nat)
    requires ValidProblem(p)
  {
    forall j :: 0 <= j < |routes| && i + j < |p.vehicles| ==> RouteOutcome(p, i + j, routes[j]) == None
  }

  /** All routes pass when the first does (or is not a vehicle's) and the
      rest do. */
  lemma AllPassStep(p: Problem, routes: Solution, i: nat)
    requires ValidProblem(p) && routes != []
    ensures AllPass(p, routes, i)
            <==> (i < |p.vehicles| ==> RouteOutcome(p, i, routes[0]) == None) && AllPass(p, routes[1..], i + 1)
  {
    assert forall j :: 1 <= j < |routes| ==> routes[1..][j - 1] == routes[j];
  }

  /** A solution is feasible exactly when every vehicle route passes. */
  lemma {:induction false} FeasibleIffEveryRoutePasses(p: Problem, routes: Solution, i: nat)
    requires ValidProblem(p)
    ensures FeasibilityFrom(p, routes, i) == None <==> AllPass(p, routes, i)
    decreases |routes|
  {
    if routes != [] {
      FeasibleIffEveryRoutePasses(p, routes[1..], i + 1);
      AllPassStep(p, routes, i);
      FeasibilityFromFirst(p, routes, i);
    }
  }

  /** The failure reported is that of the first vehicle route that fails. */
  lemma {:induction false} FirstFailingRouteIsReported(p: Problem, routes: Solution, i: nat, j: nat, k: nat)
    requires ValidProblem(p)
    requires j < |routes| && k == i + j && k < |p.vehicles| && RouteOutcome(p, k, routes[j]).Some?
    requires PassedBefore(p, routes, i, j)
    ensures FeasibilityFrom(p, routes, i) == RouteOutcome(p, k, routes[j])
    decreases j
  {
    if 0 < j {
      var rest, i', j' := routes[1..], i + 1, j - 1;
      PassedShift(p, routes, i, j, i', j');
      assert rest[j'] == routes[j];
      FirstFailingRouteIsReported(p, rest, i', j', k);
    }
  }

  /** The first `j` of `routes`, the first being route `i`, are vehicle
      routes that pass. */
  ghost predicate PassedBefore(p: Problem, routes: Solution, i: nat, j: nat)
    requires ValidProblem(p) && j <= |routes| && i + j <= |p.vehicles|
  {
    forall n :: 0 <= n < j ==> RouteOutcome(p, i + n, routes[n]) == None
  }

  /** The first `j` vehicle routes passing means the first passes and the
      first `j - 1` of the rest do. */
  lemma PassedShift(p: Problem, routes: Solution, i: nat, j: nat, i': nat, j': nat)
    requires ValidProblem(p) && 0 < j < |routes| && i + j < |p.vehicles| && PassedBefore(p, routes, i, j)
    requires i' == i + 1 && j' + 1 == j
    ensures FeasibilityFrom(p, routes, i) == FeasibilityFrom(p, routes[1..], i')
    ensures PassedBefore(p, routes[1..], i', j')
  {
    assert RouteOutcome(p, i + 0, routes[0]) == None;
    forall n | 0 <= n < j'
      ensures RouteOutcome(p, i' + n, routes[1..][n]) == None
    {
      assert routes[1..][n] == routes[n + 1];
      assert RouteOutcome(p, i + (n + 1), routes[n + 1]) == None;
    }
  }

  /** Routes at or beyond the vehicle count (the sink and anything after it)
      never influence the outcome. */
  lemma {:induction false} SinkIsNeverChecked(p: Problem, s: Solution, t: Solution)
    requires ValidProblem(p)
    requires |p.vehicles| <= |s| && |p.vehicles| <= |t| && s[..|p.vehicles|] == t[..|p.vehicles|]
    ensures Feasibility(p, s) == Feasibility(p, t)
  {
    SameVehicleRoutes(p, s, t, 0);
  }

  lemma {:induction false} SameVehicleRoutes(p: Problem, s: Solution, t: Solution, i: nat)
    requires ValidProblem(p) && i <= |p.vehicles|
    requires |p.vehicles| <= |s| && |p.vehicles| <= |t| && s[..|p.vehicles|] == t[..|p.vehicles|]
    ensures FeasibilityFrom(p, s[i..], i) == FeasibilityFrom(p, t[i..], i)
    decreases |p.vehicles| - i
  {
    if i < |p.vehicles| {
      assert s[i] == s[..|p.vehicles|][i] == t[..|p.vehicles|][i] == t[i];
      assert s[i..][0] == s[i] && s[i..][1..] == s[i + 1..];
      assert t[i..][0] == t[i] && t[i..][1..] == t[i + 1..];
      SameVehicleRoutes(p, s, t, i + 1);
    } else {
      SinksAreSkipped(p, s[i..], i);
      SinksAreSkipped(p, t[i..], i);
    }
  }

  lemma {:induction false} SinksAreSkipped(p: Problem, routes: Solution, i: nat)
    requires ValidProblem(p) && |p.vehicles| <= i
    ensures FeasibilityFrom(p, routes, i) == None
    decreases |routes|
  {
    if routes != [] {
      SinksAreSkipped(p, routes[1..], i + 1);
    }
  }

  /** A call the vehicle may not carry is reported before any load or time
      check of that route, whatever those would say. */
  lemma PermissionIsCheckedFirst(p: Problem, i: nat, route: Route, k: nat)
    requires ValidProblem(p) && i < |p.vehicles|
    requires k < |route| && !Permitted(p.vehicles[i], route[k])
    requires forall j :: 0 <= j < k ==> Permitted(p.vehicles[i], route[j])
    ensures RouteOutcome(p, i, route) == Some(NotPermitted(i, route[k]))
  {
    var r := FirstNotPermittedFrom(p.vehicles[i], route, 0);
    assert r.Some? && r.value == k;
  }

  /** A load violation anywhere on a permitted route is reported, even when
      a time window would be missed earlier on it. */
  lemma CapacityIsCheckedBeforeTime(p: Problem, i: nat, route: Route)
    requires ValidProblem(p) && i < |p.vehicles|
    requires forall j :: 0 <= j < |route| ==> Permitted(p.vehicles[i], route[j])
    ensures ValidIds(p, route)
    ensures CapacityRun(p, i, route, 0, 0, []).Some? ==> RouteOutcome(p, i, route) == Some(ExceedsCapacity(i))
  {
    AllPermittedValid(p, i, route);
    assert FirstNotPermittedFrom(p.vehicles[i], route, 0).None?;
    if CapacityRun(p, i, route, 0, 0, []).Some? {
      CapacityFailureIsExceeds(p, i, route, 0, 0, []);
    }
  }

  lemma {:induction false} CapacityFailureIsExceeds(p: Problem, i: nat, route: Route, k: nat, load: int, open: seq<int>)
    requires i < |p.vehicles| && ValidIds(p, route) && k <= |route|
    ensures CapacityRun(p, i, route, k, load, open) == None || CapacityRun(p, i, route, k, load, open) == Some(ExceedsCapacity(i))
    decreases |route| - k
  {
    if k < |route| {
      var x := route[k];
      var next := if x in open then load - p.calls[x].size else load + p.calls[x].size;
      CapacityFailureIsExceeds(p, i, route, k + 1, if next < 0 then 0 else next, Toggle(open, x));
    }
  }


  /// The load pass measures the calls on board

  /** Every call has a nonnegative size. */
  ghost predicate NonNegativeSizes(p: Problem) {
    forall c :: 0 <= c < |p.calls| ==> p.calls[c].size >= 0
  }

  function SizeOf(p: Problem, x: int): int {
    if 0 <= x < |p.calls| then p.calls[x].size else 0
  }

  /** How often `x` occurs among the first `j` visits of `route`. */
  function Visits(route: Route, j: nat, x: int): nat
    requires j <= |route|
  {
    if j == 0 then 0 else Visits(route, j - 1, x) + if route[j - 1] == x then 1 else 0
  }

  function Odd(n: nat): bool {
    if n == 0 then false else !Odd(n - 1)
  }

  /** The load after the first `j` visits: a visit adds the call's size when
      it is an odd-numbered visit of that call (a pickup) and subtracts it
      otherwise. */
  function LoadAfter(p: Problem, route: Route, j: nat): int
    requires j <= |route|
  {
    if j == 0 then 0
    else
      var x := route[j - 1];
      LoadAfter(p, route, j - 1) + if Odd(Visits(route, j - 1, x)) then -SizeOf(p, x) else SizeOf(p, x)
  }

  /** The calls on board after the first `j` visits. */
  function OnBoard(route: Route, j: nat): seq<int>
    requires j <= |route|
  {
    if j == 0 then [] else Toggle(OnBoard(route, j - 1), route[j - 1])
  }

  function SumSizes(p: Problem, open: seq<int>): int {
    if open == [] then 0 else SizeOf(p, open[0]) + SumSizes(p, open[1..])
  }

  lemma {:induction false} SumSizesAppend(p: Problem, open: seq<int>, x: int)
    ensures SumSizes(p, open + [x]) == SumSizes(p, open) + SizeOf(p, x)
  {
    if open != [] {
      assert (open + [x])[1..] == open[1..] + [x];
      SumSizesAppend(p, open[1..], x);
    }
  }

  lemma {:induction false} SumSizesRemove(p: Problem, open: seq<int>, x: int)
    requires x in open
    ensures SumSizes(p, RemoveFirst(open, x)) == SumSizes(p, open) - SizeOf(p, x)
  {
    if open[0] != x {
      SumSizesRemove(p, open[1..], x);
      assert ([open[0]] + RemoveFirst(open[1..], x))[1..] == RemoveFirst(open[1..], x);
    }
  }

  lemma {:induction false} SumSizesNonNegative(p: Problem, open: seq<int>)
    requires NonNegativeSizes(p)
    ensures SumSizes(p, open) >= 0
  {
    if open != [] {
      SumSizesNonNegative(p, open[1..]);
    }
  }

  /** A call is on board exactly when it has been visited an odd number of
      times, and then once. */
  /** How a visit changes the count of one id on board. */
  lemma ToggleCount(open: seq<int>, y: int, x: int)
    ensures multiset(Toggle(open, y))[x]
            == if x != y then multiset(open)[x] else if y in open then multiset(open)[x] - 1 else multiset(open)[x] + 1
  {
    if y in open {
      RemoveFirstCounts(open, y);
    } else {
      assert multiset(open + [y]) == multiset(open) + multiset{y};
    }
  }

  lemma {:induction false} OnBoardParity(route: Route, j: nat, x: int)
    requires j <= |route|
    ensures multiset(OnBoard(route, j))[x] == if Odd(Visits(route, j, x)) then 1 else 0
  {
    if j > 0 {
      var y, o, n := route[j - 1], OnBoard(route, j - 1), Visits(route, j - 1, x);
      OnBoardParity(route, j - 1, x);
      assert OnBoard(route, j) == Toggle(o, y);
      ToggleCount(o, y, x);
      assert Visits(route, j, x) == n + if y == x then 1 else 0;
      if x == y {
        assert Odd(n + 1) == !Odd(n);
        assert y in o <==> y in multiset(o);
      }
    }
  }



  /** A call is on board exactly when it has been visited an odd number of times. */
  lemma OnBoardIffOdd(route: Route, j: nat, x: int)
    requires j <= |route|
    ensures x in OnBoard(route, j) <==> Odd(Visits(route, j, x))
  {
    OnBoardParity(route, j, x);
    assert x in OnBoard(route, j) <==> multiset(OnBoard(route, j))[x] > 0;
  }

  /** The load is the total size of the calls on board. */
  lemma {:induction false} LoadIsOnBoard(p: Problem, route: Route, j: nat)
    requires j <= |route|
    ensures LoadAfter(p, route, j) == SumSizes(p, OnBoard(route, j))
  {
    if j > 0 {
      var y := route[j - 1];
      var o := OnBoard(route, j - 1);
      LoadIsOnBoard(p, route, j - 1);
      OnBoardIffOdd(route, j - 1, y);
      if y in o {
        SumSizesRemove(p, o, y);
      } else {
        SumSizesAppend(p, o, y);
      }
    }
  }

  /** One visit of the load pass in terms of the visits before it. */
  lemma VisitUpdatesLoad(p: Problem, route: Route, k: nat)
    requires NonNegativeSizes(p) && k < |route| && 0 <= route[k] < |p.calls|
    ensures var o := OnBoard(route, k);
            var x := route[k];
            var size := p.calls[x].size;
            && LoadAfter(p, route, k + 1) == (if x in o then LoadAfter(p, route, k) - size else LoadAfter(p, route, k) + size)
            && LoadAfter(p, route, k + 1) >= 0
  {
    var x := route[k];
    OnBoardIffOdd(route, k, x);
    LoadIsOnBoard(p, route, k + 1);
    SumSizesNonNegative(p, OnBoard(route, k + 1));
  }

  lemma {:induction false} CapacityRunFromPrefix(p: Problem, i: nat, route: Route, k: nat)
    requires i < |p.vehicles| && ValidIds(p, route) && NonNegativeSizes(p) && k <= |route|
    ensures CapacityRun(p, i, route, k, LoadAfter(p, route, k), OnBoard(route, k)) == None
            <==> LoadsFit(p, route, p.vehicles[i].capacity, k)
    decreases |route| - k
  {
    if k < |route| {
      var j, cap := k + 1, p.vehicles[i].capacity;
      CapacityStep(p, i, route, k, j);
      FitsFrom(p, route, cap, k, j);
      if LoadAfter(p, route, j) <= cap {
        CapacityRunFromPrefix(p, i, route, j);
      }
    }
  }

  /** Every load after the first `k` visits is within `cap`. */
  ghost predicate LoadsFit(p: Problem, route: Route, cap: int, k: nat)
    requires k <= |route|
  {
    forall j :: k < j <= |route| ==> LoadAfter(p, route, j) <= cap
  }

  /** The loads after visit `k` fit when the next one does and those after
      it do. */
  lemma FitsFrom(p: Problem, route: Route, cap: int, k: nat, j: nat)
    requires k < |route| && j == k + 1
    ensures LoadsFit(p, route, cap, k) <==> LoadAfter(p, route, j) <= cap && LoadsFit(p, route, cap, j)
  {
  }

  /** One visit of the load pass, from the state after the first `k`
      visits: it fails when the next load exceeds the capacity and carries
      on from the state after `k + 1` visits otherwise. */
  lemma CapacityStep(p: Problem, i: nat, route: Route, k: nat, j: nat)
    requires i < |p.vehicles| && ValidIds(p, route) && NonNegativeSizes(p) && k < |route| && j == k + 1
    ensures var next := LoadAfter(p, route, j);
            CapacityRun(p, i, route, k, LoadAfter(p, route, k), OnBoard(route, k))
            == if p.vehicles[i].capacity < next then Some(ExceedsCapacity(i))
               else CapacityRun(p, i, route, j, next, OnBoard(route, j))
  {
    var x, load, o := route[k], LoadAfter(p, route, k), OnBoard(route, k);
    var next := if x in o then load - p.calls[x].size else load + p.calls[x].size;
    assert next == LoadAfter(p, route, k + 1) && next >= 0 by {
      VisitUpdatesLoad(p, route, k);
    }
    assert Toggle(o, x) == OnBoard(route, k + 1);
    assert CapacityRun(p, i, route, k, load, o)
           == if p.vehicles[i].capacity < next then Some(ExceedsCapacity(i))
              else CapacityRun(p, i, route, k + 1, next, Toggle(o, x));
  }

  /** With nonnegative sizes (so the clamp at zero never fires), the load
      pass succeeds exactly when the load after every visit is within the
      capacity; a load equal to the capacity passes. */
  lemma CapacityPassIffLoadsFit(p: Problem, i: nat, route: Route)
    requires i < |p.vehicles| && ValidIds(p, route) && NonNegativeSizes(p)
    ensures CapacityRun(p, i, route, 0, 0, []) == None
            ==> forall j :: 0 < j <= |route| ==> LoadAfter(p, route, j) <= p.vehicles[i].capacity
    ensures (forall j :: 0 < j <= |route| ==> LoadAfter(p, route, j) <= p.vehicles[i].capacity)
            ==> CapacityRun(p, i, route, 0, 0, []) == None
    ensures forall j :: 0 <= j <= |route| ==> LoadAfter(p, route, j) == SumSizes(p, OnBoard(route, j))
  {
    assert LoadAfter(p, route, 0) == 0 && OnBoard(route, 0) == [];
    CapacityRunFromPrefix(p, i, route, 0);
    forall j | 0 <= j <= |route|
      ensures LoadAfter(p, route, j) == SumSizes(p, OnBoard(route, j))
    {
      LoadIsOnBoard(p, route, j);
    }
  }

  /** A route carrying one call, with every outcome: a call the vehicle may
      not carry; a load that does not fit (the pickup's or, for a negative
      capacity, the empty one after the delivery); a missing trip to the
      origin; a missed pickup window; a missing handling record; a missing
      trip to the destination; and otherwise a pass exactly when the
      delivery window's upper bound is met (the pickup waits for the
      delivery window's lower bound). */
  lemma SingleCallRoute(p: Problem, i: nat, c: nat)
    requires ValidProblem(p) && i < |p.vehicles| && c < |p.calls|
    ensures var v := p.vehicles[i];
            var call := p.calls[c];
            var fits := call.size <= v.capacity && (if call.size < 0 then -call.size else 0) <= v.capacity;
            var toOrigin := FindTrip(p.trips, i, v.homeNodeIndex as int, call.origin as int);
            var toDest := FindTrip(p.trips, i, call.origin as int, call.destination as int);
            var r := RouteOutcome(p, i, [c, c]);
            && (!Permitted(v, c) ==> r == Some(NotPermitted(i, c)))
            && (Permitted(v, c) && !fits ==> r == Some(ExceedsCapacity(i)))
            && (Permitted(v, c) && fits && toOrigin.None? ==> r == Some(NoRoutePath))
            && (Permitted(v, c) && fits && toOrigin.Some? ==>
                  var pickup := v.startingTime + toOrigin.value.time;
                  && (call.upperTimewindowPickup < pickup ==> r == Some(MissedPickup(i)))
                  && (pickup <= call.upperTimewindowPickup && (i, c) !in p.vehicleCalls ==> r == Some(NoVehicleCallCombo))
                  && (pickup <= call.upperTimewindowPickup && (i, c) in p.vehicleCalls ==>
                        var leave := (if pickup < call.lowerTimewindowDelivery then call.lowerTimewindowDelivery else pickup)
                                     + p.vehicleCalls[(i, c)].originNodeTime;
                        && (toDest.None? ==> r == Some(NoRoutePath))
                        && (toDest.Some? ==>
                              r == if leave + toDest.value.time <= call.upperTimewindowDelivery then None
                                   else Some(MissedDelivery(i)))))
  {
    var route := [c, c];
    var v := p.vehicles[i];
    var call := p.calls[c];
    if !Permitted(v, c) {
      assert FirstNotPermittedFrom(v, route, 0) == Some(0);
    } else {
      assert FirstNotPermittedFrom(v, route, 0).None?;
      AllPermittedValid(p, i, route);
      var load := if call.size < 0 then 0 else call.size;
      var after := if call.size < 0 then -call.size else 0;
      assert route[0] == c && route[1] == c && c !in [] && Toggle([], c) == [c] && c in [c];
      assert load - call.size == after && (if after < 0 then 0 else after) == after;
      assert CapacityRun(p, i, route, 1, load, [c]) == if v.capacity < after then Some(ExceedsCapacity(i)) else None;
      assert CapacityRun(p, i, route, 0, 0, [])
             == if v.capacity < call.size then Some(ExceedsCapacity(i)) else CapacityRun(p, i, route, 1, load, [c]);
      if call.size <= v.capacity && after <= v.capacity {
        SingleCallTimes(p, i, c);
      }
    }
  }

  /** The time pass over a one-call route, outcome by outcome. */
  lemma SingleCallTimes(p: Problem, i: nat, c: nat)
    requires i < |p.vehicles| && c < |p.calls|
    ensures ValidIds(p, [c, c])
    ensures var v := p.vehicles[i];
            var call := p.calls[c];
            var toOrigin := FindTrip(p.trips, i, v.homeNodeIndex as int, call.origin as int);
            var toDest := FindTrip(p.trips, i, call.origin as int, call.destination as int);
            var r := TimeRun(p, i, [c, c], 0, v.startingTime, v.homeNodeIndex as int, []);
            && (toOrigin.None? ==> r == Some(NoRoutePath))
            && (toOrigin.Some? ==>
                  var pickup := v.startingTime + toOrigin.value.time;
                  && (call.upperTimewindowPickup < pickup ==> r == Some(MissedPickup(i)))
                  && (pickup <= call.upperTimewindowPickup && (i, c) !in p.vehicleCalls ==> r == Some(NoVehicleCallCombo))
                  && (pickup <= call.upperTimewindowPickup && (i, c) in p.vehicleCalls ==>
                        var leave := (if pickup < call.lowerTimewindowDelivery then call.lowerTimewindowDelivery else pickup)
                                     + p.vehicleCalls[(i, c)].originNodeTime;
                        && (toDest.None? ==> r == Some(NoRoutePath))
                        && (toDest.Some? ==>
                              r == if leave + toDest.value.time <= call.upperTimewindowDelivery then None
                                   else Some(MissedDelivery(i)))))
  {
    var route := [c, c];
    var v := p.vehicles[i];
    var first := Visit(p, i, c, true, v.startingTime, v.homeNodeIndex as int);
    assert route[0] == c && route[1] == c && c !in [] && Toggle([], c) == [c];
    assert TimeRun(p, i, route, 0, v.startingTime, v.homeNodeIndex as int, [])
           == if first.Err? then Some(first.error) else TimeRun(p, i, route, 1, first.value.0, first.value.1, [c]);
    if first.Val? {
      var second := Visit(p, i, c, false, first.value.0, first.value.1);
      assert c in [c];
      assert TimeRun(p, i, route, 1, first.value.0, first.value.1, [c])
             == if second.Err? then Some(second.error) else None;
      assert first.value.1 == p.calls[c].origin as int;
    }
  }
}
