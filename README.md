# Pickup and delivery solver core, modelled in Dafny

This project models the computing core of a pickup-and-delivery solver with
time windows (PDPTW). An instance has vehicles, calls, trips and handling
records. A solution is a list of routes: one route per vehicle, then one
outsourcing route, the sink. Each route is a list of call ids. In a vehicle
route, the first visit of a call is its pickup and the next visit is its
delivery. The compact form of a solution is one flat list with `-1` between
the routes.

The model covers:

- the feasibility checker, both the current one and its older copy. It
  runs three passes over each vehicle route: permission, load against
  capacity, and a simulation of times against time windows. It reports the
  first violation as an error value.
- the cost evaluator. A vehicle route costs its trips and handling. The
  sink costs the outsourcing penalty of each distinct call on it.
- the neighbourhood operators `ex2`, `ex3` and `ins1`, and the min/max
  scan they share.
- the generators of the initial and random solutions, in both the current
  and the older versions, and the blind random search and local search.
- the `Result` type and the `stoi` conversions.
- the string `split`.
- the driver's `powi`, the time budget per instance from a geometric
  series, and the tally of the workers' results.

Each part has the shape of its source:

- Loops that update variables are methods with loop invariants.
- Each such method is proved equal to a recursive specification function.
- The properties the source promises are lemmas about those functions.
- The draws of the random engine are explicit inputs. A `std::shuffle` is a
  swap walk from the back driven by explicit draws.
- The tally of the workers' results is a class whose method updates its
  fields.

The modules are:

- `Instance`: records, `Result`, `stoi`, trip lookup, failures.
- `Solutions`: routes, counts, the well-formedness invariant `Paired`, the
  compact form.
- `Text`: `split`.
- `Feasibility` and `Feasability`: the two checkers.
- `Cost`: the evaluator.
- `Operators`: `ex2`, `ex3`, `ins1`.
- `Shuffling` and `Dealing`: how random solutions are built.
- `Heuristics`: generators and searches.
- `Common`: the older generators.
- `Driver`: `powi`, the time budget and the tally.

## Model

| member | source | states |
|---|---|---|
| Instance.FromValue | src/problem.h:12-16 | a `Result` built from a value is truthy and `val()` returns that value |
| Instance.FromError | src/problem.h:13-17 | a `Result` built from an error is falsy and `err()` returns that error |
| Instance.ValOrMax | src/heuristics.cpp:53 | `val_or_max()` is the value of a truthy result and `INT_MAX` otherwise |
| Instance.PermittedIsValid | src/feasibility.cpp:16-27 | a call a vehicle may carry indexes `calls`, which the load pass relies on |
| Instance.TripIndexFrom | src/feasibility.cpp:45-47 | the `find_if` over the trips: an index it returns lies at or after the start and names a trip matching vehicle, origin and destination |
| Instance.TripIndexFirst | src/feasibility.cpp:45-47 | no trip between the start and the index found matches; when none is found, no trip from the start on matches |
| Instance.FindTrip | src/feasibility.cpp:45-48 | a trip `findPath` returns matches vehicle, origin and destination |
| Instance.FindTripFirst | src/feasibility.cpp:45-48 | `findPath` is empty exactly when no trip matches; otherwise it is the first matching trip in the list |
| Instance.Stoi | src/problem.h:72-75 | generic `stoi` gives the parsed `int` unchanged; the result always lies within `int` |
| Instance.StoiU8 | src/problem.h:77-81 | `stoi<uint8_t>` succeeds exactly when `stoi` does, gives the parsed value reduced modulo 256, and passes a parse error on |
| Instance.StoiU8Wraps | src/problem.h:77-81 | `"300"` becomes 44 |
| Instance.StoiReadsIntToString | src/problem.h:72-75 | reading back what `std::to_string` wrote gives the same `int`, whatever non-digit text follows |
| Instance.DigitsValueOfNat | src/problem.h:72-75 | the digits written for a natural number have that value |
| Instance.StoiReadsUnsigned | src/problem.h:72-75 | text starting with a digit reads as the value of its digit run, range-checked |
| Instance.StoiReadsNegative | src/problem.h:72-75 | a minus sign before digits reads as the negated value, range-checked |
| Solutions.SepIndex | src/feasibility.cpp:121-123 | `std::find(begin, end, -1)`: the first separator, or the end; no separator comes before it |
| Solutions.ToNested | src/feasibility.cpp:119-124 | the first `k` routes of a compact solution, cut at its separators: exactly `k` of them |
| Solutions.ToNestedStep | src/cost.cpp:81-85 | the first route ends at the first separator; the rest are cut from what follows it |
| Solutions.SepCountAfterFirst | src/cost.cpp:81-85 | the separators after the first are one fewer |
| Solutions.RemoveFirst | src/feasibility.cpp:33 | `currentCalls.erase(find(...))` takes out one element |
| Solutions.RemoveFirstCounts | src/feasibility.cpp:28-34 | exactly one copy of the id leaves the calls on board |
| Solutions.PlacedOccurrences | src/heuristics.cpp:24-43 | in a placed solution the total count of an id is its count in its one route |
| Text.Find | src/problem.cpp:10 | `std::find` from a position stops at or after it, on a separator or at the end |
| Text.FindSkips | src/problem.cpp:10 | no separator lies between the start of the search and where it stops, so the stop is the first separator |
| Text.Next | src/problem.cpp:9-11 | the `next` lambda: the end stays the end; otherwise the search starts one past the current position and stops on a separator or at the end |
| Text.NextSkips | src/problem.cpp:9-11 | nothing strictly between the current position and the next stop is a separator |
| Text.SplitFrom | src/problem.cpp:12-17 | the pieces pushed from `beg` on are all non-empty |
| Text.Splitting | src/problem.cpp:7-18 | `split` of the empty text is empty; no piece is empty |
| Text.Split | src/problem.cpp:7-18 | the `beg`/`end` loop pushes exactly the pieces of `Splitting` |
| Text.SpansArePieces | src/problem.cpp:12-17 | each piece is the stretch of the text its span names |
| Text.SpansInOrder | src/problem.cpp:12-17 | the spans come left to right, never touching; each ends at a separator or the end and starts after a separator or at the start |
| Text.SpansClear | src/problem.cpp:10-14 | no span holds the separator, except at the very start of the text |
| Text.PiecesAreStretches | src/problem.cpp:7-18 | the pieces are contiguous stretches of the input, in order, and hold no separator except a leading one |
| Text.LeadingSeparatorKept | src/problem.cpp:10-14 | a separator at position 0 is not split on and stays at the front of the first piece |
| Text.JoinCons | src/problem.cpp:7-18 | joining puts one separator between a piece and the rest |
| Text.JoinFrom | src/problem.cpp:12-17 | from a separator inside a clean text, the rest of the text is that separator followed by the joined pieces |
| Text.JoinSplit | src/problem.cpp:7-18 | joining the pieces of a text with no leading, trailing or doubled separator gives the text back |
| Feasibility.AllPermittedValid | src/feasibility.cpp:16-27 | a route that passes the permission check holds only call indices |
| Feasibility.FirstNotPermittedFrom | src/feasibility.cpp:17-20 | the first call on the route that the vehicle may not carry; none exactly when every call is permitted |
| Feasibility.Visit | src/feasibility.cpp:58-111 | one stop of the time pass: a missing trip, a missed window upper bound and a missing handling record each give their error, in that order; otherwise the new node is the target and the new time is the arrival or the delivery window's lower bound, whichever is later, plus the handling time |
| Feasibility.EmptyRoutePasses | src/feasibility.cpp:126-128 | an empty route is feasible |
| Feasibility.CheckRoute | src/feasibility.cpp:14-112 | the three passes of one vehicle route give the route's outcome |
| Feasibility.CheckPermission | src/feasibility.cpp:16-20 | the permission pass passes exactly when every call is permitted, and reports the first one that is not |
| Feasibility.CheckCapacity | src/feasibility.cpp:22-43 | the load pass as written: first visit adds the size, next subtracts it, fails when the load exceeds the capacity, clamps at zero |
| Feasibility.CheckTimes | src/feasibility.cpp:50-112 | the time pass from the vehicle's starting time and home node |
| Feasibility.TimedStop | src/feasibility.cpp:58-111 | one stop checked in the source's order equals `Visit` |
| Feasibility.CheckFeasibility | src/feasibility.cpp:6-116 | `checkfeasibility` on a nested solution gives the first failing route's error, or none |
| Feasibility.CheckNextRoute | src/feasibility.cpp:120-132 | one round of the compact loop cuts the next route at the separator; its verdict is that route's outcome for a vehicle, an empty route passing, and none past the vehicles |
| Feasibility.CheckRound | src/feasibility.cpp:120-132 | one round of the compact loop: a failure it reports is the verdict of the whole loop; otherwise the verdict is that of the routes after it |
| Feasibility.CheckFeasibilityComp | src/feasibility.cpp:118-236 | the compact overload returns what the nested one returns on the `-1`-split form with vehicles + 1 routes |
| Feasibility.FeasibleIffEveryRoutePasses | src/feasibility.cpp:6-116 | a solution is feasible exactly when every vehicle route passes |
| Feasibility.FirstFailingRouteIsReported | src/feasibility.cpp:7-113 | the error reported is that of the first failing vehicle route |
| Feasibility.SinkIsNeverChecked | src/feasibility.cpp:10-12 | routes at or beyond the vehicle count never change the outcome |
| Feasibility.SinksAreSkipped | src/feasibility.cpp:10-12 | routes past the vehicles alone are feasible whatever they hold |
| Feasibility.PermissionIsCheckedFirst | src/feasibility.cpp:16-20 | a call the vehicle may not carry is reported before any load or time check |
| Feasibility.CapacityIsCheckedBeforeTime | src/feasibility.cpp:22-43 | a load violation on a permitted route is reported even when a window is missed earlier on it |
| Feasibility.CapacityFailureIsExceeds | src/feasibility.cpp:37-39 | the load pass can only fail with "exceeds capacity" |
| Feasibility.OnBoardParity | src/feasibility.cpp:28-34 | after any prefix of the route, a call is on board once when it was visited an odd number of times and not at all otherwise |
| Feasibility.SumSizesRemove | src/feasibility.cpp:33-34 | taking a call off the vehicle lowers the total size on board by the call's size |
| Feasibility.OnBoardIffOdd | src/feasibility.cpp:26-35 | a call is on board exactly when it has been visited an odd number of times |
| Feasibility.LoadIsOnBoard | src/feasibility.cpp:26-35 | the load is the total size of the calls on board |
| Feasibility.VisitUpdatesLoad | src/feasibility.cpp:28-35 | a pickup adds the size, a delivery subtracts it, and the load stays non-negative |
| Feasibility.CapacityRunFromPrefix | src/feasibility.cpp:22-43 | from any point of the route, the load pass passes exactly when every later load fits |
| Feasibility.CapacityPassIffLoadsFit | src/feasibility.cpp:22-43 | with non-negative sizes the pass succeeds exactly when every load is at most the capacity, so a load equal to it passes |
| Feasibility.SingleCallRoute | src/feasibility.cpp:14-112 | a route `[c, c]` gives each outcome in full: "not permitted" for a call the vehicle may not carry, "exceeds capacity" when the pickup's load or the load left after the delivery is above the capacity, then the time pass's outcome |
| Feasibility.SingleCallTimes | src/feasibility.cpp:50-112 | the time pass over `[c, c]`: a missing trip to the origin, a missed pickup upper bound, a missing handling record and a missing trip to the destination each give their error, in that order; otherwise it passes exactly when the delivery upper bound is met, the pickup waiting for the delivery window's lower bound |
| Feasability.CheckFeasability | src/feasability.cpp:6-112 | the older checker returns on every nested solution what `checkfeasibility` returns: sink skipped, permission before load before time, same errors |
| Cost.AddTo | src/cost.cpp:38-44 | adding to a cost keeps an error unchanged and otherwise adds |
| Cost.VisitCost | src/cost.cpp:27-65 | one stop: a missing trip or a missing handling record gives its error; otherwise the cost is the trip cost plus the handling cost at origin (pickup) or destination (delivery) |
| Cost.CostFromStep | src/cost.cpp:8-73 | the total is the first route's contribution, then the rest |
| Cost.Stop | src/cost.cpp:27-65 | one stop, looked up in the source's order, equals `VisitCost` |
| Cost.VehicleRouteCost | src/cost.cpp:18-66 | the vehicle route loop computes the route's cost from the home node |
| Cost.SinkCost | src/cost.cpp:67-72 | the sink loop over the set of ids sums each distinct id's penalty once, in any order |
| Cost.RouteCostOf | src/cost.cpp:18-72 | a route costs as a vehicle route below the vehicle count and as the sink otherwise |
| Cost.GetCost | src/cost.cpp:6-76 | `getCost` on a nested solution is the route-by-route sum, or the first error |
| Cost.CostNextRoute | src/cost.cpp:81-89 | one round of the compact loop cuts the next route and costs it unless it is empty |
| Cost.CostRound | src/cost.cpp:81-153 | one round of the compact loop: a failure it reports is the result of the whole loop; otherwise the running total plus the cost of the routes after it is that result |
| Cost.GetCostComp | src/cost.cpp:78-157 | the compact overload equals the nested overload on the `-1`-split form with vehicles + 1 routes |
| Cost.PenaltySumRemove | src/cost.cpp:68-71 | whichever id the sum takes first, removing it takes away its penalty |
| Cost.EmptyRouteCostsNothing | src/cost.cpp:25 | an empty route costs 0, vehicle route or sink |
| Cost.CostOfConcat | src/cost.cpp:8-73 | the cost of routes placed one after another is the sum of their costs; an error in the first part is reported first |
| Cost.RouteFailureFailsCost | src/cost.cpp:35-60 | a failing route makes the evaluation fail |
| Cost.CostFailureHasFailingRoute | src/cost.cpp:35-60 | the evaluation fails only through a failing route |
| Cost.CostFailsIffSomeRouteFails | src/cost.cpp:6-76 | the evaluation fails exactly when some route fails |
| Cost.CostReportsFirstFailure | src/cost.cpp:6-76 | the error reported is that of the first failing route |
| Cost.RouteFailureKinds | src/cost.cpp:35-60 | a route fails only on a missing trip or a missing handling record |
| Cost.CostFailureKinds | src/cost.cpp:6-76 | the only errors are a missing trip and a missing handling record |
| Cost.CostIgnoresWindowsAndCapacity | src/cost.cpp:6-76 | capacities, starting times, permissions, sizes and time windows never change the cost |
| Cost.SinkPenaltyOfDistinctIds | src/cost.cpp:67-72 | on a sink without repeats the penalty is the plain sum over the route; only the set of ids counts |
| Cost.SingleCallRouteCost | src/cost.cpp:19-65 | a route `[c, c]` costs trip home to origin, origin handling, trip origin to destination, destination handling, or reports the missing record |
| Operators.RouteMinMaxBounds | src/operators.cpp:16-21 | the inner min/max loop widens the pair just enough to cover the route |
| Operators.MinMaxFoldBounds | src/operators.cpp:15-22 | the outer loop does the same over all routes |
| Operators.MinMaxIsMinMax | src/operators.cpp:8-24 | `find_nested_minmax` is (0, 0) for no routes, the untouched (`INT_MAX`, `INT_MIN`) when all routes are empty, and otherwise the smallest and the largest id, both of which occur |
| Operators.FindNestedMinMax | src/operators.cpp:8-24 | the nested loop computes `MinMax` |
| Operators.DrawId | src/operators.cpp:36 | `ran() % (max + 1 - min) + min` lies in [min, max] |
| Operators.Redraw | src/operators.cpp:40-41 | the rejection loop keeps an id outside the ones to avoid, within range |
| Operators.RedrawLoop | src/operators.cpp:40-41 | the `while` loop returns the id and stream position of `Redraw` |
| Operators.Ex2Ids | src/operators.cpp:36-41 | the two ids of `ex2` lie in [min, max] and differ |
| Operators.Ex3Ids | src/operators.cpp:86-93 | the three ids of `ex3` lie in [min, max] and are pairwise distinct |
| Operators.TrackStep | src/operators.cpp:46-61 | one step of the scan keeps the first and last pointers right |
| Operators.ScanDone | src/operators.cpp:46-62 | after the whole walk, the pointers are the first and the last copy |
| Operators.ScanRoute | src/operators.cpp:47-61 | the inner loop over one route carries the pointers from the state before the route to the state after it |
| Operators.Locate | src/operators.cpp:46-62 | the scan finds the first and the last copy of each drawn id |
| Operators.Exchange | src/operators.cpp:72-74 | `std::swap` through two pointers trades those two positions and changes nothing else |
| Operators.LocatedEnds | src/operators.cpp:46-74 | for an id met twice, the two pointers are its two ends |
| Operators.SwapEnds | src/operators.cpp:72-74 | after the scan, the two swaps of `ex2` trade the ends of the two ids and change nothing else |
| Operators.SwapAt | src/operators.cpp:72-74 | the two swaps, told position by position: the first and last copies of `a` hold `b` and the other way round |
| Operators.RotateEnds | src/operators.cpp:131-135 | after the scan, the swaps of `ex3` rotate the ends of the three ids and change nothing else |
| Operators.RotateAt | src/operators.cpp:131-135 | the four swaps, told position by position: the copies of `a` hold `b`, those of `b` hold `c`, those of `c` hold `a` |
| Operators.Ex2 | src/operators.cpp:30-77 | below a span of 2 the input comes back unchanged; otherwise the first copies of the two ids trade places, so do the last copies, and nothing else changes |
| Operators.Ex3 | src/operators.cpp:80-138 | below a span of 3 the input comes back unchanged; otherwise the first copies of `a`, `b`, `c` take `b`, `c`, `a`, so do the last copies, and nothing else changes |
| Operators.Rotate | src/operators.cpp:131-135 | two chained swaps rotate three positions |
| Operators.RenameRoute | src/operators.cpp:44-74 | renaming keeps the route's length and renames each position |
| Operators.Relabel | src/operators.cpp:44-74 | relabelling keeps every route's length and renames each position |
| Operators.TwiceEnds | src/operators.cpp:46-62 | for an id that occurs exactly twice, its positions are exactly its ends |
| Operators.SamePositions | src/operators.cpp:44-76 | two solutions of one shape that agree everywhere are equal |
| Operators.Ex2Relabels | src/operators.cpp:44-74 | when both ids occur twice, `ex2` swaps them everywhere, leaving lengths and other positions as they were |
| Operators.Ex3Relabels | src/operators.cpp:96-135 | when all three ids occur twice, `ex3` renames a to b, b to c and c to a everywhere |
| Operators.SwapTwiceIsIdentity | src/operators.cpp:71-74 | the exchange of `ex2` applied twice is the identity |
| Operators.RotateThriceIsIdentity | src/operators.cpp:130-135 | the rotation of `ex3` applied three times with the same ids is the identity |
| Operators.PairedIdsOccurTwice | src/operators.cpp:43 | in a well-formed solution every call occurs at exactly two positions, so the pointers are never null |
| Operators.Erase | src/operators.cpp:150-151 | `std::erase` removes every copy of the id |
| Operators.EraseCounts | src/operators.cpp:150-151 | erasing keeps the count of every other id |
| Operators.InsertAt | src/operators.cpp:160-163 | `insert` puts the id at the position and adds exactly one copy |
| Operators.EraseTwice | src/operators.cpp:150-151 | erasing again changes nothing |
| Operators.EraseInsert | src/operators.cpp:157-163 | an inserted copy is erased again |
| Operators.InsertFacts | src/operators.cpp:157-163 | one insertion adds one copy and nothing else, and the last element stays last unless it is inserted at the end |
| Operators.PutBack | src/operators.cpp:154-163 | the route is the drawn route with `a` pushed on when it is empty, else inserted at `ran() % size`, and then inserted again at the next `ran() % size` of the longer route |
| Operators.ReinsertionFacts | src/operators.cpp:157-163 | the two insertions put exactly two copies into a route without `a`, keep the rest in order, and keep the last element of a non-empty route last |
| Operators.Ins1 | src/operators.cpp:141-166 | when min equals max the input comes back unchanged; otherwise every route but the drawn one loses all copies of the drawn id, and the drawn route is its erasure with the id put back at the positions the draws give |
| Operators.Placement | src/operators.cpp:150-163 | the erased routes with the drawn one reinserted are the whole `ins1` result |
| Operators.PutIntoDetermines | src/operators.cpp:141-166 | the draws decide the `ins1` result: two results for the same input and draws are equal |
| Operators.PutIntoIsReinserted | src/operators.cpp:150-163 | the `ins1` result holds the drawn id twice, only in the drawn route, and every route keeps its other ids in order |
| Operators.Reassembled | src/operators.cpp:149-163 | the drawn route put back among the erased ones leaves the drawn id only there |
| Operators.EraseEverywhere | src/operators.cpp:150-151 | the erase loop removes the id from every route |
| Operators.PairedRange | src/operators.cpp:8-24 | a well-formed solution holds only ids `0 .. n-1` |
| Operators.PairedMinMax | src/operators.cpp:8-24 | on a well-formed solution of `n` calls the min/max scan gives (0, n - 1) |
| Operators.MinMaxOfRange | src/operators.cpp:8-24 | ids within `0 .. n-1` that include both bounds give the min/max pair (0, n - 1) |
| Operators.Ins1KeepsPaired | src/operators.cpp:149-163 | `ins1` keeps a well-formed solution well formed |
| Operators.RelabelKeepsPlaced | src/operators.cpp:44-74 | renaming the calls one to one keeps every call twice in one route |
| Operators.SwapIsBijective | src/operators.cpp:71-74 | the exchange of two calls is one to one on the calls |
| Operators.RotateIsBijective | src/operators.cpp:130-135 | the rotation of three calls is one to one on the calls |
| Operators.Ex2KeepsPaired | src/operators.cpp:44-76 | on a well-formed solution `ex2` is the exchange of two calls and its result is well formed |
| Operators.Ex3KeepsPaired | src/operators.cpp:96-137 | on a well-formed solution `ex3` is a rotation of three calls and its result is well formed |
| Shuffling.Shuffled | src/heuristics.cpp:32 | the shuffle walk keeps the length and is a permutation |
| Shuffling.SwapKeepsMultiset | src/heuristics.cpp:32 | one swap keeps the multiset |
| Shuffling.Shuffle | src/heuristics.cpp:32 | the in-place walk from the back computes `Shuffled` |
| Shuffling.ShuffledIdentity | src/heuristics.cpp:32 | draws that never move anything leave the sequence as it was |
| Dealing.Iota | src/heuristics.cpp:28-31 | the `push_back` loop lists `0 .. n-1` in order |
| Dealing.IotaCounts | src/heuristics.cpp:28-31 | each call index occurs once in that list and nothing else does |
| Dealing.DealFrom | src/heuristics.cpp:34-37 | the `pop_back` drain keeps the route count, and routes at or beyond the modulus get nothing |
| Dealing.PlaceOne | src/heuristics.cpp:35 | appending one fresh id to one route keeps every id once in one route |
| Dealing.DealPlaces | src/heuristics.cpp:34-37 | dealing distinct fresh ids places each once, in one route |
| Dealing.Empties | src/heuristics.cpp:26 | `resize` leaves that many empty routes |
| Dealing.DoubledPlaced | src/heuristics.cpp:39-43 | doubling and reordering each route puts every id twice in its route |
| Dealing.DealFresh | src/heuristics.cpp:34-37 | dealing distinct ids into empty routes places each of them once, in one route |
| Dealing.Dealt | src/heuristics.cpp:28-37 | the dealt routes hold at most `n` ids and routes at or beyond the modulus stay empty |
| Dealing.RandomRoutesShape | src/heuristics.cpp:39-43 | each route is a permutation of its dealt ids doubled; routes at or beyond the modulus stay empty |
| Dealing.DealtPlaced | src/heuristics.cpp:28-37 | every call is dealt once, to one route |
| Dealing.RandomRoutesPaired | src/heuristics.cpp:24-43 | a random solution has every call exactly twice, both in one route |
| Heuristics.Pairs | src/heuristics.cpp:13-16 | the sink of the initial solution has two entries per call |
| Heuristics.PairsAt | src/heuristics.cpp:13-16 | call `k` sits at positions `2k` and `2k + 1`: the route is `0,0,1,1,...` |
| Heuristics.InitialSolution | src/heuristics.cpp:9-16 | vehicles + 1 routes, all empty but the last, which is `0,0,1,1,...,n-1,n-1` |
| Heuristics.GenInitialSolution | src/heuristics.cpp:8-18 | the `push_back` loop builds `InitialSolution` |
| Heuristics.PairsCounts | src/heuristics.cpp:13-16 | each call occurs twice in the sink and nothing else occurs |
| Heuristics.InitialPaired | src/heuristics.cpp:8-18 | the initial solution is well formed |
| Heuristics.InitialFeasible | src/heuristics.cpp:52 | the initial solution is feasible, since every vehicle route is empty |
| Heuristics.InitialCost | src/heuristics.cpp:52-53 | the initial solution costs the penalty of every call, each counted once |
| Heuristics.EmptyRoutesCostNothing | src/cost.cpp:25 | routes that are all empty cost nothing |
| Heuristics.CallIndices | src/heuristics.cpp:28-31 | the `push_back` loop lists `0 .. n-1` |
| Heuristics.DealCalls | src/heuristics.cpp:34-37 | the `pop_back` drain computes `DealFrom` |
| Heuristics.DoubleAndShuffle | src/heuristics.cpp:39-43 | each route is doubled, then shuffled with its own draws |
| Heuristics.GenRandSolution | src/heuristics.cpp:20-46 | `genRandSolution` deals over all vehicles + 1 routes and builds `RandomRoutes` |
| Heuristics.PairedValid | src/heuristics.cpp:56-59 | a well-formed solution holds only call indices, so the evaluators can index `calls` |
| Heuristics.Consider | src/heuristics.cpp:57-64 | a candidate replaces the best exactly when it is feasible and its cost is nonzero and strictly lower, and then the cost is its cost |
| Heuristics.TimedRouteHasCost | src/cost.cpp:27-65 | where the time pass of a vehicle route gets through, the cost loop finds every trip and handling record it looks up |
| Heuristics.PassingRouteHasCost | src/cost.cpp:18-66 | a vehicle route that passes the feasibility check has a cost |
| Heuristics.FeasibleHasCost | src/heuristics.cpp:57-59 | a feasible candidate's `getCost` holds a value, so `val_or_max()` is its cost and never a fallback |
| Heuristics.ImproveNeverWorse | src/heuristics.cpp:55-65 | the tracked cost never goes up |
| Heuristics.ImproveTracksCost | src/heuristics.cpp:52-65 | the tracked cost always equals `getCost(best).val_or_max()` |
| Heuristics.ImproveStep | src/heuristics.cpp:55-65 | one round of the loop extends the fold by one candidate |
| Heuristics.ImproveKeepsPaired | src/heuristics.cpp:55-65 | a well-formed start and well-formed candidates give a well-formed result |
| Heuristics.ImproveOutcome | src/heuristics.cpp:55-65 | the result is the start, or a feasible candidate of nonzero cost below the start's, with that cost |
| Heuristics.ImproveIsLeast | src/heuristics.cpp:55-65 | the cost kept is at most that of every feasible candidate of nonzero cost |
| Heuristics.NothingImprovesKeepsStart | src/heuristics.cpp:52-65 | when no candidate qualifies, the search returns the initial solution |
| Heuristics.RandomCandidates | src/heuristics.cpp:56 | the blind search's candidates are the random solutions of the successive draws |
| Heuristics.RandomCandidatesPaired | src/heuristics.cpp:56 | every random candidate is well formed |
| Heuristics.BlindRandomSearch | src/heuristics.cpp:48-69 | `blindRandomSearch` returns the fold of the random candidates from the initial solution |
| Heuristics.BlindStep | src/heuristics.cpp:56-64 | one loop body tries the random solution of the next draws; the best and its cost it returns are the fold over the random solutions of the draws so far |
| Heuristics.BlindSearchPaired | src/heuristics.cpp:48-69 | the blind search returns a well-formed solution |
| Heuristics.OccursTwice | src/operators.cpp:43 | a call of a well-formed solution occurs at two positions |
| Heuristics.Ex2Ready | src/heuristics.cpp:89 | on a well-formed solution the span is `n - 1` and `ex2` is defined |
| Heuristics.Ex3Ready | src/heuristics.cpp:89 | the same for `ex3` |
| Heuristics.Ins1Ready | src/heuristics.cpp:89 | the same for `ins1` |
| Heuristics.Ex2Applied | src/heuristics.cpp:89 | what `ex2` returns is the chosen move and keeps the solution well formed |
| Heuristics.Ex3Applied | src/heuristics.cpp:89 | the same for `ex3` |
| Heuristics.Neighbour | src/heuristics.cpp:88-89 | `ex2` for a pick up to 40, `ex3` up to 70 and `ins1` above, as the single-precision comparisons decide, is applied to the best solution; the result is the move the draws determine and is well formed |
| Heuristics.FollowsMovesStep | src/heuristics.cpp:86-98 | a further candidate made by the next move keeps the trail of moves |
| Heuristics.LocalRound | src/heuristics.cpp:86-98 | one round keeps the fold and the trail |
| Heuristics.LocalStep | src/heuristics.cpp:86-98 | one loop body applies the chosen operator to the best solution and extends the fold |
| Heuristics.LocalSearch | src/heuristics.cpp:71-103 | `localSearch` returns the fold of its candidates from the initial solution; each candidate is the chosen operator applied to the best solution before it; the result is well formed |
| Heuristics.SearchOutcome | src/heuristics.cpp:52-65 | both searches return the initial solution or a feasible candidate whose nonzero cost is strictly below the initial one |
| Common.SingleInitial | src/common.h:7-11 | vehicles + 1 routes, all empty but the last, which is `0,1,...,n-1` |
| Common.GenInitialSolution | src/common.h:6-13 | the older `push_back` loop builds `SingleInitial` |
| Common.SingleInitialPlaced | src/common.h:10-11 | each call occurs once, in the last route |
| Common.IotaIds | src/common.h:10-11 | the ids of the last route are the calls |
| Common.SingleValid | src/common.h:6-13 | the older initial solution holds only call indices |
| Common.SingleInitialCost | src/common.h:6-13 | the older initial solution costs the penalty of every call once, the same as the newer one |
| Common.GenRandSolution | src/common.h:15-40 | the older random solution deals only to routes `0 .. vSize-1`, so the sink stays empty |
| Common.RandomPaired | src/common.h:28-37 | every call appears twice, both in one vehicle route, and the sink is empty |
| Driver.PowiAdd | src/main.cpp:25-29 | exponents add |
| Driver.PowiGrows | src/main.cpp:25-29 | a power of a base of at least 2 is positive and grows with the exponent |
| Driver.TruncDivRounds | src/main.cpp:42-43 | C++ `/` rounds toward zero: the remainder is smaller than the divisor and has the dividend's sign |
| Driver.TruncDivExact | src/main.cpp:43 | when the divisor divides the dividend, the quotient is exact |
| Driver.GeomSumClosed | src/main.cpp:40-45 | `(1 - r)(1 + r + ... + r^(k-1)) == 1 - r^k` |
| Driver.AvailableIsPartialSum | src/main.cpp:40-45 | `findAvailableTime` is the first instance's share times `1 + R + ... + R^i` |
| Driver.HalvesDivide | src/main.cpp:42 | dividing `-2x` by `-2g` with C++ `/` gives `x / g` |
| Driver.FirstShareOfThree | src/main.cpp:42 | with `R = 3` the first share is the budget divided by `1 + 3 + ... + 3^(n-1)`, rounded down |
| Driver.BudgetOfThree | src/main.cpp:40-45 | with `R = 3` instance `i`'s budget is that share times `1 + 3 + ... + 3^i` |
| Driver.AvailableTimeStep | src/main.cpp:40-45 | instance `i` gets the share times `3^i` more than instance `i - 1` |
| Driver.AvailableTimeGrows | src/main.cpp:40-45 | with `R = 3` budgets never shrink from one instance to the next |
| Driver.AvailableTimeMonotone | src/main.cpp:87-90 | with `R = 3` the budgets are non-decreasing in the instance index |
| Driver.LastWithinBudget | src/main.cpp:87-90 | the last instance's budget is between 0 and the whole budget |
| Driver.BestIsFirstMinimum | src/main.cpp:181-185 | the best cost is the smallest cost reported, and the solution kept is that of the first report with it |
| Driver.Tally.constructor | src/main.cpp:138-141 | before any worker: `INT_MAX`, an empty solution, zero totals |
| Driver.Tally.Record | src/main.cpp:171-189 | a strictly smaller cost replaces the best; the cost and time are added to the totals; a cost that failed changes nothing |
| Driver.Collect | src/main.cpp:138-189 | after the workers' reports in lock order, the tally is the first minimum and the sums |

## Left out

- Instance.ValOrMax: `Result` in `problem.h` has no `val_or_max`. The only definition in `cost.h` belongs to the release build's optional, and it dereferences without a fallback. The `INT_MAX` fallback is inferred from the name. Heuristics.FeasibleHasCost shows that the searches never reach it: they take `val_or_max()` only of the initial solution's cost, which holds a value (Heuristics.InitialCost), and of a feasible candidate's cost.
- Instance.ValidProblem: every entry of every vehicle's `availableCalls` must index a call. Without it, `calls[callIndex]` in `feasibility.cpp` (lines 27 and 147) and in `cost.cpp` (lines 27, 69, 108 and 150) is undefined behaviour. The older checker's `.at()` in `feasability.cpp` (lines 26 and 58) throws `std::out_of_range` instead. The loader's `stoi<uint8_t>(s) - 1` checks nothing. The predicate is stronger than the source needs: only ids that occur on a route and pass the permission check are indexed. An instance that lists an out-of-range call for a vehicle that never carries it is excluded all the same.
- Cost.ValidRoutes: every id on every route must index a call. Without it, the same `calls[...]` reads in `cost.cpp` are undefined behaviour. The cost evaluator has no permission check to stop an out-of-range id first.
- Integer width: costs, times, loads and sums are unbounded integers. Overflow of `int` is undefined behaviour in the source and is not modelled. The same holds for `long long` in the driver.
- The compact overloads walk a buffer with `routeStart`. Their model requires at least as many separators as vehicles, because the source reads past the buffer otherwise.
- `ex2` and `ex3` dereference null pointers when a drawn id is absent, and `find_nested_minmax` overflows (`INT_MIN - INT_MAX`) on routes that are all empty. Both are preconditions (`Ex2Defined`, `Ex3Defined`, `SpanFits`).
- `ins1` on a non-empty list of routes that are all empty: `find_nested_minmax` leaves its sentinels, and `max + 1 - min` overflows. `Ins1Defined` excludes that case. The empty route list is handled: the pair is (0, 0), and the input comes back unchanged.
- Heuristics.LocalSearch: requires at least one call. With no calls, `find_nested_minmax` meets only empty routes and the span computation overflows.
- Common.GenRandSolution: requires at least one vehicle, since `ran() % vSize` divides by zero otherwise.
- Randomness: the engine's outputs are inputs. A `std::shuffle` is modelled as a swap walk from the back driven by explicit draws. It is a permutation, which is what the code relies on, but not libstdc++'s exact sequence.
- Operators.Ex2: the rejection loops are modelled over a finite stream of draws. The precondition asks that the stream yields the ids, where the source would keep drawing. Operators.Ex3 is modelled the same way.
- Heuristics.LocalSearch: the candidates are a ghost output, because the source does not keep them.
- The vehicle-call records are a map keyed by (vehicle, call). The vector in `problem.h` is stale, and the code uses a map.
- Error messages: failures are a datatype. The message texts are written out in `Instance.Message` but play no part in a contract.
- `load`, file and console I/O, argv handling, rendering and output files are not modelled. `improvementPercent` (floating point) is not modelled either.
- Threads, promises, the mutex and chrono timing are not modelled. The workers' reports are taken in lock order, and running times are inputs.
- Driver.Collect: `getFeasibleCost`, `SolutionCached`, `fromNestedList` and the adaptive and cached searches are only declared in the repository. They are not part of this model. A worker's cost is an input, `None` when it could not be computed. As in a debug build, such a report changes nothing. `main`'s `return 1` is not modelled.
- Driver.AvailableTimeMonotone: proved for `R = 3` and a non-negative budget only, which is how the driver calls it. Driver.LastWithinBudget has the same restriction.
- The pickup step waits for the delivery window's lower bound, not the pickup window's, and it never checks the pickup window's lower bound. The model does what the code does.
