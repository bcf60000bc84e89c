/** The older feasibility checker for nested solutions. Its three passes per
    route (permission, load, time) are the same, in the same order and with
    the same failures, as those of the newer checker, so the model runs
    `Feasibility.CheckRoute` for each route instead of writing them out a
    second time; the equality with `checkfeasibility` comes from that. The
    only difference is that this one reads the vehicles and the calls through
    bounds-checked `.at()`, which throws `std::out_of_range` when a permitted
    id does not index a call; `ValidProblem` rules that case out. */
module Feasability {
  import opened Instance
  import opened Solutions
  import Feasibility

  /** `checkFeasability`: the first failing vehicle route, the sink and
      every other index beyond the vehicles skipped. */
  method CheckFeasability(p: Problem, solution: Solution) returns (r: Option<Failure>)
    requires ValidProblem(p)
    ensures r == Feasibility.Feasibility(p, solution)
  {
    assert solution[0..] == solution;
    for i := 0 to |solution|
      invariant Feasibility.Feasibility(p, solution) == Feasibility.FeasibilityFrom(p, solution[i..], i)
    {
      assert solution[i..][0] == solution[i] && solution[i..][1..] == solution[i + 1..];
      if |p.vehicles| <= i {
        continue;
      }
      var outcome := Feasibility.CheckRoute(p, i, solution[i]);
      if outcome.Some? {
        return outcome;
      }
    }
    return None;
  }
}
