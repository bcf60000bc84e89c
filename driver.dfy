/** The parts of the driver that compute: integer powers, the time budget of
    each instance from a geometric series, and the tally of the workers'
    results (best cost and solution, total cost and time). */
module Driver {
  import opened Instance
  import opened Solutions

  /// Powers

  /** `powi`: 1 for a non-positive exponent, else `n` times the power one
      lower. */
  function Powi(n: int, e: int): int
    decreases if e <= 0 then 0 else e
  {
    if e <= 0 then 1 else n * Powi(n, e - 1)
  }

  /** Exponents add: `n^(a+b) == n^a * n^b`. */
  lemma {:induction false} PowiAdd(n: int, a: nat, b: nat)
    ensures Powi(n, a + b) == Powi(n, a) * Powi(n, b)
    decreases b
  {
    if b > 0 {
      PowiAdd(n, a, b - 1);
      calc {
        Powi(n, a + b);
        n * Powi(n, a + b - 1);
        n * (Powi(n, a) * Powi(n, b - 1));
        Powi(n, a) * (n * Powi(n, b - 1));
      }
    }
  }

  /** A power of a base of at least 2 is positive and grows with the
      exponent. */
  lemma {:induction false} PowiGrows(n: int, e: nat)
    requires 2 <= n
    ensures 1 <= Powi(n, e) < Powi(n, e + 1)
  {
    if e > 0 {
      PowiGrows(n, e - 1);
    }
  }

  /// Integer division as C++ does it

  function Abs(x: int): nat {
    if x < 0 then -x else x
  }

  /** C++ `/`: the quotient of the magnitudes, negated when the signs
      differ. */
  function TruncDiv(a: int, b: int): int
    requires b != 0
  {
    var q := Abs(a) / Abs(b);
    if (a < 0) == (b < 0) then q else -q
  }

  /** The quotient is rounded toward zero: the remainder is smaller than
      the divisor and takes the sign of the dividend. */
  lemma TruncDivRounds(a: int, b: int)
    requires b != 0
    ensures var rem := a - b * TruncDiv(a, b);
            Abs(rem) < Abs(b) && (rem == 0 || (rem < 0) == (a < 0))
  {
  }

  /** When `b` divides `a`, the quotient is exact. */
  lemma TruncDivExact(a: int, b: int, k: int)
    requires b != 0 && a == b * k
    ensures TruncDiv(a, b) == k
  {
    var q := TruncDiv(a, b);
    TruncDivRounds(a, b);
    assert Abs(b * (k - q)) < Abs(b);
    if k - q > 0 {
      assert b * (k - q) == b * (k - q - 1) + b;
      AbsGrows(b, k - q);
    } else if k - q < 0 {
      assert b * (q - k) == -(b * (k - q));
      AbsGrows(b, q - k);
    }
  }

  /** A non-zero multiple of `b` is at least as large as `b`. */
  lemma {:induction false} AbsGrows(b: int, m: int)
    requires 0 < m
    ensures Abs(b) <= Abs(b * m)
    decreases m
  {
    if m > 1 {
      AbsGrows(b, m - 1);
      assert b * m == b * (m - 1) + b;
    }
  }

  /// The time budget of each instance

  /** `1 + r + ... + r^(k-1)`. */
  function GeomSum(r: int, k: int): int
    decreases if k <= 0 then 0 else k
  {
    if k <= 0 then 0 else GeomSum(r, k - 1) + Powi(r, k - 1)
  }

  /** The closed form of the sum: `(1 - r) * (1 + ... + r^(k-1)) == 1 - r^k`. */
  lemma {:induction false} GeomSumClosed(r: int, k: nat)
    ensures (1 - r) * GeomSum(r, k) == 1 - Powi(r, k)
  {
    if k > 0 {
      GeomSumClosed(r, k - 1);
      calc {
        (1 - r) * GeomSum(r, k);
        (1 - r) * GeomSum(r, k - 1) + (1 - r) * Powi(r, k - 1);
        1 - Powi(r, k - 1) + Powi(r, k - 1) - r * Powi(r, k - 1);
      }
    }
  }

  /** The share `a` of the first instance: `((1 - R) * Seconds) / (1 - R^n)`. */
  function FirstShare(seconds: int, ratio: int, n: int): int
    requires 1 - Powi(ratio, n) != 0
  {
    TruncDiv((1 - ratio) * seconds, 1 - Powi(ratio, n))
  }

  /** `findAvailableTime<Seconds, R>(n, i)`: `a * (1 - R^(i+1)) / (1 - R)`,
      with both divisions rounding toward zero. */
  function FindAvailableTime(seconds: int, ratio: int, n: int, i: int): int
    requires ratio != 1 && 1 - Powi(ratio, n) != 0
  {
    var a := FirstShare(seconds, ratio, n);
    TruncDiv(a * (1 - Powi(ratio, i + 1)), 1 - ratio)
  }

  /** The second division is exact: the budget of instance `i` is the
      share of the first instance times `1 + R + ... + R^i`, the sum of the
      first `i + 1` terms of the series. */
  lemma AvailableIsPartialSum(seconds: int, ratio: int, n: int, i: int)
    requires ratio != 1 && 1 - Powi(ratio, n) != 0 && -1 <= i
    ensures FindAvailableTime(seconds, ratio, n, i) == FirstShare(seconds, ratio, n) * GeomSum(ratio, i + 1)
  {
    var a, p, g := FirstShare(seconds, ratio, n), Powi(ratio, i + 1), GeomSum(ratio, i + 1);
    GeomSumClosed(ratio, i + 1);
    Scaled(a, 1 - ratio, g, 1 - p);
    TruncDivExact(a * (1 - p), 1 - ratio, a * g);
  }

  /** `r * g == d` scaled by `a`. */
  lemma Scaled(a: int, r: int, g: int, d: int)
    requires r * g == d
    ensures a * d == r * (a * g)
  {
  }

  /** The quotient and remainder of a division by a positive number are
      the only ones. */
  lemma DivUnique(x: int, d: int, q: int, r: int)
    requires 0 < d && x == d * q + r && 0 <= r < d
    ensures x / d == q
  {
    var q', r' := x / d, x % d;
    assert x == d * q' + r' && 0 <= r' < d;
    if q' < q {
      assert d * (q - q') == r' - r;
      AbsGrows(d, q - q');
    } else if q' > q {
      assert d * (q' - q) == r - r';
      AbsGrows(d, q' - q);
    }
  }

  /** Dividing `-2x` by `-2g` rounds `x / g` down, as both are negative. */
  lemma HalvesDivide(x: nat, g: int)
    requires 1 <= g
    ensures TruncDiv(-2 * x, -2 * g) == x / g
  {
    var q, r := x / g, x % g;
    assert 2 * x == 2 * g * q + 2 * r by {
      assert x == g * q + r;
    }
    DivUnique(2 * x, 2 * g, q, 2 * r);
    assert Abs(-2 * x) == 2 * x && Abs(-2 * g) == 2 * g;
  }

  /** With `R = 3` and a non-negative budget the share of the first
      instance is the budget divided by `1 + 3 + ... + 3^(n-1)`, rounded
      down. */
  lemma FirstShareOfThree(seconds: nat, n: nat)
    requires 1 <= n
    ensures GeomSum(3, n) >= 1 && 1 - Powi(3, n) != 0
    ensures FirstShare(seconds, 3, n) == seconds / GeomSum(3, n)
  {
    MorePowersOfThree(n);
    GeomSumClosed(3, n);
    HalvesDivide(seconds, GeomSum(3, n));
  }

  /** The sum `1 + 3 + ... + 3^(n-1)` is positive once `n >= 1`. */
  lemma {:induction false} MorePowersOfThree(n: nat)
    requires 1 <= n
    ensures GeomSum(3, n) >= 1
  {
    if n > 1 {
      MorePowersOfThree(n - 1);
      PowiGrows(3, n - 2);
    }
  }

  /** The budgets with `R = 3` never shrink from one instance to the next:
      instance `i` gets `a * 3^i` more than instance `i - 1`. */
  lemma AvailableTimeGrows(seconds: nat, n: nat, i: nat)
    requires 1 <= n
    ensures 1 - Powi(3, n) != 0
    ensures 0 <= FindAvailableTime(seconds, 3, n, i - 1) <= FindAvailableTime(seconds, 3, n, i)
  {
    AvailableTimeStep(seconds, n, i);
    PowiGrows(3, i);
  }

  /** Instance `i` gets `a * 3^i` more than instance `i - 1`, `a` being the
      share of the first instance. */
  lemma AvailableTimeStep(seconds: nat, n: nat, i: nat)
    requires 1 <= n
    ensures 1 - Powi(3, n) != 0 && GeomSum(3, n) >= 1 && 0 <= seconds / GeomSum(3, n)
    ensures 0 <= FindAvailableTime(seconds, 3, n, i - 1)
    ensures FindAvailableTime(seconds, 3, n, i) - FindAvailableTime(seconds, 3, n, i - 1)
            == (seconds / GeomSum(3, n)) * Powi(3, i)
  {
    FirstShareOfThree(seconds, n);
    var a := seconds / GeomSum(3, n);
    BudgetOfThree(seconds, n, i);
    BudgetOfThree(seconds, n, i - 1);
    PartialSumStep(a, i);
  }

  /** With `R = 3` the budget of instance `i` is the budget divided by
      `1 + 3 + ... + 3^(n-1)`, rounded down, times `1 + 3 + ... + 3^i`. */
  lemma BudgetOfThree(seconds: nat, n: nat, i: int)
    requires 1 <= n && -1 <= i
    ensures GeomSum(3, n) >= 1 && 1 - Powi(3, n) != 0
    ensures FindAvailableTime(seconds, 3, n, i) == (seconds / GeomSum(3, n)) * GeomSum(3, i + 1)
  {
    FirstShareOfThree(seconds, n);
    AvailableIsPartialSum(seconds, 3, n, i);
  }

  /** One more term of the series scaled by a non-negative `a`. */
  lemma PartialSumStep(a: int, i: nat)
    requires 0 <= a
    ensures 0 <= a * GeomSum(3, i) && 0 <= a * Powi(3, i)
    ensures a * GeomSum(3, i + 1) - a * GeomSum(3, i) == a * Powi(3, i)
  {
    PowiGrows(3, i);
    GeomSumNonNegative(i);
    NonNegativeSplit(a, GeomSum(3, i), Powi(3, i));
  }

  /** `a * (g + p)` is `a * g` plus `a * p`, and neither part is negative
      when no factor is. */
  lemma NonNegativeSplit(a: int, g: int, p: int)
    requires 0 <= a && 0 <= g && 0 <= p
    ensures a * (g + p) == a * g + a * p && 0 <= a * g && 0 <= a * p
  {
  }

  /** The partial sums of powers of three are non-negative. */
  lemma {:induction false} GeomSumNonNegative(k: nat)
    ensures 0 <= GeomSum(3, k)
  {
    if k > 0 {
      GeomSumNonNegative(k - 1);
      PowiGrows(3, k - 1);
    }
  }

  /** The budgets with `R = 3` are non-decreasing in the instance index. */
  lemma {:induction false} AvailableTimeMonotone(seconds: nat, n: nat, i: nat, j: nat)
    requires 1 <= n && i <= j
    ensures 1 - Powi(3, n) != 0
    ensures FindAvailableTime(seconds, 3, n, i) <= FindAvailableTime(seconds, 3, n, j)
    decreases j - i
  {
    AvailableTimeGrows(seconds, n, j);
    if i < j {
      AvailableTimeMonotone(seconds, n, i, j - 1);
    }
  }

  /** The budget of the last of `n` instances, which is the largest, is
      within the whole budget. */
  lemma LastWithinBudget(seconds: nat, n: nat)
    requires 1 <= n
    ensures 1 - Powi(3, n) != 0
    ensures 0 <= FindAvailableTime(seconds, 3, n, n - 1) <= seconds
  {
    FirstShareOfThree(seconds, n);
    AvailableTimeGrows(seconds, n, n - 1);
    AvailableIsPartialSum(seconds, 3, n, n - 1);
    RoundedDown(seconds, GeomSum(3, n));
  }

  /** Rounding down and multiplying back never exceeds the start. */
  lemma RoundedDown(x: nat, g: int)
    requires 1 <= g
    ensures 0 <= (x / g) * g <= x
  {
    assert x == g * (x / g) + x % g;
  }

  /// The tally of the workers' results

  /** What one worker hands back: the cost of its best solution (`None`
      when that cost could not be computed), its running time in
      milliseconds, and the solution. */
  datatype Report = Report(cost: Option<int>, ms: int, solution: Solution)

  /** The best cost and solution after the reports in order: a report
      replaces them only with a strictly smaller cost, so the first of
      equal costs stays. */
  function Best(reports: seq<Report>): (int, Solution)
  {
    if reports == [] then (INT_MAX, [])
    else
      var before := Best(reports[..|reports| - 1]);
      var r := reports[|reports| - 1];
      if r.cost.Some? && r.cost.value < before.0 then (r.cost.value, r.solution) else before
  }

  /** The sum of the costs that could be computed. */
  function TotalCost(reports: seq<Report>): int {
    if reports == [] then 0
    else
      var r := reports[|reports| - 1];
      TotalCost(reports[..|reports| - 1]) + (if r.cost.Some? then r.cost.value else 0)
  }

  /** The sum of the running times of the reports whose cost could be
      computed. */
  function TotalTime(reports: seq<Report>): int {
    if reports == [] then 0
    else
      var r := reports[|reports| - 1];
      TotalTime(reports[..|reports| - 1]) + (if r.cost.Some? then r.ms else 0)
  }

  /** The best cost is the smallest cost reported (or `INT_MAX` when
      nothing reported is smaller), and the solution kept is the one of the
      first report with that cost; with nothing below `INT_MAX` the
      solution stays empty. */
  lemma {:induction false} BestIsFirstMinimum(reports: seq<Report>)
    ensures var b := Best(reports);
            && b.0 <= INT_MAX
            && (forall i :: 0 <= i < |reports| && reports[i].cost.Some? ==> b.0 <= reports[i].cost.value)
            && (b.0 == INT_MAX ==> b.1 == [])
            && (b.0 < INT_MAX ==>
                  exists i :: 0 <= i < |reports| && reports[i].cost == Some(b.0) && reports[i].solution == b.1
                    && forall j :: 0 <= j < i && reports[j].cost.Some? ==> b.0 < reports[j].cost.value)
  {
    if reports != [] {
      var rest := reports[..|reports| - 1];
      var r := reports[|reports| - 1];
      BestIsFirstMinimum(rest);
      var before := Best(rest);
      var b := Best(reports);
      assert forall i :: 0 <= i < |rest| ==> rest[i] == reports[i];
      if r.cost.Some? && r.cost.value < before.0 {
        assert reports[|reports| - 1].cost == Some(b.0);
      } else if b.0 < INT_MAX {
        var i :| 0 <= i < |rest| && rest[i].cost == Some(before.0) && rest[i].solution == before.1
                 && forall j :: 0 <= j < i && rest[j].cost.Some? ==> before.0 < rest[j].cost.value;
        assert reports[i] == rest[i];
      }
    }
  }

  /** The captured variables of the `loop` lambda, which every worker
      updates in turn under the lock. */
  class Tally {
    var bestCost: int
    var bestSolution: Solution
    var totalCost: int
    var totalTime: int

    /** Before any worker: `INT_MAX`, an empty solution, and zero totals. */
    constructor ()
      ensures bestCost == INT_MAX && bestSolution == [] && totalCost == 0 && totalTime == 0
    {
      bestCost := INT_MAX;
      bestSolution := [];
      totalCost := 0;
      totalTime := 0;
    }

    /** One worker's report: a cost that could not be computed changes
        nothing; otherwise a strictly smaller cost replaces the best, and
        the cost and time are added to the totals. */
    method Record(r: Report)
      modifies this
      ensures r.cost.Some? && r.cost.value < old(bestCost) ==> bestCost == r.cost.value && bestSolution == r.solution
      ensures !(r.cost.Some? && r.cost.value < old(bestCost)) ==> bestCost == old(bestCost) && bestSolution == old(bestSolution)
      ensures r.cost.Some? ==> totalCost == old(totalCost) + r.cost.value && totalTime == old(totalTime) + r.ms
      ensures r.cost.None? ==> totalCost == old(totalCost) && totalTime == old(totalTime)
    {
      if r.cost.None? {
        return;
      }
      var cost := r.cost.value;
      if cost < bestCost {
        bestCost := cost;
        bestSolution := r.solution;
      }
      totalCost := totalCost + cost;
      totalTime := totalTime + r.ms;
    }
  }

  /** The workers' reports, taken in the order they get the lock: the
      tally ends as the best and the totals of the reports. */
  method Collect(reports: seq<Report>) returns (bestCost: int, bestSolution: Solution, totalCost: int, totalTime: int)
    ensures (bestCost, bestSolution) == Best(reports)
    ensures totalCost == TotalCost(reports) && totalTime == TotalTime(reports)
  {
    var tally := new Tally();
    for k := 0 to |reports|
      invariant (tally.bestCost, tally.bestSolution) == Best(reports[..k])
      invariant tally.totalCost == TotalCost(reports[..k]) && tally.totalTime == TotalTime(reports[..k])
    {
      assert reports[..k + 1][..k] == reports[..k];
      tally.Record(reports[k]);
    }
    assert reports[..|reports|] == reports;
    bestCost, bestSolution, totalCost, totalTime := tally.bestCost, tally.bestSolution, tally.totalCost, tally.totalTime;
  }
}
