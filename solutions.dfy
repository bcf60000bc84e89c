/** Solutions: one route of call ids per vehicle plus a final outsourcing
    ("sink") route. In a route the first occurrence of a call id is its pickup
    and the next one its delivery. The compact form is one flat sequence with
    `-1` between routes. */
module Solutions {

  type Route = seq<int>
  type Solution = seq<Route>
  type SolutionComp = seq<int>

  const SEPARATOR: int := -1

  /** How often `x` occurs over all routes. */
  function Occurrences(s: Solution, x: int): nat {
    if s == [] then 0 else Occurrences(s[..|s| - 1], x) + multiset(s[|s| - 1])[x]
  }

  /** The call ids `0 .. n-1`. */
  ghost function Ids(n: nat): (r: set<int>)
    ensures forall x :: x in r <==> 0 <= x < n
  {
    if n == 0 then {} else Ids(n - 1) + {n - 1}
  }

  /** Every id of `ids` sits in exactly one route, `m` times there, and no
      other value occurs. */
  ghost predicate Placed(s: Solution, ids: set<int>, m: nat) {
    (forall r, k :: 0 <= r < |s| && 0 <= k < |s[r]| ==> s[r][k] in ids && multiset(s[r])[s[r][k]] == m)
    && (forall x :: x in ids ==> exists r :: 0 <= r < |s| && x in s[r])
    && (forall r1, r2, x :: 0 <= r1 < |s| && 0 <= r2 < |s| && x in s[r1] && x in s[r2] ==> r1 == r2)
  }

  /** A solution whose routes are all empty but the last, which holds every
      id of `ids` `m` times and nothing else, places `ids` `m` times. */
  lemma LastRoutePlaced(s: Solution, ids: set<int>, m: nat)
    requires 0 < m && s != [] && forall r :: 0 <= r < |s| - 1 ==> s[r] == []
    requires forall x :: multiset(s[|s| - 1])[x] == if x in ids then m else 0
    ensures Placed(s, ids, m)
  {
    var last := |s| - 1;
    forall r, k | 0 <= r < |s| && 0 <= k < |s[r]|
      ensures s[r][k] in ids && multiset(s[r])[s[r][k]] == m
    {
      var y := s[r][k];
      assert r == last && y in multiset(s[last]);
      assert multiset(s[|s| - 1])[y] == if y in ids then m else 0;
    }
    forall x | x in ids
      ensures exists r :: 0 <= r < |s| && x in s[r]
    {
      assert x in multiset(s[last]);
    }
    forall r1, r2, x | 0 <= r1 < |s| && 0 <= r2 < |s| && x in s[r1] && x in s[r2]
      ensures r1 == r2
    {
    }
  }

  /** A set is empty or has a member to pick. */
  lemma EmptyOrMember(ids: set<int>)
    ensures ids == {} || exists x :: x in ids
  {
    if forall x :: x !in ids {
      assert ids == {};
    }
  }

  /** The well-formed shape of a solution: every call `0 .. n-1` occurs exactly
      twice, both times in the same route, and nothing else occurs. */
  ghost predicate Paired(s: Solution, n: nat) {
    Placed(s, Ids(n), 2)
  }

  lemma {:induction false} OccurrencesAbsent(s: Solution, x: int)
    requires forall r :: 0 <= r < |s| ==> x !in s[r]
    ensures Occurrences(s, x) == 0
  {
    if s != [] {
      OccurrencesAbsent(s[..|s| - 1], x);
    }
  }

  lemma {:induction false} OccurrencesInOneRoute(s: Solution, x: int, home: nat)
    requires home < |s|
    requires forall r :: 0 <= r < |s| && r != home ==> x !in s[r]
    ensures Occurrences(s, x) == multiset(s[home])[x]
  {
    var init := s[..|s| - 1];
    if home == |s| - 1 {
      OccurrencesAbsent(init, x);
    } else {
      OccurrencesInOneRoute(init, x, home);
      assert x !in s[|s| - 1];
    }
  }

  /** In a placed solution the total count of an id is its per-route count. */
  lemma PlacedOccurrences(s: Solution, ids: set<int>, m: nat, x: int)
    requires Placed(s, ids, m)
    ensures Occurrences(s, x) == if x in ids then m else 0
  {
    if x in ids {
      var home :| 0 <= home < |s| && x in s[home];
      OccurrencesInOneRoute(s, x, home);
      var k :| 0 <= k < |s[home]| && s[home][k] == x;
    } else {
      forall r, k | 0 <= r < |s| && 0 <= k < |s[r]|
        ensures s[r][k] != x
      {
        assert s[r][k] in ids;
      }
      OccurrencesAbsent(s, x);
    }
  }

  /// The compact form

  /** The number of separators in a compact solution. */
  function SepCount(c: SolutionComp): nat {
    if c == [] then 0
    else
      SepCount(c[1..]) + (if c[0] == SEPARATOR then 1 else 0)
  }

  /** `std::find(begin, end, -1)`: index of the first separator, or the length. */
  function SepIndex(c: SolutionComp): (e: nat)
    ensures e <= |c| && SEPARATOR !in c[..e]
    ensures e < |c| ==> c[e] == SEPARATOR
  {
    if c == [] then 0 else if c[0] == SEPARATOR then 0 else 1 + SepIndex(c[1..])
  }

  lemma {:induction false} SepCountAfterFirst(c: SolutionComp)
    ensures SepIndex(c) == |c| ==> SepCount(c) == 0
    ensures SepIndex(c) < |c| ==> SepCount(c[SepIndex(c) + 1..]) + 1 == SepCount(c)
  {
    if c != [] && c[0] != SEPARATOR {
      SepCountAfterFirst(c[1..]);
      if SepIndex(c) < |c| {
        assert c[1..][SepIndex(c[1..]) + 1..] == c[SepIndex(c) + 1..];
      }
    }
  }

  /** The first `k` routes of a compact solution, cut at its separators. */
  function ToNested(c: SolutionComp, k: nat): (s: Solution)
    requires k <= SepCount(c) + 1
    ensures |s| == k
    decreases k
  {
    if k == 0 then []
    else
      var e := SepIndex(c);
      if k == 1 then [c[..e]]
      else
        SepCountAfterFirst(c);
        [c[..e]] + ToNested(c[e + 1..], k - 1)
  }

  /** The first route of `ToNested` ends at the first separator; the rest are
      cut from what follows it. */
  lemma ToNestedStep(c: SolutionComp, k: nat)
    requires 1 <= k <= SepCount(c) + 1
    ensures ToNested(c, k)[0] == c[..SepIndex(c)]
    ensures 2 <= k ==> SepIndex(c) < |c| && k - 1 <= SepCount(c[SepIndex(c) + 1..]) + 1
                       && ToNested(c, k)[1..] == ToNested(c[SepIndex(c) + 1..], k - 1)
  {
    SepCountAfterFirst(c);
  }

  /** The routes of `solution` still ahead of the compact loop when it has
      reached `routeStart` with `k` routes left to cut. */
  ghost predicate RoutesAhead(solution: SolutionComp, routeStart: nat, k: nat, ahead: Solution) {
    |ahead| == k
    && (0 < k ==>
          && routeStart <= |solution|
          && k <= SepCount(solution[routeStart..]) + 1
          && ahead == ToNested(solution[routeStart..], k))
  }

  /** Before the compact loop, every route lies ahead of the start. */
  lemma AheadStart(solution: SolutionComp, k: nat)
    requires k <= SepCount(solution) + 1
    ensures RoutesAhead(solution, 0, k, ToNested(solution, k))
  {
    assert solution[0..] == solution;
  }

  /** One cut of the compact loop: the first route ahead runs from
      `routeStart` to the next separator, and the rest lie past it. */
  lemma AheadStep(solution: SolutionComp, routeStart: nat, k: nat, ahead: Solution, size: nat, next: nat)
    requires 0 < k && RoutesAhead(solution, routeStart, k, ahead)
    requires size == SepIndex(solution[routeStart..]) && next == routeStart + size + 1
    ensures routeStart + size <= |solution|
    ensures ahead[0] == solution[routeStart..routeStart + size]
    ensures RoutesAhead(solution, next, k - 1, ahead[1..])
  {
    var rest := solution[routeStart..];
    ToNestedStep(rest, k);
    assert rest[..size] == solution[routeStart..routeStart + size];
    if 2 <= k {
      assert rest[size + 1..] == solution[next..];
    }
  }

  /// The calls a vehicle currently carries

  /** `currentCalls.erase(std::find(...))`: drop the first copy of `x`. */
  function RemoveFirst(open: seq<int>, x: int): (r: seq<int>)
    requires x in open
    ensures |r| == |open| - 1
  {
    if open[0] == x then open[1..] else [open[0]] + RemoveFirst(open[1..], x)
  }

  /** Exactly one copy of `x` goes. */
  lemma {:induction false} RemoveFirstCounts(open: seq<int>, x: int)
    requires x in open
    ensures multiset(RemoveFirst(open, x)) == multiset(open) - multiset{x}
  {
    assert open == [open[0]] + open[1..];
    if open[0] != x {
      RemoveFirstCounts(open[1..], x);
    }
  }

  /** A first visit of `x` opens it (pickup), the next one closes it (delivery). */
  function Toggle(open: seq<int>, x: int): seq<int> {
    if x in open then RemoveFirst(open, x) else open + [x]
  }
}
