/** The neighbourhood operators. `ex2` swaps the first and the last
    occurrences of two drawn call ids, `ex3` rotates three drawn ids the same
    way, and `ins1` takes every copy of one drawn id out and puts two copies
    back into a drawn route. The random engine becomes a stream `draws` of
    the values it would return, consumed in the source's order. */
module Operators {
  import opened Instance
  import opened Solutions

  /// The smallest and largest id

  /** Every id fits an `int`. */
  predicate Within32(s: Solution) {
    forall r, k :: 0 <= r < |s| && 0 <= k < |s[r]| ==> INT_MIN <= s[r][k] <= INT_MAX
  }

  /** The min/max fold over one route, from the pair so far. */
  function RouteMinMax(route: Route, lo: int, hi: int): (int, int) {
    if route == [] then (lo, hi)
    else
      var v := route[0];
      RouteMinMax(route[1..], if v < lo then v else lo, if hi < v then v else hi)
  }

  /** The min/max fold over the routes, from the pair so far. */
  function MinMaxFold(s: Solution, lo: int, hi: int): (int, int) {
    if s == [] then (lo, hi)
    else
      var m := RouteMinMax(s[0], lo, hi);
      MinMaxFold(s[1..], m.0, m.1)
  }

  /** `find_nested_minmax`: folded from (`INT_MAX`, `INT_MIN`), and (0, 0)
      for an empty list of routes. */
  function MinMax(s: Solution): (int, int) {
    if s == [] then (0, 0) else MinMaxFold(s, INT_MAX, INT_MIN)
  }

  /** A position: route `route`, index `index` in it. */
  datatype Pos = Pos(route: nat, index: nat)

  /** Id `x` sits at position `q`. */
  predicate At(s: Solution, q: Pos, x: int) {
    q.route < |s| && q.index < |s[q.route]| && s[q.route][q.index] == x
  }

  /** The order in which the operators walk the positions. */
  predicate Before(p: Pos, q: Pos) {
    p.route < q.route || (p.route == q.route && p.index < q.index)
  }

  /** Some route holds an id. */
  predicate HasIds(s: Solution) {
    exists r :: 0 <= r < |s| && s[r] != []
  }

  /** The fold over one route moves the pair outwards just far enough to
      cover the route's ids. */
  lemma {:induction false} RouteMinMaxBounds(route: Route, lo: int, hi: int)
    ensures var m := RouteMinMax(route, lo, hi);
            && m.0 <= lo && hi <= m.1
            && (forall k :: 0 <= k < |route| ==> m.0 <= route[k] <= m.1)
            && (m.0 == lo || m.0 in route)
            && (m.1 == hi || m.1 in route)
    decreases |route|
  {
    if route != [] {
      var v := route[0];
      var rest := route[1..];
      RouteMinMaxBounds(rest, if v < lo then v else lo, if hi < v then v else hi);
      assert forall k :: 0 < k < |route| ==> route[k] == rest[k - 1];
      assert forall y :: y in rest ==> y in route;
    }
  }

  /** The same over all routes. */
  lemma {:induction false} MinMaxFoldBounds(s: Solution, lo: int, hi: int)
    ensures var m := MinMaxFold(s, lo, hi);
            && m.0 <= lo && hi <= m.1
            && (forall r, k :: 0 <= r < |s| && 0 <= k < |s[r]| ==> m.0 <= s[r][k] <= m.1)
            && (m.0 == lo || exists q :: At(s, q, m.0))
            && (m.1 == hi || exists q :: At(s, q, m.1))
    decreases |s|
  {
    if s != [] {
      var m0 := RouteMinMax(s[0], lo, hi);
      RouteMinMaxBounds(s[0], lo, hi);
      var rest := s[1..];
      MinMaxFoldBounds(rest, m0.0, m0.1);
      var m := MinMaxFold(s, lo, hi);
      assert forall r :: 0 < r < |s| ==> s[r] == rest[r - 1];
      if m.0 != lo {
        if m.0 == m0.0 {
          var k :| 0 <= k < |s[0]| && s[0][k] == m.0;
          assert At(s, Pos(0, k), m.0);
        } else {
          var q :| At(rest, q, m.0);
          assert At(s, Pos(q.route + 1, q.index), m.0);
        }
      }
      if m.1 != hi {
        if m.1 == m0.1 {
          var k :| 0 <= k < |s[0]| && s[0][k] == m.1;
          assert At(s, Pos(0, k), m.1);
        } else {
          var q :| At(rest, q, m.1);
          assert At(s, Pos(q.route + 1, q.index), m.1);
        }
      }
    }
  }

  /** A position holding a value makes its route non-empty. */
  lemma PositionsNeedIds(s: Solution, v: int)
    ensures forall q :: At(s, q, v) ==> HasIds(s)
  {
    forall q | At(s, q, v)
      ensures HasIds(s)
    {
      assert s[q.route] != [];
    }
  }

  /** `find_nested_minmax` returns the smallest and the largest id, both of
      which occur; (0, 0) for no routes; and the untouched start pair
      (`INT_MAX`, `INT_MIN`) when there are routes but all are empty. */
  lemma MinMaxIsMinMax(s: Solution)
    requires Within32(s)
    ensures s == [] ==> MinMax(s) == (0, 0)
    ensures s != [] && !HasIds(s) ==> MinMax(s) == (INT_MAX, INT_MIN)
    ensures HasIds(s) ==>
              var m := MinMax(s);
              && (forall r, k :: 0 <= r < |s| && 0 <= k < |s[r]| ==> m.0 <= s[r][k] <= m.1)
              && (exists q :: At(s, q, m.0))
              && (exists q :: At(s, q, m.1))
  {
    if s != [] {
      MinMaxFoldBounds(s, INT_MAX, INT_MIN);
      var m := MinMax(s);
      if HasIds(s) {
        var r :| 0 <= r < |s| && s[r] != [];
        assert At(s, Pos(r, 0), s[r][0]);
        if m.0 == INT_MAX {
          assert At(s, Pos(r, 0), m.0);
        }
        if m.1 == INT_MIN {
          assert At(s, Pos(r, 0), m.1);
        }
      } else {
        PositionsNeedIds(s, m.0);
        PositionsNeedIds(s, m.1);
      }
    }
  }

  /** `find_nested_minmax` as the source runs it: one pass over every id of
      every route. */
  method FindNestedMinMax(s: Solution) returns (lo: int, hi: int)
    ensures (lo, hi) == MinMax(s)
  {
    lo, hi := INT_MAX, INT_MIN;
    var r := 0;
    assert s[0..] == s;
    while r < |s|
      invariant r <= |s|
      invariant MinMaxFold(s, INT_MAX, INT_MIN) == MinMaxFold(s[r..], lo, hi)
    {
      assert s[r..][0] == s[r] && s[r..][1..] == s[r + 1..];
      var route := s[r];
      var k := 0;
      assert route[0..] == route;
      while k < |route|
        invariant k <= |route|
        invariant MinMaxFold(s, INT_MAX, INT_MIN) == MinMaxFold(s[r + 1..], RouteMinMax(route[k..], lo, hi).0, RouteMinMax(route[k..], lo, hi).1)
      {
        var v := route[k];
        assert route[k..][0] == v && route[k..][1..] == route[k + 1..];
        if v < lo {
          lo := v;
        }
        if hi < v {
          hi := v;
        }
        k := k + 1;
      }
      r := r + 1;
    }
    if s == [] {
      lo, hi := 0, 0;
    }
  }

  /// Drawing ids

  /** `ran() % (max + 1 - min) + min`. */
  function DrawId(d: nat, lo: int, hi: int): (x: int)
    requires lo <= hi
    ensures lo <= x <= hi
  {
    d % (hi + 1 - lo) + lo
  }

  /** The rejection loop: keep `cur` unless it is in `avoid`, otherwise draw
      again from `draws[pos]` on. The id kept and the position after the
      last draw used, or `None` when the stream runs out first. */
  function Redraw(draws: seq<nat>, pos: nat, cur: int, avoid: set<int>, lo: int, hi: int): (r: Option<(int, nat)>)
    requires lo <= hi && pos <= |draws|
    ensures r.Some? ==> r.value.0 !in avoid && pos <= r.value.1 <= |draws|
    ensures r.Some? && lo <= cur <= hi ==> lo <= r.value.0 <= hi
    decreases |draws| - pos
  {
    if cur !in avoid then Some((cur, pos))
    else if pos == |draws| then None
    else Redraw(draws, pos + 1, DrawId(draws[pos], lo, hi), avoid, lo, hi)
  }

  /** `while (a == b) b = r();` and its three-id sibling. */
  method RedrawLoop(draws: seq<nat>, pos: nat, cur: int, avoid: set<int>, lo: int, hi: int) returns (x: int, next: nat)
    requires lo <= hi && pos <= |draws| && Redraw(draws, pos, cur, avoid, lo, hi).Some?
    ensures Redraw(draws, pos, cur, avoid, lo, hi) == Some((x, next))
  {
    x, next := cur, pos;
    while x in avoid
      invariant next <= |draws|
      invariant Redraw(draws, pos, cur, avoid, lo, hi) == Redraw(draws, next, x, avoid, lo, hi)
      decreases |draws| - next
    {
      x := DrawId(draws[next], lo, hi);
      next := next + 1;
    }
  }

  /** The two ids `ex2` draws from ids in [`lo`, `hi`]: `a`, then `b`
      redrawn until it differs from `a`. */
  function Ex2Ids(draws: seq<nat>, lo: int, hi: int): (r: Option<(int, int)>)
    requires lo <= hi
    ensures r.Some? ==> lo <= r.value.0 <= hi && lo <= r.value.1 <= hi && r.value.0 != r.value.1
  {
    if |draws| < 2 then None
    else
      var a := DrawId(draws[0], lo, hi);
      match Redraw(draws, 2, DrawId(draws[1], lo, hi), {a}, lo, hi)
      case None => None
      case Some(b) => Some((a, b.0))
  }

  /** The three ids `ex3` draws: `a`, `b` and `c` drawn first, then `b`
      redrawn until it differs from `a`, then `c` until it differs from both. */
  function Ex3Ids(draws: seq<nat>, lo: int, hi: int): (r: Option<(int, int, int)>)
    requires lo <= hi
    ensures r.Some? ==>
              && lo <= r.value.0 <= hi && lo <= r.value.1 <= hi && lo <= r.value.2 <= hi
              && r.value.0 != r.value.1 && r.value.0 != r.value.2 && r.value.1 != r.value.2
  {
    if |draws| < 3 then None
    else
      var a := DrawId(draws[0], lo, hi);
      match Redraw(draws, 3, DrawId(draws[1], lo, hi), {a}, lo, hi)
      case None => None
      case Some(b) =>
        match Redraw(draws, b.1, DrawId(draws[2], lo, hi), {a, b.0}, lo, hi)
        case None => None
        case Some(c) => Some((a, b.0, c.0))
  }

  /// Locating the first and the last copy of an id

  predicate ValidPos(s: Solution, q: Pos) {
    q.route < |s| && q.index < |s[q.route]|
  }

  /** `q` holds the first copy of `x` in walking order. */
  ghost predicate FirstAt(s: Solution, x: int, q: Pos) {
    At(s, q, x) && forall p :: At(s, p, x) ==> !Before(p, q)
  }

  /** `q` holds the last copy of `x` in walking order. */
  ghost predicate LastAt(s: Solution, x: int, q: Pos) {
    At(s, q, x) && forall p :: At(s, p, x) ==> !Before(q, p)
  }

  /** The two pointers the scan keeps for one id: set on the first copy
      met, and on every later copy respectively. */
  datatype Found = Found(first: Option<Pos>, last: Option<Pos>)

  /** The scan has met `x` at `here`, or not. */
  function Track(f: Found, v: int, x: int, here: Pos): Found {
    if v != x then f
    else if f.first.None? then Found(Some(here), f.last)
    else Found(f.first, Some(here))
  }

  /** The pointers of `x` once the scan has walked every position before
      `here`. */
  ghost predicate ScanState(s: Solution, x: int, f: Found, here: Pos) {
    && (f.first.None? ==> forall p :: At(s, p, x) ==> !Before(p, here))
    && (f.first.Some? ==> At(s, f.first.value, x) && Before(f.first.value, here)
                          && forall p :: At(s, p, x) ==> !Before(p, f.first.value))
    && (f.last.Some? ==> && f.first.Some? && At(s, f.last.value, x)
                         && Before(f.first.value, f.last.value) && Before(f.last.value, here)
                         && forall p :: At(s, p, x) && Before(p, here) ==> !Before(f.last.value, p))
    && (f.first.Some? && f.last.None? ==> forall p :: At(s, p, x) && Before(p, here) ==> p == f.first.value)
  }

  /** What the pointers of `x` say once the whole solution is walked. */
  ghost predicate Located(s: Solution, x: int, f: Found) {
    && (f.first.None? <==> forall p :: !At(s, p, x))
    && (f.first.Some? ==> FirstAt(s, x, f.first.value))
    && (f.last.Some? ==> f.first.Some? && LastAt(s, x, f.last.value) && f.last.value != f.first.value)
    && (f.first.Some? && f.last.None? ==> forall p :: At(s, p, x) ==> p == f.first.value)
  }

  lemma TrackStep(s: Solution, x: int, f: Found, here: Pos)
    requires ValidPos(s, here) && ScanState(s, x, f, here)
    ensures ScanState(s, x, Track(f, s[here.route][here.index], x, here), Pos(here.route, here.index + 1))
  {
    var next := Pos(here.route, here.index + 1);
    assert forall p :: Before(p, next) <==> Before(p, here) || p == here;
  }

  lemma ScanNextRoute(s: Solution, x: int, f: Found, r: nat)
    requires r < |s| && ScanState(s, x, f, Pos(r, |s[r]|))
    ensures ScanState(s, x, f, Pos(r + 1, 0))
  {
    assert forall p :: At(s, p, x) ==> (Before(p, Pos(r, |s[r]|)) <==> Before(p, Pos(r + 1, 0)));
  }

  lemma ScanDone(s: Solution, x: int, f: Found)
    requires ScanState(s, x, f, Pos(|s|, 0))
    ensures Located(s, x, f)
  {
    assert forall p :: At(s, p, x) ==> Before(p, Pos(|s|, 0));
  }

  /** The pointers of every id of `ids` once the scan has reached `here`. */
  ghost predicate AllScanned(s: Solution, ids: seq<int>, found: seq<Found>, here: Pos) {
    |found| == |ids| && forall j :: 0 <= j < |ids| ==> ScanState(s, ids[j], found[j], here)
  }

  /** Every pointer pair updated for the value `v` met at `here`. */
  function TrackAll(found: seq<Found>, v: int, ids: seq<int>, here: Pos): (r: seq<Found>)
    requires |found| == |ids|
    ensures |r| == |ids| && forall j :: 0 <= j < |ids| ==> r[j] == Track(found[j], v, ids[j], here)
  {
    seq(|ids|, j requires 0 <= j < |ids| => Track(found[j], v, ids[j], here))
  }

  /** `TrackStep` for every id at once. */
  lemma ScanAllStep(s: Solution, ids: seq<int>, found: seq<Found>, r: nat, k: nat, next: nat)
    requires r < |s| && k < |s[r]| && next == k + 1 && AllScanned(s, ids, found, Pos(r, k))
    ensures AllScanned(s, ids, TrackAll(found, s[r][k], ids, Pos(r, k)), Pos(r, next))
  {
    forall j | 0 <= j < |ids|
      ensures ScanState(s, ids[j], Track(found[j], s[r][k], ids[j], Pos(r, k)), Pos(r, next))
    {
      TrackStep(s, ids[j], found[j], Pos(r, k));
    }
  }

  /** `ScanNextRoute` for every id at once. */
  lemma ScanAllNextRoute(s: Solution, ids: seq<int>, found: seq<Found>, r: nat, next: nat)
    requires r < |s| && next == r + 1 && AllScanned(s, ids, found, Pos(r, |s[r]|))
    ensures AllScanned(s, ids, found, Pos(next, 0))
  {
    forall j | 0 <= j < |ids|
      ensures ScanState(s, ids[j], found[j], Pos(next, 0))
    {
      ScanNextRoute(s, ids[j], found[j], r);
    }
  }

  /** The scan of `ex2` and `ex3`: one walk over every position, keeping the
      first and the last pointer of each id of `ids`. */
  method Locate(s: Solution, ids: seq<int>) returns (found: seq<Found>)
    ensures |found| == |ids| && forall j :: 0 <= j < |ids| ==> Located(s, ids[j], found[j])
  {
    found := seq(|ids|, j => Found(None, None));
    var r := 0;
    while r < |s|
      invariant r <= |s| && AllScanned(s, ids, found, Pos(r, 0))
    {
      found := ScanRoute(s, ids, found, r, r + 1);
      r := r + 1;
    }
    ScanAllDone(s, ids, found);
  }

  /** The inner loop of the scan: every position of route `r`. */
  method ScanRoute(s: Solution, ids: seq<int>, found: seq<Found>, r: nat, next: nat) returns (after: seq<Found>)
    requires r < |s| && next == r + 1 && AllScanned(s, ids, found, Pos(r, 0))
    ensures AllScanned(s, ids, after, Pos(next, 0))
  {
    after := found;
    var k := 0;
    while k < |s[r]|
      invariant k <= |s[r]| && AllScanned(s, ids, after, Pos(r, k))
    {
      ScanAllStep(s, ids, after, r, k, k + 1);
      after := TrackAll(after, s[r][k], ids, Pos(r, k));
      k := k + 1;
    }
    ScanAllNextRoute(s, ids, after, r, next);
  }

  /** `ScanDone` for every id at once. */
  lemma ScanAllDone(s: Solution, ids: seq<int>, found: seq<Found>)
    requires AllScanned(s, ids, found, Pos(|s|, 0))
    ensures |found| == |ids| && forall j :: 0 <= j < |ids| ==> Located(s, ids[j], found[j])
  {
    forall j | 0 <= j < |ids|
      ensures Located(s, ids[j], found[j])
    {
      ScanDone(s, ids[j], found[j]);
    }
  }

  /// Swapping ids in place

  /** The id at a valid position. */
  function Get(s: Solution, q: Pos): int
    requires ValidPos(s, q)
  {
    s[q.route][q.index]
  }

  /** The same number of routes, each of the same length. */
  predicate SameShape(s: Solution, t: Solution) {
    |t| == |s| && forall r :: 0 <= r < |s| ==> |t[r]| == |s[r]|
  }

  /** `std::swap(*p, *q)` through pointers into the routes. */
  method Exchange(s: Solution, p: Pos, q: Pos) returns (t: Solution)
    requires ValidPos(s, p) && ValidPos(s, q)
    ensures SameShape(s, t)
    ensures forall o :: ValidPos(s, o) ==>
              Get(t, o) == if o == p then Get(s, q) else if o == q then Get(s, p) else Get(s, o)
  {
    var vp, vq := s[p.route][p.index], s[q.route][q.index];
    t := s[p.route := s[p.route][p.index := vq]];
    t := t[q.route := t[q.route][q.index := vp]];
  }

  /** `q` holds the first or the last copy of `x`. */
  ghost predicate Ends(s: Solution, x: int, q: Pos) {
    FirstAt(s, x, q) || LastAt(s, x, q)
  }

  /** `x` occurs at two positions at least. */
  ghost predicate AtLeastTwice(s: Solution, x: int) {
    exists p, q :: At(s, p, x) && At(s, q, x) && p != q
  }

  /** The scan found both ends of an id that occurs twice or more, and they
      are the only positions with `Ends`. */
  lemma LocatedEnds(s: Solution, x: int, f: Found)
    requires Located(s, x, f) && AtLeastTwice(s, x)
    ensures f.first.Some? && f.last.Some? && f.first.value != f.last.value
    ensures forall o :: Ends(s, x, o) <==> o == f.first.value || o == f.last.value
  {
    var p, q :| At(s, p, x) && At(s, q, x) && p != q;
    assert f.first.Some?;
    assert f.last.Some?;
    forall o | Ends(s, x, o)
      ensures o == f.first.value || o == f.last.value
    {
      if FirstAt(s, x, o) {
        assert !Before(o, f.first.value) && !Before(f.first.value, o);
      } else {
        assert !Before(o, f.last.value) && !Before(f.last.value, o);
      }
    }
  }

  /** The first and the last copy of `a` now hold `b` and the other way round;
      every other position is unchanged. */
  ghost predicate SwappedEnds(s: Solution, t: Solution, a: int, b: int) {
    SameShape(s, t)
    && forall q :: ValidPos(s, q) ==>
         Get(t, q) == if Ends(s, a, q) then b else if Ends(s, b, q) then a else Get(s, q)
  }

  /** `max - min` and `max + 1 - min` fit an `int` where the source computes
      them: no overflow when every route is empty, none in the draw range. */
  ghost predicate SpanFits(lo: int, hi: int, least: int) {
    INT_MIN <= hi - lo <= INT_MAX && (hi - lo >= least ==> hi + 1 <= INT_MAX && hi + 1 - lo <= INT_MAX)
  }

  /** What `ex2` needs to be defined: the span computable, and when it is 2
      or more, a stream that yields two distinct ids, each met at least
      twice (the source dereferences both pointers of each). */
  ghost predicate Ex2Defined(s: Solution, draws: seq<nat>) {
    var m := MinMax(s);
    SpanFits(m.0, m.1, 2)
    && (m.1 - m.0 >= 2 ==>
          var ids := Ex2Ids(draws, m.0, m.1);
          ids.Some? && AtLeastTwice(s, ids.value.0) && AtLeastTwice(s, ids.value.1))
  }

  /** `op::ex2`: below a span of 2 the input comes back unchanged; otherwise
      the first copies of the two drawn ids trade places, and so do the last
      copies. */
  method Ex2(s: Solution, draws: seq<nat>) returns (t: Solution)
    requires Ex2Defined(s, draws)
    ensures var m := MinMax(s); m.1 - m.0 < 2 ==> t == s
    ensures var m := MinMax(s); m.1 - m.0 >= 2 ==>
              var ids := Ex2Ids(draws, m.0, m.1).value;
              SwappedEnds(s, t, ids.0, ids.1)
  {
    var lo, hi := FindNestedMinMax(s);
    if hi - lo < 2 {
      return s;
    }
    var a := DrawId(draws[0], lo, hi);
    var b := DrawId(draws[1], lo, hi);
    var next;
    b, next := RedrawLoop(draws, 2, b, {a}, lo, hi);
    var found := Locate(s, [a, b]);
    t := SwapEnds(s, a, b, found[0], found[1]);
  }

  /** The swaps of `ex2` once the scan has found the ends of two distinct
      ids that each occur twice or more. */
  method SwapEnds(s: Solution, a: int, b: int, fa: Found, fb: Found) returns (t: Solution)
    requires a != b && Located(s, a, fa) && Located(s, b, fb)
    requires AtLeastTwice(s, a) && AtLeastTwice(s, b)
    ensures SwappedEnds(s, t, a, b)
  {
    LocatedEnds(s, a, fa);
    LocatedEnds(s, b, fb);
    var pa, pb, qa, qb := fa.first.value, fb.first.value, fa.last.value, fb.last.value;
    assert Get(s, pa) == a && Get(s, qa) == a && Get(s, pb) == b && Get(s, qb) == b;
    t := SwapAt(s, a, b, pa, qa, pb, qb);
    SwappedAtEnds(s, t, a, b, pa, qa, pb, qb);
  }

  /** The two exchanges of `ex2`, first copies then last copies, told
      position by position. */
  method SwapAt(s: Solution, a: int, b: int, pa: Pos, qa: Pos, pb: Pos, qb: Pos) returns (t: Solution)
    requires a != b && pa != qa && pb != qb
    requires ValidPos(s, pa) && ValidPos(s, qa) && ValidPos(s, pb) && ValidPos(s, qb)
    requires Get(s, pa) == a && Get(s, qa) == a && Get(s, pb) == b && Get(s, qb) == b
    ensures SameShape(s, t)
    ensures forall x :: ValidPos(s, x) ==>
              Get(t, x) == if x == pa || x == qa then b else if x == pb || x == qb then a else Get(s, x)
  {
    var t1 := Exchange(s, pa, pb);
    t := Exchange(t1, qa, qb);
  }

  /** An exchange stated position by position is the exchange of the ends
      of the two ids. */
  lemma SwappedAtEnds(s: Solution, t: Solution, a: int, b: int, pa: Pos, qa: Pos, pb: Pos, qb: Pos)
    requires SameShape(s, t)
    requires forall o :: Ends(s, a, o) <==> o == pa || o == qa
    requires forall o :: Ends(s, b, o) <==> o == pb || o == qb
    requires forall x :: ValidPos(s, x) ==>
               Get(t, x) == if x == pa || x == qa then b else if x == pb || x == qb then a else Get(s, x)
    ensures SwappedEnds(s, t, a, b)
  {
  }

  /** The ends of `a` now hold `b`, those of `b` hold `c` and those of `c`
      hold `a`; every other position is unchanged. */
  ghost predicate RotatedEnds(s: Solution, t: Solution, a: int, b: int, c: int) {
    SameShape(s, t)
    && forall q :: ValidPos(s, q) ==>
         Get(t, q) == if Ends(s, a, q) then b else if Ends(s, b, q) then c else if Ends(s, c, q) then a else Get(s, q)
  }

  /** What `ex3` needs to be defined, as for `ex2` with three ids. */
  ghost predicate Ex3Defined(s: Solution, draws: seq<nat>) {
    var m := MinMax(s);
    SpanFits(m.0, m.1, 3)
    && (m.1 - m.0 >= 3 ==>
          var ids := Ex3Ids(draws, m.0, m.1);
          ids.Some? && AtLeastTwice(s, ids.value.0) && AtLeastTwice(s, ids.value.1) && AtLeastTwice(s, ids.value.2))
  }

  /** `op::ex3`: below a span of 3 the input comes back unchanged; otherwise
      the first copies of the three drawn ids rotate, and so do the last
      copies. */
  method Ex3(s: Solution, draws: seq<nat>) returns (t: Solution)
    requires Ex3Defined(s, draws)
    ensures var m := MinMax(s); m.1 - m.0 < 3 ==> t == s
    ensures var m := MinMax(s); m.1 - m.0 >= 3 ==>
              var ids := Ex3Ids(draws, m.0, m.1).value;
              RotatedEnds(s, t, ids.0, ids.1, ids.2)
  {
    var lo, hi := FindNestedMinMax(s);
    if hi - lo < 3 {
      return s;
    }
    var a := DrawId(draws[0], lo, hi);
    var b := DrawId(draws[1], lo, hi);
    var c := DrawId(draws[2], lo, hi);
    var next;
    b, next := RedrawLoop(draws, 3, b, {a}, lo, hi);
    c, next := RedrawLoop(draws, next, c, {a, b}, lo, hi);
    var found := Locate(s, [a, b, c]);
    t := RotateEnds(s, a, b, c, found[0], found[1], found[2]);
  }

  /** The swaps of `ex3` once the scan has found the ends of three distinct
      ids that each occur twice or more. */
  method RotateEnds(s: Solution, a: int, b: int, c: int, fa: Found, fb: Found, fc: Found) returns (t: Solution)
    requires a != b && b != c && a != c
    requires Located(s, a, fa) && Located(s, b, fb) && Located(s, c, fc)
    requires AtLeastTwice(s, a) && AtLeastTwice(s, b) && AtLeastTwice(s, c)
    ensures RotatedEnds(s, t, a, b, c)
  {
    LocatedEnds(s, a, fa);
    LocatedEnds(s, b, fb);
    LocatedEnds(s, c, fc);
    var pa, pb, pc := fa.first.value, fb.first.value, fc.first.value;
    var qa, qb, qc := fa.last.value, fb.last.value, fc.last.value;
    assert Get(s, pa) == a && Get(s, qa) == a && Get(s, pb) == b && Get(s, qb) == b && Get(s, pc) == c && Get(s, qc) == c;
    t := RotateAt(s, a, b, c, pa, qa, pb, qb, pc, qc);
    RotatedAtEnds(s, t, a, b, c, pa, qa, pb, qb, pc, qc);
  }

  /** The two rotations of `ex3`, first copies then last copies, told
      position by position. */
  method RotateAt(s: Solution, a: int, b: int, c: int, pa: Pos, qa: Pos, pb: Pos, qb: Pos, pc: Pos, qc: Pos)
    returns (t: Solution)
    requires a != b && b != c && a != c && pa != qa && pb != qb && pc != qc
    requires ValidPos(s, pa) && ValidPos(s, qa) && ValidPos(s, pb) && ValidPos(s, qb) && ValidPos(s, pc) && ValidPos(s, qc)
    requires Get(s, pa) == a && Get(s, qa) == a && Get(s, pb) == b && Get(s, qb) == b && Get(s, pc) == c && Get(s, qc) == c
    ensures SameShape(s, t)
    ensures forall x :: ValidPos(s, x) ==>
              Get(t, x) == if x == pa || x == qa then b else if x == pb || x == qb then c
                           else if x == pc || x == qc then a else Get(s, x)
  {
    var t1 := Rotate(s, pa, pb, pc);
    t := Rotate(t1, qa, qb, qc);
    forall x | ValidPos(s, x)
      ensures Get(t, x) == if x == pa || x == qa then b else if x == pb || x == qb then c
                           else if x == pc || x == qc then a else Get(s, x)
    {
      if x == pa || x == pb || x == pc {
        assert Get(t, x) == Get(t1, x);
      } else {
        assert Get(t1, x) == Get(s, x);
      }
    }
  }

  /** A rotation stated position by position is the rotation of the ends
      of the three ids. */
  lemma RotatedAtEnds(s: Solution, t: Solution, a: int, b: int, c: int,
                      pa: Pos, qa: Pos, pb: Pos, qb: Pos, pc: Pos, qc: Pos)
    requires SameShape(s, t)
    requires forall o :: Ends(s, a, o) <==> o == pa || o == qa
    requires forall o :: Ends(s, b, o) <==> o == pb || o == qb
    requires forall o :: Ends(s, c, o) <==> o == pc || o == qc
    requires forall x :: ValidPos(s, x) ==>
               Get(t, x) == if x == pa || x == qa then b else if x == pb || x == qb then c
                            else if x == pc || x == qc then a else Get(s, x)
    ensures RotatedEnds(s, t, a, b, c)
  {
  }

  /** `std::swap(*p, *q); std::swap(*q, *o);` on three distinct positions:
      `p` takes the id of `q`, `q` that of `o` and `o` that of `p`. */
  method Rotate(s: Solution, p: Pos, q: Pos, o: Pos) returns (t: Solution)
    requires ValidPos(s, p) && ValidPos(s, q) && ValidPos(s, o)
    requires p != q && q != o && p != o
    ensures SameShape(s, t)
    ensures forall x :: ValidPos(s, x) ==>
              Get(t, x) == if x == p then Get(s, q) else if x == q then Get(s, o) else if x == o then Get(s, p) else Get(s, x)
  {
    var t1 := Exchange(s, p, q);
    t := Exchange(t1, q, o);
  }

  /// Relabelling

  /** An id renamed by `m`, kept when `m` does not name it. */
  function Rename(m: map<int, int>, v: int): int {
    if v in m then m[v] else v
  }

  /** Every id of a route renamed by `m`. */
  function RenameRoute(l: Route, m: map<int, int>): (r: Route)
    ensures |r| == |l| && forall k :: 0 <= k < |l| ==> r[k] == Rename(m, l[k])
  {
    if l == [] then [] else [Rename(m, l[0])] + RenameRoute(l[1..], m)
  }

  /** Every id of every route renamed by `m`. */
  function Relabel(s: Solution, m: map<int, int>): (t: Solution)
    ensures SameShape(s, t)
    ensures forall r, k :: 0 <= r < |s| && 0 <= k < |s[r]| ==> t[r][k] == Rename(m, s[r][k])
  {
    seq(|s|, r requires 0 <= r < |s| => RenameRoute(s[r], m))
  }

  /** `x` occurs at exactly two positions. */
  ghost predicate ExactlyTwice(s: Solution, x: int) {
    exists p, q :: At(s, p, x) && At(s, q, x) && p != q && forall o :: At(s, o, x) ==> o == p || o == q
  }

  /** Both copies of an id that occurs exactly twice are its ends. */
  lemma TwiceEnds(s: Solution, x: int)
    requires ExactlyTwice(s, x)
    ensures AtLeastTwice(s, x)
    ensures forall q :: At(s, q, x) <==> Ends(s, x, q)
  {
    var p, q :| At(s, p, x) && At(s, q, x) && p != q && forall o :: At(s, o, x) ==> o == p || o == q;
    if Before(p, q) {
      OrderedEnds(s, x, p, q);
    } else {
      OrderedEnds(s, x, q, p);
    }
    forall o
      ensures At(s, o, x) <==> Ends(s, x, o)
    {
      if At(s, o, x) {
        assert o == p || o == q;
      }
    }
  }

  /** The earlier of the only two copies is the first, the later the last. */
  lemma OrderedEnds(s: Solution, x: int, p: Pos, q: Pos)
    requires At(s, p, x) && At(s, q, x) && Before(p, q)
    requires forall o :: At(s, o, x) ==> o == p || o == q
    ensures FirstAt(s, x, p) && LastAt(s, x, q)
  {
  }

  /** Two solutions of one shape that agree at every position are equal. */
  lemma SamePositions(s: Solution, t: Solution)
    requires SameShape(s, t)
    requires forall q :: ValidPos(s, q) ==> Get(t, q) == Get(s, q)
    ensures s == t
  {
    forall r | 0 <= r < |s|
      ensures s[r] == t[r]
    {
      forall k | 0 <= k < |s[r]|
        ensures s[r][k] == t[r][k]
      {
        assert Get(t, Pos(r, k)) == Get(s, Pos(r, k));
      }
    }
  }

  /** When both ids occur exactly twice, `ex2` exchanges them everywhere. */
  lemma Ex2Relabels(s: Solution, t: Solution, a: int, b: int)
    requires a != b && SwappedEnds(s, t, a, b) && ExactlyTwice(s, a) && ExactlyTwice(s, b)
    ensures t == Relabel(s, map[a := b, b := a])
  {
    var u := Relabel(s, map[a := b, b := a]);
    forall q | ValidPos(s, q)
      ensures Get(t, q) == Get(u, q)
    {
      EndsMeansValue(s, a, q);
      EndsMeansValue(s, b, q);
    }
    SamePositions(u, t);
  }

  /** When all three ids occur exactly twice, `ex3` renames `a` to `b`, `b`
      to `c` and `c` to `a` everywhere. */
  lemma Ex3Relabels(s: Solution, t: Solution, a: int, b: int, c: int)
    requires a != b && a != c && b != c
    requires RotatedEnds(s, t, a, b, c) && ExactlyTwice(s, a) && ExactlyTwice(s, b) && ExactlyTwice(s, c)
    ensures t == Relabel(s, map[a := b, b := c, c := a])
  {
    var m := map[a := b, b := c, c := a];
    var u := Relabel(s, m);
    forall q | ValidPos(s, q)
      ensures Get(t, q) == Get(u, q)
    {
      EndsMeansValue(s, a, q);
      EndsMeansValue(s, b, q);
      EndsMeansValue(s, c, q);
      var v := Get(s, q);
      assert Get(u, q) == Rename(m, v);
      assert Get(t, q) == if v == a then b else if v == b then c else if v == c then a else v;
    }
    SamePositions(u, t);
  }

  /** For an id that occurs exactly twice, the ends are its positions. */
  lemma EndsMeansValue(s: Solution, x: int, q: Pos)
    requires ExactlyTwice(s, x) && ValidPos(s, q)
    ensures Ends(s, x, q) <==> Get(s, q) == x
  {
    TwiceEnds(s, x);
    assert Get(s, q) == x <==> At(s, q, x);
  }

  /** The exchange of `ex2` undoes itself. */
  lemma SwapTwiceIsIdentity(s: Solution, a: int, b: int)
    ensures Relabel(Relabel(s, map[a := b, b := a]), map[a := b, b := a]) == s
  {
    var m := map[a := b, b := a];
    var u := Relabel(Relabel(s, m), m);
    forall q | ValidPos(s, q)
      ensures Get(u, q) == Get(s, q)
    {
    }
    SamePositions(s, u);
  }

  /** The rotation of `ex3`, applied three times with the same ids, is the
      identity. */
  lemma RotateThriceIsIdentity(s: Solution, a: int, b: int, c: int)
    requires a != b && a != c && b != c
    ensures var m := map[a := b, b := c, c := a];
            Relabel(Relabel(Relabel(s, m), m), m) == s
  {
    var m := map[a := b, b := c, c := a];
    var u := Relabel(Relabel(Relabel(s, m), m), m);
    forall q | ValidPos(s, q)
      ensures Get(u, q) == Get(s, q)
    {
    }
    SamePositions(s, u);
  }

  /** A route holding one copy of `x` holds it at exactly one index. */
  lemma {:induction false} OneCopy(route: Route, x: int) returns (k: nat)
    requires multiset(route)[x] == 1
    ensures k < |route| && route[k] == x
    ensures forall j :: 0 <= j < |route| && route[j] == x ==> j == k
  {
    var rest := route[1..];
    assert route == [route[0]] + rest;
    assert forall j :: 0 < j < |route| ==> route[j] == rest[j - 1];
    if route[0] == x {
      k := 0;
      assert x !in rest;
    } else {
      var j := OneCopy(rest, x);
      k := j + 1;
    }
  }

  /** A route holding two copies of `x` holds them at exactly two indices. */
  lemma {:induction false} TwoCopies(route: Route, x: int) returns (k1: nat, k2: nat)
    requires multiset(route)[x] == 2
    ensures k1 < k2 < |route| && route[k1] == x && route[k2] == x
    ensures forall j :: 0 <= j < |route| && route[j] == x ==> j == k1 || j == k2
  {
    var rest := route[1..];
    assert route == [route[0]] + rest;
    assert forall j :: 0 < j < |route| ==> route[j] == rest[j - 1];
    if route[0] == x {
      var j := OneCopy(rest, x);
      k1, k2 := 0, j + 1;
    } else {
      var j1, j2 := TwoCopies(rest, x);
      k1, k2 := j1 + 1, j2 + 1;
    }
  }

  /** In a well-formed solution every call occurs at exactly two positions,
      which is what `ex2` and `ex3` need to act as relabellings. */
  lemma PairedIdsOccurTwice(s: Solution, n: nat, x: int)
    requires Paired(s, n) && 0 <= x < n
    ensures ExactlyTwice(s, x)
  {
    assert x in Ids(n);
    var r :| 0 <= r < |s| && x in s[r];
    var k :| 0 <= k < |s[r]| && s[r][k] == x;
    var k1, k2 := TwoCopies(s[r], x);
    assert At(s, Pos(r, k1), x) && At(s, Pos(r, k2), x);
    forall o | At(s, o, x)
      ensures o == Pos(r, k1) || o == Pos(r, k2)
    {
      assert x in s[o.route];
    }
  }

  /// Reinsertion

  /** `std::erase(l, a)`: every copy of `a` removed, the rest kept in order. */
  function Erase(l: Route, a: int): (r: Route)
    ensures a !in r && |r| <= |l|
  {
    if l == [] then [] else (if l[0] == a then [] else [l[0]]) + Erase(l[1..], a)
  }

  /** Erasing `a` leaves the count of every other id as it was. */
  lemma {:induction false} EraseCounts(l: Route, a: int, x: int)
    requires x != a
    ensures multiset(Erase(l, a))[x] == multiset(l)[x]
  {
    if l != [] {
      assert l == [l[0]] + l[1..];
      EraseCounts(l[1..], a, x);
    }
  }

  /** `l.insert(l.begin() + k, a)`. */
  function InsertAt(l: Route, k: nat, a: int): (r: Route)
    requires k <= |l|
    ensures |r| == |l| + 1 && r[k] == a
    ensures multiset(r) == multiset(l) + multiset{a}
  {
    assert l == l[..k] + l[k..];
    l[..k] + [a] + l[k..]
  }

  lemma {:induction false} EraseConcat(x: Route, y: Route, a: int)
    ensures Erase(x + y, a) == Erase(x, a) + Erase(y, a)
    decreases |x|
  {
    if x == [] {
      assert x + y == y;
    } else {
      assert (x + y)[0] == x[0] && (x + y)[1..] == x[1..] + y;
      EraseConcat(x[1..], y, a);
    }
  }

  /** Erasing again changes nothing. */
  lemma EraseTwice(l: Route, a: int)
    ensures Erase(Erase(l, a), a) == Erase(l, a)
  {
    EraseAbsent(Erase(l, a), a);
  }

  lemma {:induction false} EraseAbsent(l: Route, a: int)
    requires a !in l
    ensures Erase(l, a) == l
  {
    if l != [] {
      assert a !in l[1..];
      EraseAbsent(l[1..], a);
    }
  }

  /** A copy of `a` put in anywhere is erased again. */
  lemma EraseInsert(l: Route, k: nat, a: int)
    requires k <= |l|
    ensures Erase(InsertAt(l, k, a), a) == Erase(l, a)
  {
    var x, y, xa := l[..k], l[k..], l[..k] + [a];
    assert InsertAt(l, k, a) == xa + y;
    assert Erase(xa, a) == Erase(x, a) by {
      assert Erase([a], a) == [] by {
        assert [a][1..] == [];
      }
      EraseConcat(x, [a], a);
    }
    EraseConcat(xa, y, a);
    assert x + y == l;
    EraseConcat(x, y, a);
  }

  /** What one insertion of `a` changes: one more copy of `a`, nothing else
      once `a` is erased, and the last element stays last unless the
      insertion is at the end. */
  lemma InsertFacts(l: Route, k: nat, a: int)
    requires k <= |l|
    ensures Erase(InsertAt(l, k, a), a) == Erase(l, a)
    ensures multiset(InsertAt(l, k, a)) == multiset(l) + multiset{a}
    ensures |InsertAt(l, k, a)| == |l| + 1
    ensures k < |l| ==> InsertAt(l, k, a)[|l|] == l[|l| - 1]
  {
    EraseInsert(l, k, a);
    if k < |l| {
      InsertKeepsLast(l, k, a);
    }
    assert l == l[..k] + l[k..];
  }

  /** An insertion before the end keeps the last element last. */
  lemma InsertKeepsLast(l: Route, k: nat, a: int)
    requires k < |l|
    ensures InsertAt(l, k, a)[|l|] == l[|l| - 1]
  {
  }

  /** Where `ins1` puts `a` back into the drawn route `kept`: pushed onto it
      when it is empty, else inserted at `draws[0] % |kept|`; then inserted
      once more at the next draw modulo the new length. */
  function Reinsertion(kept: Route, a: int, draws: seq<nat>): Route
    requires |draws| >= (if kept == [] then 1 else 2)
  {
    var once := if kept == [] then [a] else InsertAt(kept, draws[0] % |kept|, a);
    var next := if kept == [] then 0 else 1;
    InsertAt(once, draws[next] % |once|, a)
  }

  /** The two insertions of `ins1` into the drawn route, from which `a` is
      gone: pushed onto an empty route, else inserted before the draw's
      position; then inserted once more, which never lands past the end. */
  method PutBack(kept: Route, a: int, draws: seq<nat>) returns (route: Route)
    requires a !in kept && |draws| >= (if kept == [] then 1 else 2)
    ensures route == Reinsertion(kept, a, draws)
    ensures Erase(route, a) == Erase(kept, a)
    ensures multiset(route)[a] == 2 && |route| == |kept| + 2
    ensures kept != [] ==> route[|route| - 1] == kept[|kept| - 1]
  {
    var once, next;
    if kept == [] {
      once, next := kept + [a], 0;
    } else {
      once, next := InsertAt(kept, draws[0] % |kept|, a), 1;
    }
    route := InsertAt(once, draws[next] % |once|, a);
    ReinsertionFacts(kept, a, draws);
  }

  /** What the two insertions give: `a` twice, everything else as it was
      and in the same order, and the last element still last. */
  lemma ReinsertionFacts(kept: Route, a: int, draws: seq<nat>)
    requires a !in kept && |draws| >= (if kept == [] then 1 else 2)
    ensures var route := Reinsertion(kept, a, draws);
            && Erase(route, a) == Erase(kept, a)
            && multiset(route)[a] == 2 && |route| == |kept| + 2
            && (kept != [] ==> route[|route| - 1] == kept[|kept| - 1])
  {
    var once;
    if kept == [] {
      assert InsertAt(kept, 0, a) == [a];
      once := [a];
      InsertFacts(kept, 0, a);
    } else {
      var k := draws[0] % |kept|;
      once := InsertAt(kept, k, a);
      InsertFacts(kept, k, a);
    }
    var k := draws[if kept == [] then 0 else 1] % |once|;
    InsertFacts(once, k, a);
    TwiceInserted(kept, once, InsertAt(once, k, a), a);
  }

  /** Two insertions of `a` into a route without it leave two copies. */
  lemma TwiceInserted(kept: Route, once: Route, route: Route, a: int)
    requires a !in kept
    requires multiset(once) == multiset(kept) + multiset{a}
    requires multiset(route) == multiset(once) + multiset{a}
    ensures multiset(route)[a] == 2
  {
    assert multiset(kept)[a] == 0;
  }

  /** `ins1` consumes two draws, then one more for each insertion into a
      non-empty route. */
  ghost predicate Ins1Defined(s: Solution, draws: seq<nat>) {
    var m := MinMax(s);
    m.0 != m.1 ==>
      && m.0 <= m.1 && m.1 + 1 <= INT_MAX && m.1 + 1 - m.0 <= INT_MAX
      && |draws| >= 3
      && var a := DrawId(draws[0], m.0, m.1);
         var car := draws[1] % |s|;
         Erase(s[car], a) != [] ==> |draws| >= 4
  }

  /** `op::ins1`: when the smallest and the largest id coincide the input
      comes back unchanged; otherwise every copy of the drawn id `a` goes,
      and two copies go back into the drawn route `car`, before its last
      element when it has one. */
  method Ins1(s: Solution, draws: seq<nat>) returns (t: Solution)
    requires Ins1Defined(s, draws)
    ensures var m := MinMax(s); m.0 == m.1 ==> t == s
    ensures var m := MinMax(s); m.0 != m.1 ==>
              var a := DrawId(draws[0], m.0, m.1);
              var car := draws[1] % |s|;
              var kept := Erase(s[car], a);
              && Reinserted(s, t, a, car)
              && PutInto(s, t, a, car, draws[2..])
              && |t[car]| == |kept| + 2
              && (kept != [] ==> t[car][|t[car]| - 1] == kept[|kept| - 1])
  {
    var lo, hi := FindNestedMinMax(s);
    if lo == hi {
      return s;
    }
    var a := DrawId(draws[0], lo, hi);
    var erased := EraseEverywhere(s, a);
    var car := draws[1] % |erased|;
    var route := PutBack(erased[car], a, draws[2..]);
    t := erased[car := route];
    Reassembled(s, a, erased, car, route, t);
    Placement(s, a, erased, car, draws[2..], t);
  }

  /** The erased routes with the drawn one replaced by its reinsertion are
      the full `ins1` result. */
  lemma Placement(s: Solution, a: int, erased: Solution, car: nat, draws: seq<nat>, t: Solution)
    requires |erased| == |s| && forall r :: 0 <= r < |s| ==> erased[r] == Erase(s[r], a)
    requires car < |s| && |draws| >= (if Erase(s[car], a) == [] then 1 else 2)
    requires t == erased[car := Reinsertion(erased[car], a, draws)]
    ensures PutInto(s, t, a, car, draws)
  {
  }

  /** Putting the drawn route back among the erased ones leaves every route
      as it was once `a` is erased, and `a` only in the drawn one. */
  lemma Reassembled(s: Solution, a: int, erased: Solution, car: nat, route: Route, t: Solution)
    requires |erased| == |s| && forall r :: 0 <= r < |s| ==> erased[r] == Erase(s[r], a)
    requires car < |s| && t == erased[car := route]
    requires Erase(route, a) == Erase(erased[car], a)
    ensures |t| == |s|
    ensures forall r :: 0 <= r < |s| ==> Erase(t[r], a) == Erase(s[r], a)
    ensures forall r :: 0 <= r < |s| && r != car ==> a !in t[r]
    ensures t[car] == route && erased[car] == Erase(s[car], a)
  {
    forall r | 0 <= r < |s|
      ensures Erase(t[r], a) == Erase(s[r], a)
      ensures r != car ==> a !in t[r]
    {
      EraseTwice(s[r], a);
      if r != car {
        assert t[r] == Erase(s[r], a);
      }
    }
  }

  /** The first loop of `ins1`: every copy of `a` leaves every route. */
  method EraseEverywhere(s: Solution, a: int) returns (t: Solution)
    ensures |t| == |s| && forall r :: 0 <= r < |s| ==> t[r] == Erase(s[r], a)
  {
    t := s;
    for r := 0 to |t|
      invariant |t| == |s|
      invariant forall j :: 0 <= j < r ==> t[j] == Erase(s[j], a)
      invariant forall j :: r <= j < |s| ==> t[j] == s[j]
    {
      t := t[r := Erase(t[r], a)];
    }
  }

  /// Well-formedness is kept

  /** The ids of a well-formed solution are `0 .. n-1`. */
  lemma PairedRange(s: Solution, n: nat)
    requires Paired(s, n)
    ensures forall r, k :: 0 <= r < |s| && 0 <= k < |s[r]| ==> 0 <= s[r][k] < n
  {
    forall r, k | 0 <= r < |s| && 0 <= k < |s[r]|
      ensures 0 <= s[r][k] < n
    {
      assert s[r][k] in Ids(n);
    }
  }

  /** Every call of a well-formed solution sits somewhere. */
  lemma PairedHas(s: Solution, n: nat, x: int) returns (q: Pos)
    requires Paired(s, n) && 0 <= x < n
    ensures At(s, q, x)
  {
    assert x in Ids(n);
    var r :| 0 <= r < |s| && x in s[r];
    var k :| 0 <= k < |s[r]| && s[r][k] == x;
    q := Pos(r, k);
  }

  /** On a well-formed solution the ids span exactly `0 .. n-1`. */
  lemma PairedMinMax(s: Solution, n: nat)
    requires Paired(s, n) && 1 <= n <= INT_MAX
    ensures MinMax(s) == (0, n - 1)
  {
    PairedRange(s, n);
    var p0 := PairedHas(s, n, 0);
    var p1 := PairedHas(s, n, n - 1);
    MinMaxOfRange(s, n, p0, p1);
  }

  /** Ids within `0 .. n-1` that include both bounds span exactly those. */
  lemma MinMaxOfRange(s: Solution, n: nat, p0: Pos, p1: Pos)
    requires 1 <= n <= INT_MAX
    requires forall r, k :: 0 <= r < |s| && 0 <= k < |s[r]| ==> 0 <= s[r][k] < n
    requires At(s, p0, 0) && At(s, p1, n - 1)
    ensures MinMax(s) == (0, n - 1)
  {
    assert HasIds(s) by {
      assert s[p0.route] != [];
    }
    MinMaxIsMinMax(s);
    var m := MinMax(s);
    var q0 :| At(s, q0, m.0);
    var q1 :| At(s, q1, m.1);
    assert m.0 <= s[p0.route][p0.index] == 0;
    assert n - 1 == s[p1.route][p1.index] <= m.1;
    assert 0 <= s[q0.route][q0.index] == m.0;
    assert m.1 == s[q1.route][q1.index] < n;
  }

  /** What `ins1` promises keeps a solution well formed: the drawn call ends
      up twice in the drawn route and nowhere else, and every other call
      keeps its route and its count. */
  lemma Ins1KeepsPaired(s: Solution, t: Solution, n: nat, a: int, car: nat)
    requires Paired(s, n) && 0 <= a < n && car < |s|
    requires Reinserted(s, t, a, car)
    ensures Paired(t, n)
  {
    ReinsertedPlaced(s, t, Ids(n), a, car);
  }

  lemma ReinsertedPlaced(s: Solution, t: Solution, ids: set<int>, a: int, car: nat)
    requires Placed(s, ids, 2) && a in ids && Reinserted(s, t, a, car)
    ensures Placed(t, ids, 2)
  {
    ReinsertedCounts(s, t, ids, a, car);
    ReinsertedCovers(s, t, ids, a, car);
    ReinsertedRoutes(s, t, ids, a, car);
  }

  /** The `ins1` result in full: every route but the drawn one loses all
      copies of `a`, and the drawn one is its erasure with `a` put back where
      the draws say. */
  ghost predicate PutInto(s: Solution, t: Solution, a: int, car: nat, draws: seq<nat>)
    requires car < |s| && |draws| >= (if Erase(s[car], a) == [] then 1 else 2)
  {
    && |t| == |s|
    && (forall r :: 0 <= r < |s| && r != car ==> t[r] == Erase(s[r], a))
    && t[car] == Reinsertion(Erase(s[car], a), a, draws)
  }

  /** The draws decide the `ins1` result: two results for the same input,
      id, route and draws are the same. */
  lemma PutIntoDetermines(s: Solution, t: Solution, u: Solution, a: int, car: nat, draws: seq<nat>)
    requires car < |s| && |draws| >= (if Erase(s[car], a) == [] then 1 else 2)
    requires PutInto(s, t, a, car, draws) && PutInto(s, u, a, car, draws)
    ensures t == u
  {
    forall r | 0 <= r < |t|
      ensures t[r] == u[r]
    {
      if r != car {
        assert t[r] == Erase(s[r], a) == u[r];
      }
    }
  }

  /** The full `ins1` result has the shape `Reinserted` describes. */
  lemma PutIntoIsReinserted(s: Solution, t: Solution, a: int, car: nat, draws: seq<nat>)
    requires car < |s| && |draws| >= (if Erase(s[car], a) == [] then 1 else 2)
    requires PutInto(s, t, a, car, draws)
    ensures Reinserted(s, t, a, car)
  {
    ReinsertionFacts(Erase(s[car], a), a, draws);
    EraseTwice(s[car], a);
    forall r | 0 <= r < |s| && r != car
      ensures Erase(t[r], a) == Erase(s[r], a) && a !in t[r]
    {
      EraseTwice(s[r], a);
    }
  }

  /** The shape of an `ins1` result. */
  ghost predicate Reinserted(s: Solution, t: Solution, a: int, car: nat) {
    && |t| == |s| && car < |s|
    && (forall r {:trigger Erase(t[r], a)} :: 0 <= r < |s| ==> Erase(t[r], a) == Erase(s[r], a))
    && (forall r :: 0 <= r < |s| && r != car ==> a !in t[r])
    && multiset(t[car])[a] == 2
  }

  /** Away from `a`, a route and its erasure hold the same ids. */
  lemma KeptOnErase(t: Route, s: Route, a: int, x: int)
    requires Erase(t, a) == Erase(s, a) && x != a
    ensures multiset(t)[x] == multiset(s)[x]
    ensures x in t <==> x in s
  {
    EraseCounts(t, a, x);
    EraseCounts(s, a, x);
    assert x in t <==> x in multiset(t);
    assert x in s <==> x in multiset(s);
  }

  lemma ReinsertedCounts(s: Solution, t: Solution, ids: set<int>, a: int, car: nat)
    requires Placed(s, ids, 2) && a in ids && Reinserted(s, t, a, car)
    ensures forall r, k :: 0 <= r < |t| && 0 <= k < |t[r]| ==> t[r][k] in ids && multiset(t[r])[t[r][k]] == 2
  {
    forall r, k | 0 <= r < |t| && 0 <= k < |t[r]|
      ensures t[r][k] in ids && multiset(t[r])[t[r][k]] == 2
    {
      var v := t[r][k];
      if v != a {
        KeptOnErase(t[r], s[r], a, v);
        assert v in s[r];
        var j :| 0 <= j < |s[r]| && s[r][j] == v;
        assert s[r][j] in ids && multiset(s[r])[s[r][j]] == 2;
      } else {
        assert r == car;
      }
    }
  }

  lemma ReinsertedCovers(s: Solution, t: Solution, ids: set<int>, a: int, car: nat)
    requires Placed(s, ids, 2) && Reinserted(s, t, a, car)
    ensures forall x :: x in ids ==> exists r :: 0 <= r < |t| && x in t[r]
  {
    forall x | x in ids
      ensures exists r :: 0 <= r < |t| && x in t[r]
    {
      if x == a {
        assert x in multiset(t[car]);
      } else {
        var r :| 0 <= r < |s| && x in s[r];
        KeptOnErase(t[r], s[r], a, x);
        assert x in t[r];
      }
    }
  }

  lemma ReinsertedRoutes(s: Solution, t: Solution, ids: set<int>, a: int, car: nat)
    requires Placed(s, ids, 2) && Reinserted(s, t, a, car)
    ensures forall r1, r2, x :: 0 <= r1 < |t| && 0 <= r2 < |t| && x in t[r1] && x in t[r2] ==> r1 == r2
  {
    forall r1, r2, x | 0 <= r1 < |t| && 0 <= r2 < |t| && x in t[r1] && x in t[r2]
      ensures r1 == r2
    {
      if x != a {
        KeptOnErase(t[r1], s[r1], a, x);
        KeptOnErase(t[r2], s[r2], a, x);
        assert x in s[r1] && x in s[r2];
      }
    }
  }

  /** `m` permutes some of the ids of `ids`: its keys are among them, it
      maps its keys onto its keys, and no two keys to the same id. */
  ghost predicate Bijective(m: map<int, int>, ids: set<int>) {
    && m.Keys <= ids
    && m.Values == m.Keys
    && forall x, y :: x in m && y in m && m[x] == m[y] ==> x == y
  }

  /** So `Rename` is one to one, ... */
  lemma RenameInjective(m: map<int, int>, ids: set<int>, x: int, y: int)
    requires Bijective(m, ids) && Rename(m, x) == Rename(m, y)
    ensures x == y
  {
    if x in m {
      assert m[x] in m.Values;
    }
    if y in m {
      assert m[y] in m.Values;
    }
  }

  /** ... keeps `ids` ... */
  lemma RenameInIds(m: map<int, int>, ids: set<int>, x: int)
    requires Bijective(m, ids) && x in ids
    ensures Rename(m, x) in ids
  {
    if x in m {
      assert m[x] in m.Values;
    }
  }

  /** A value of a map is the image of some key. */
  lemma ValueHasKey(m: map<int, int>, x: int)
    ensures x !in m.Values || exists y :: y in m.Keys && m[y] == x
  {
    if forall y :: y in m.Keys ==> m[y] != x {
      assert x !in m.Values;
    }
  }

  /** ... and reaches every id of `ids`. */
  lemma RenamePreimage(m: map<int, int>, ids: set<int>, x: int) returns (y: int)
    requires Bijective(m, ids) && x in ids
    ensures y in ids && Rename(m, y) == x
  {
    if x in m.Values {
      ValueHasKey(m, x);
      y :| y in m && m[y] == x;
    } else {
      y := x;
    }
  }

  /** One to one renaming carries the count of an id over to its new name. */
  lemma {:induction false} RenameCount(l: Route, m: map<int, int>, x: int)
    requires forall y :: Rename(m, y) == Rename(m, x) ==> y == x
    ensures multiset(RenameRoute(l, m))[Rename(m, x)] == multiset(l)[x]
  {
    if l != [] {
      assert l == [l[0]] + l[1..];
      RenameCount(l[1..], m, x);
    }
  }

  /** Renaming `ids` one to one keeps a solution placed. */
  lemma RelabelKeepsPlaced(s: Solution, ids: set<int>, m: map<int, int>)
    requires Placed(s, ids, 2) && Bijective(m, ids)
    ensures Placed(Relabel(s, m), ids, 2)
  {
    RelabelCounts(s, ids, m);
    RelabelCovers(s, ids, m);
    RelabelRoutes(s, ids, m);
  }

  lemma RelabelCounts(s: Solution, ids: set<int>, m: map<int, int>)
    requires forall r, k :: 0 <= r < |s| && 0 <= k < |s[r]| ==> s[r][k] in ids && multiset(s[r])[s[r][k]] == 2
    requires Bijective(m, ids)
    ensures var t := Relabel(s, m);
            forall r, k :: 0 <= r < |t| && 0 <= k < |t[r]| ==> t[r][k] in ids && multiset(t[r])[t[r][k]] == 2
  {
    var t := Relabel(s, m);
    forall r, k | 0 <= r < |t| && 0 <= k < |t[r]|
      ensures t[r][k] in ids && multiset(t[r])[t[r][k]] == 2
    {
      var v := s[r][k];
      assert v in ids && multiset(s[r])[v] == 2;
      RenameInIds(m, ids, v);
      forall y | Rename(m, y) == Rename(m, v)
        ensures y == v
      {
        RenameInjective(m, ids, y, v);
      }
      RenameCount(s[r], m, v);
    }
  }

  lemma RelabelCovers(s: Solution, ids: set<int>, m: map<int, int>)
    requires forall x :: x in ids ==> exists r :: 0 <= r < |s| && x in s[r]
    requires Bijective(m, ids)
    ensures var t := Relabel(s, m);
            forall x :: x in ids ==> exists r :: 0 <= r < |t| && x in t[r]
  {
    var t := Relabel(s, m);
    forall x | x in ids
      ensures exists r :: 0 <= r < |t| && x in t[r]
    {
      var y := RenamePreimage(m, ids, x);
      var r :| 0 <= r < |s| && y in s[r];
      var k :| 0 <= k < |s[r]| && s[r][k] == y;
      assert t[r][k] == x;
    }
  }

  lemma RelabelRoutes(s: Solution, ids: set<int>, m: map<int, int>)
    requires forall r1, r2, x :: 0 <= r1 < |s| && 0 <= r2 < |s| && x in s[r1] && x in s[r2] ==> r1 == r2
    requires Bijective(m, ids)
    ensures var t := Relabel(s, m);
            forall r1, r2, x :: 0 <= r1 < |t| && 0 <= r2 < |t| && x in t[r1] && x in t[r2] ==> r1 == r2
  {
    var t := Relabel(s, m);
    forall r1, r2, x | 0 <= r1 < |t| && 0 <= r2 < |t| && x in t[r1] && x in t[r2]
      ensures r1 == r2
    {
      var k1 :| 0 <= k1 < |t[r1]| && t[r1][k1] == x;
      var k2 :| 0 <= k2 < |t[r2]| && t[r2][k2] == x;
      RenameInjective(m, ids, s[r1][k1], s[r2][k2]);
      assert s[r1][k1] in s[r1] && s[r1][k1] in s[r2];
    }
  }

  /** The exchange of two calls and the rotation of three are one to one on
      the calls. */
  lemma SwapIsBijective(a: int, b: int, ids: set<int>)
    requires a in ids && b in ids
    ensures Bijective(map[a := b, b := a], ids)
  {
    var m := map[a := b, b := a];
    assert m.Values == m.Keys by {
      assert m[a] == b && m[b] == a;
    }
  }

  lemma RotateIsBijective(a: int, b: int, c: int, ids: set<int>)
    requires a in ids && b in ids && c in ids && a != b && a != c && b != c
    ensures Bijective(map[a := b, b := c, c := a], ids)
  {
    var m := map[a := b, b := c, c := a];
    assert m.Values == {a, b, c} by {
      assert m[a] == b && m[b] == c && m[c] == a;
    }
  }

  /** On a well-formed solution `ex2` acts as an exchange of two calls, and
      its result is well formed. */
  lemma Ex2KeepsPaired(s: Solution, t: Solution, n: nat, a: int, b: int)
    requires Paired(s, n) && 0 <= a < n && 0 <= b < n && a != b && SwappedEnds(s, t, a, b)
    ensures t == Relabel(s, map[a := b, b := a]) && Paired(t, n)
  {
    PairedIdsOccurTwice(s, n, a);
    PairedIdsOccurTwice(s, n, b);
    Ex2Relabels(s, t, a, b);
    SwapIsBijective(a, b, Ids(n));
    RelabelKeepsPlaced(s, Ids(n), map[a := b, b := a]);
  }

  /** On a well-formed solution `ex3` acts as a rotation of three calls,
      and its result is well formed. */
  lemma Ex3KeepsPaired(s: Solution, t: Solution, n: nat, a: int, b: int, c: int)
    requires Paired(s, n) && 0 <= a < n && 0 <= b < n && 0 <= c < n && a != b && a != c && b != c
    requires RotatedEnds(s, t, a, b, c)
    ensures t == Relabel(s, map[a := b, b := c, c := a]) && Paired(t, n)
  {
    PairedIdsOccurTwice(s, n, a);
    PairedIdsOccurTwice(s, n, b);
    PairedIdsOccurTwice(s, n, c);
    Ex3Relabels(s, t, a, b, c);
    RotateIsBijective(a, b, c, Ids(n));
    RelabelKeepsPlaced(s, Ids(n), map[a := b, b := c, c := a]);
  }
}
