/** How the generators build solutions: the call indices in order, shuffled,
    dealt out one by one from the back into drawn routes, and every route
    then doubled and shuffled. The engine's draws are explicit inputs. */
module Dealing {
  import opened Solutions
  import opened Shuffling

  /** `0, 1, ..., n-1`, as the `push_back` loop over the call indices fills it. */
  function Iota(n: nat): (r: seq<int>)
    ensures |r| == n && forall k :: 0 <= k < n ==> r[k] == k
  {
    if n == 0 then [] else Iota(n - 1) + [n - 1]
  }

  /** Each call index occurs once in `Iota(n)`, and nothing else does. */
  lemma {:induction false} IotaCounts(n: nat, x: int)
    ensures multiset(Iota(n))[x] == if 0 <= x < n then 1 else 0
  {
    if n > 0 {
      var r := Iota(n - 1);
      IotaCounts(n - 1, x);
      assert Iota(n) == r + [n - 1];
      assert multiset(Iota(n)) == multiset(r) + multiset([n - 1]);
      assert multiset([n - 1])[x] == if x == n - 1 then 1 else 0;
    }
  }

  /** The `pop_back` drain: the last id of `pile` goes to the end of route
      `cars[j] % m`, the one before it to route `cars[j + 1] % m`, and so on. */
  function DealFrom(routes: Solution, pile: seq<int>, cars: seq<nat>, j: nat, m: nat): (r: Solution)
    requires 0 < m <= |routes| && j + |pile| <= |cars|
    ensures |r| == |routes|
    ensures forall q :: 0 <= q < |r| ==> |r[q]| <= |routes[q]| + |pile|
    ensures forall q :: m <= q < |r| ==> r[q] == routes[q]
    decreases |pile|
  {
    if pile == [] then routes
    else
      var last := |pile| - 1;
      var c := cars[j] % m;
      DealFrom(routes[c := routes[c] + [pile[last]]], pile[..last], cars, j + 1, m)
  }

  /** The ids of a sequence, as a set. */
  function Members(l: seq<int>): set<int> {
    set x | x in l
  }

  /** One id that is in no route yet, added to the end of one route. */
  lemma PlaceOne(routes: Solution, done: set<int>, c: nat, x: int)
    requires Placed(routes, done, 1) && c < |routes| && x !in done
    ensures Placed(routes[c := routes[c] + [x]], done + {x}, 1)
  {
    forall r, k | 0 <= r < |routes| && 0 <= k < |routes[r]|
      ensures routes[r][k] != x
    {
      assert routes[r][k] in done;
    }
    PlaceOneCounts(routes, done, c, x);
    PlaceOneCovers(routes, done, c, x);
    PlaceOneRoutes(routes, done, c, x);
  }

  lemma PlaceOneCounts(routes: Solution, done: set<int>, c: nat, x: int)
    requires Placed(routes, done, 1) && c < |routes| && x !in done
    requires forall r :: 0 <= r < |routes| ==> x !in routes[r]
    ensures var t := routes[c := routes[c] + [x]];
            forall r, k :: 0 <= r < |t| && 0 <= k < |t[r]| ==> t[r][k] in done + {x} && multiset(t[r])[t[r][k]] == 1
  {
    var t := routes[c := routes[c] + [x]];
    assert multiset(t[c]) == multiset(routes[c]) + multiset{x};
    forall r, k | 0 <= r < |t| && 0 <= k < |t[r]|
      ensures t[r][k] in done + {x} && multiset(t[r])[t[r][k]] == 1
    {
      if r != c {
        assert t[r][k] == routes[r][k];
      } else if k < |routes[c]| {
        assert t[r][k] == routes[c][k];
        assert routes[c][k] in done;
      } else {
        assert t[r][k] == x;
      }
    }
  }

  lemma PlaceOneCovers(routes: Solution, done: set<int>, c: nat, x: int)
    requires Placed(routes, done, 1) && c < |routes|
    ensures var t := routes[c := routes[c] + [x]];
            forall y :: y in done + {x} ==> exists r :: 0 <= r < |t| && y in t[r]
  {
    var t := routes[c := routes[c] + [x]];
    forall y | y in done + {x}
      ensures exists r :: 0 <= r < |t| && y in t[r]
    {
      if y == x {
        assert t[c][|routes[c]|] == x;
      } else {
        var r :| 0 <= r < |routes| && y in routes[r];
        assert y in multiset(t[r]);
      }
    }
  }

  lemma PlaceOneRoutes(routes: Solution, done: set<int>, c: nat, x: int)
    requires Placed(routes, done, 1) && c < |routes|
    requires forall r :: 0 <= r < |routes| ==> x !in routes[r]
    ensures var t := routes[c := routes[c] + [x]];
            forall r1, r2, y :: 0 <= r1 < |t| && 0 <= r2 < |t| && y in t[r1] && y in t[r2] ==> r1 == r2
  {
    var t := routes[c := routes[c] + [x]];
    forall r1, r2, y | 0 <= r1 < |t| && 0 <= r2 < |t| && y in t[r1] && y in t[r2]
      ensures r1 == r2
    {
      if y != x {
        assert y in multiset(t[r1]) && y in multiset(t[r2]);
        assert y in routes[r1] && y in routes[r2];
      } else {
        assert r1 == c && r2 == c;
      }
    }
  }

  /** Dealing a pile of distinct fresh ids places each of them once, in one
      route. */
  lemma {:induction false} DealPlaces(routes: Solution, done: set<int>, pile: seq<int>, cars: seq<nat>, j: nat, m: nat)
    requires 0 < m <= |routes| && j + |pile| <= |cars|
    requires Placed(routes, done, 1)
    requires forall x :: x in pile ==> x !in done && multiset(pile)[x] == 1
    ensures Placed(DealFrom(routes, pile, cars, j, m), done + Members(pile), 1)
    decreases |pile|
  {
    if pile == [] {
      assert Members(pile) == {};
      assert done + Members(pile) == done;
    } else {
      var last := |pile| - 1;
      var x := pile[last];
      var rest := pile[..last];
      assert pile == rest + [x];
      var c := cars[j] % m;
      assert x in pile;
      PlaceOne(routes, done, c, x);
      RestFresh(done, rest, x);
      DealPlaces(routes[c := routes[c] + [x]], done + {x}, rest, cars, j + 1, m);
    }
  }

  /** Once the last id of a pile of distinct fresh ids is placed, the rest
      of the pile is still distinct and fresh. */
  lemma RestFresh(done: set<int>, rest: seq<int>, x: int)
    requires forall y :: y in rest + [x] ==> y !in done && multiset(rest + [x])[y] == 1
    ensures forall y :: y in rest ==> y !in done + {x} && multiset(rest)[y] == 1
    ensures done + {x} + Members(rest) == done + Members(rest + [x])
  {
    var pile := rest + [x];
    assert multiset(pile) == multiset(rest) + multiset{x};
    forall y | y in rest
      ensures y !in done + {x} && multiset(rest)[y] == 1
    {
      assert y in pile && y in multiset(rest);
      assert multiset(pile)[y] == 1;
    }
  }

  /** `count` empty routes, as `resize` leaves them. */
  function Empties(count: nat): (s: Solution)
    ensures |s| == count && forall q :: 0 <= q < count ==> s[q] == []
  {
    seq(count, q => [])
  }

  /** No routes hold anything yet. */
  lemma EmptyPlaced(m: nat)
    ensures Placed(Empties(m), {}, 1)
  {
  }

  /** Each route doubled and then reordered: every id now sits twice in
      its route. */
  lemma DoubledPlaced(s: Solution, t: Solution, ids: set<int>)
    requires Placed(s, ids, 1) && |t| == |s|
    requires forall r :: 0 <= r < |s| ==> multiset(t[r]) == multiset(s[r] + s[r])
    ensures Placed(t, ids, 2)
  {
    forall r, x | 0 <= r < |s|
      ensures x in t[r] <==> x in s[r]
      ensures multiset(t[r])[x] == 2 * multiset(s[r])[x]
    {
      assert multiset(s[r] + s[r]) == multiset(s[r]) + multiset(s[r]);
      assert x in t[r] <==> x in multiset(t[r]);
      assert x in s[r] <==> x in multiset(s[r]);
    }
    forall r, k | 0 <= r < |t| && 0 <= k < |t[r]|
      ensures t[r][k] in ids && multiset(t[r])[t[r][k]] == 2
    {
      var x := t[r][k];
      assert x in s[r];
      var k' :| 0 <= k' < |s[r]| && s[r][k'] == x;
      assert s[r][k'] in ids && multiset(s[r])[s[r][k']] == 1;
    }
  }

  /// Random solutions

  /** The engine's draws one random solution consumes: the shuffle of the
      call indices, one route draw per call, and the shuffle of each route. */
  datatype RandDraws = RandDraws(order: seq<nat>, cars: seq<nat>, shuffles: seq<seq<nat>>)

  /** Enough draws for `n` calls and `count` routes. */
  predicate RandReady(d: RandDraws, n: nat, count: nat) {
    n <= |d.order| && n <= |d.cars| && |d.shuffles| == count
    && forall q :: 0 <= q < count ==> 2 * n <= |d.shuffles[q]|
  }

  /** The calls dealt over `count` routes, each to route `draw % m`. */
  function Dealt(n: nat, count: nat, m: nat, d: RandDraws): (r: Solution)
    requires 0 < m <= count && RandReady(d, n, count)
    ensures |r| == count && forall q :: 0 <= q < count ==> |r[q]| <= n
    ensures forall q :: m <= q < count ==> r[q] == []
  {
    DealFrom(Empties(count), Shuffled(Iota(n), d.order), d.cars, 0, m)
  }

  /** The routes after doubling and shuffling each dealt route. */
  function RandomRoutes(n: nat, count: nat, m: nat, d: RandDraws): (r: Solution)
    requires 0 < m <= count && RandReady(d, n, count)
    ensures |r| == count
  {
    var dealt := Dealt(n, count, m, d);
    seq(count, q requires 0 <= q < count => Shuffled(dealt[q] + dealt[q], d.shuffles[q]))
  }

  /** Each random route is a reordering of its dealt calls, doubled; the
      routes at or beyond `m` stay empty. */
  lemma RandomRoutesShape(n: nat, count: nat, m: nat, d: RandDraws)
    requires 0 < m <= count && RandReady(d, n, count)
    ensures var r, dealt := RandomRoutes(n, count, m, d), Dealt(n, count, m, d);
            && (forall q :: 0 <= q < count ==> multiset(r[q]) == multiset(dealt[q] + dealt[q]))
            && (forall q :: m <= q < count ==> r[q] == [])
  {
  }

  /** The routes the drain deals leave room for their shuffles' draws. */
  lemma DealtFits(n: nat, count: nat, m: nat, d: RandDraws, dealt: Solution)
    requires 0 < m <= count && RandReady(d, n, count)
    requires dealt == DealFrom(Empties(count), Shuffled(Iota(n), d.order), d.cars, 0, m)
    ensures dealt == Dealt(n, count, m, d)
    ensures |d.shuffles| == |dealt| && forall q :: 0 <= q < |dealt| ==> 2 * |dealt[q]| <= |d.shuffles[q]|
  {
  }

  /** The dealt routes doubled and shuffled, one by one, are the random
      solution; routes at or beyond `m` stay empty. */
  lemma RandomRoutesByRoute(n: nat, count: nat, m: nat, d: RandDraws, dealt: Solution, routes: Solution)
    requires 0 < m <= count && RandReady(d, n, count) && dealt == Dealt(n, count, m, d)
    requires |routes| == |dealt|
    requires forall q :: 0 <= q < |dealt| ==> routes[q] == Shuffled(dealt[q] + dealt[q], d.shuffles[q])
    ensures routes == RandomRoutes(n, count, m, d)
    ensures forall q :: m <= q < count ==> routes[q] == []
  {
  }

  /** A reordering of the call indices holds each of them once. */
  lemma ReorderedCalls(n: nat, pile: seq<int>)
    requires multiset(pile) == multiset(Iota(n))
    ensures forall x :: x in pile ==> multiset(pile)[x] == 1
    ensures Members(pile) == Ids(n)
  {
    forall x
      ensures x in pile <==> 0 <= x < n
      ensures x in pile ==> multiset(pile)[x] == 1
    {
      IotaCounts(n, x);
      assert x in pile <==> x in multiset(pile);
    }
  }

  /** Every call is dealt once, to one route. */
  lemma DealtPlaced(n: nat, count: nat, m: nat, d: RandDraws)
    requires 0 < m <= count && RandReady(d, n, count)
    ensures Placed(Dealt(n, count, m, d), Ids(n), 1)
  {
    var pile := Shuffled(Iota(n), d.order);
    ReorderedCalls(n, pile);
    DealFresh(count, pile, d.cars, m);
  }

  /** Dealing distinct ids into empty routes places each of them once. */
  lemma DealFresh(count: nat, pile: seq<int>, cars: seq<nat>, m: nat)
    requires 0 < m <= count && |pile| <= |cars|
    requires forall x :: x in pile ==> multiset(pile)[x] == 1
    ensures Placed(DealFrom(Empties(count), pile, cars, 0, m), Members(pile), 1)
  {
    var none: set<int> := {};
    EmptyPlaced(count);
    DealPlaces(Empties(count), none, pile, cars, 0, m);
    assert none + Members(pile) == Members(pile);
  }

  /** A random solution is well formed: each call twice, in one route. */
  lemma RandomRoutesPaired(n: nat, count: nat, m: nat, d: RandDraws)
    requires 0 < m <= count && RandReady(d, n, count)
    ensures Paired(RandomRoutes(n, count, m, d), n)
  {
    DealtPlaced(n, count, m, d);
    DoubledPlaced(Dealt(n, count, m, d), RandomRoutes(n, count, m, d), Ids(n));
  }
}
