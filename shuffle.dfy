/** `std::shuffle` with the engine's draws made explicit. The walk goes from
    the back: position `i` (from the last down to 1) trades places with
    position `draws[i] % (i + 1)`, after which it is final. Every
    permutation is reachable this way, and every outcome is a permutation. */
module Shuffling {

  /** The outcome of the walk over `l`. */
  function Shuffled(l: seq<int>, draws: seq<nat>): (r: seq<int>)
    requires |l| <= |draws|
    ensures |r| == |l| && multiset(r) == multiset(l)
    decreases |l|
  {
    if |l| <= 1 then l
    else
      var i := |l| - 1;
      var j := draws[i] % (i + 1);
      var swapped := l[i := l[j]][j := l[i]];
      SwapKeepsMultiset(l, i, j);
      assert swapped == swapped[..i] + [swapped[i]];
      Shuffled(swapped[..i], draws) + [swapped[i]]
  }

  /** Two positions trading places keep the multiset. */
  lemma SwapKeepsMultiset(l: seq<int>, i: nat, j: nat)
    requires i < |l| && j < |l|
    ensures multiset(l[i := l[j]][j := l[i]]) == multiset(l)
  {
    var once := l[i := l[j]];
    assert multiset(once) == multiset(l) - multiset{l[i]} + multiset{l[j]};
    assert once[j] == l[j];
    assert multiset(once[j := l[i]]) == multiset(once) - multiset{l[j]} + multiset{l[i]};
  }

  /** The walk as `std::shuffle` runs it, in place on the sequence. */
  method Shuffle(l: seq<int>, draws: seq<nat>) returns (r: seq<int>)
    requires |l| <= |draws|
    ensures r == Shuffled(l, draws)
  {
    r := l;
    var i := |r|;
    assert r[..i] == r;
    while 1 < i
      invariant 0 <= i <= |r| == |l|
      invariant Shuffled(l, draws) == Shuffled(r[..i], draws) + r[i..]
    {
      var k := i - 1;
      var j := draws[k] % (k + 1);
      var before := r;
      r := r[k := before[j]][j := before[k]];
      WalkStep(draws, before, r, i, k, j);
      i := k;
    }
    assert Shuffled(r[..i], draws) == r[..i];
    assert r[..i] + r[i..] == r;
  }

  /** The first step of `Shuffled`, written with the traded sequence. */
  lemma ShuffledUnfold(l: seq<int>, draws: seq<nat>, k: nat, j: nat, traded: seq<int>)
    requires 1 < |l| <= |draws| && k + 1 == |l| && j == draws[k] % |l|
    requires traded == l[k := l[j]][j := l[k]]
    ensures Shuffled(l, draws) == Shuffled(traded[..k], draws) + [traded[k]]
  {
  }

  /** One trade of the walk: the front `i` positions still to walk over and
      the finished tail describe the same outcome before and after it. */
  lemma WalkStep(draws: seq<nat>, before: seq<int>, r: seq<int>, i: nat, k: nat, j: nat)
    requires 1 < i <= |before| <= |draws| && k + 1 == i && j == draws[k] % i
    requires r == before[k := before[j]][j := before[k]]
    ensures Shuffled(before[..i], draws) + before[i..] == Shuffled(r[..k], draws) + r[k..]
  {
    TradeFront(draws, before, r, i, k, j);
    TradeTail(before, r, i, k, j);
    Regroup(Shuffled(r[..k], draws), [r[k]], r[i..]);
  }

  /** The front of one trade: walking over it is the trade, then the walk
      over the shorter front. */
  lemma TradeFront(draws: seq<nat>, before: seq<int>, r: seq<int>, i: nat, k: nat, j: nat)
    requires 1 < i <= |before| <= |draws| && k + 1 == i && j == draws[k] % i
    requires r == before[k := before[j]][j := before[k]]
    ensures Shuffled(before[..i], draws) == Shuffled(r[..k], draws) + [r[k]]
  {
    var front, traded := before[..i], r[..i];
    assert traded == front[k := front[j]][j := front[k]];
    ShuffledUnfold(front, draws, k, j, traded);
    assert traded[..k] == r[..k] && traded[k] == r[k];
  }

  /** The tail of one trade: nothing behind position `k` moved. */
  lemma TradeTail(before: seq<int>, r: seq<int>, i: nat, k: nat, j: nat)
    requires k + 1 == i <= |before| && j < i
    requires r == before[k := before[j]][j := before[k]]
    ensures before[i..] == r[i..] && r[k..] == [r[k]] + r[i..]
  {
  }

  /** Concatenation regrouped. */
  lemma Regroup(done: seq<int>, head: seq<int>, tail: seq<int>)
    ensures (done + head) + tail == done + (head + tail)
  {
  }

  /** A walk that never moves anything (every draw picks the position
      itself) leaves the sequence as it was. */
  lemma {:induction false} ShuffledIdentity(l: seq<int>, draws: seq<nat>)
    requires |l| <= |draws|
    requires forall i :: 0 < i < |l| ==> draws[i] % (i + 1) == i
    ensures Shuffled(l, draws) == l
    decreases |l|
  {
    if |l| > 1 {
      var i := |l| - 1;
      assert l[i := l[i]][i := l[i]] == l;
      ShuffledIdentity(l[..i], draws);
      assert l[..i] + [l[i]] == l;
    }
  }
}
