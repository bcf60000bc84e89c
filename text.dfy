/** `split`: the pieces of a text between occurrences of a separator
    character, as the loader reads the instance file line by line. */
module Text {

  /** `std::find` from `i`: the first position at or after `i` holding `c`,
      or the end of the text. */
  function Find(s: string, c: char, i: nat): (e: nat)
    requires i <= |s|
    ensures i <= e <= |s|
    ensures e < |s| ==> s[e] == c
    decreases |s| - i
  {
    if i == |s| || s[i] == c then i else Find(s, c, i + 1)
  }

  /** Nothing `Find` passes over holds the separator. */
  lemma {:induction false} FindSkips(s: string, c: char, i: nat)
    requires i <= |s|
    ensures forall k :: i <= k < Find(s, c, i) ==> s[k] != c
    decreases |s| - i
  {
    if i < |s| && s[i] != c {
      FindSkips(s, c, i + 1);
    }
  }

  /** The `next` lambda: the end stays the end; otherwise the search starts
      one past the current position, so the character there is skipped. */
  function Next(s: string, c: char, i: nat): (e: nat)
    requires i <= |s|
    ensures i <= e <= |s| && (i < |s| ==> i < e)
    ensures e < |s| ==> s[e] == c
  {
    if i == |s| then i else Find(s, c, i + 1)
  }

  /** Nothing strictly between `i` and the next separator is one. */
  lemma NextSkips(s: string, c: char, i: nat)
    requires i <= |s|
    ensures forall k :: i < k < Next(s, c, i) ==> s[k] != c
  {
    if i < |s| {
      FindSkips(s, c, i + 1);
    }
  }

  /** The pieces the loop pushes from `beg` on: past the separator at `beg`
      (unless `beg` is the start of the text), up to the next one, skipping
      empty ones. */
  function SplitFrom(s: string, c: char, beg: nat): (r: seq<string>)
    requires beg <= |s|
    ensures forall i :: 0 <= i < |r| ==> r[i] != []
    decreases |s| - beg
  {
    if beg == |s| then []
    else
      var end := Next(s, c, beg);
      var from := After(beg);
      (if from != end then [s[from..end]] else []) + SplitFrom(s, c, end)
  }

  /** The pieces of the whole text. */
  function Splitting(s: string, c: char): (r: seq<string>)
    ensures s == [] ==> r == []
    ensures forall i :: 0 <= i < |r| ==> r[i] != []
  {
    SplitFrom(s, c, 0)
  }

  /** `split`: `beg` and `end` walk the text from separator to separator,
      and each non-empty stretch between them is pushed. */
  method Split(s: string, c: char) returns (views: seq<string>)
    ensures views == Splitting(s, c)
  {
    views := [];
    var beg, end := 0, Next(s, c, 0);
    while beg != |s|
      invariant beg <= end <= |s| && end == Next(s, c, beg)
      invariant views + SplitFrom(s, c, beg) == Splitting(s, c)
      decreases |s| - beg
    {
      ghost var before := views;
      ghost var at := beg;
      if beg != 0 {
        beg := beg + 1;
      }
      if beg != end {
        views := views + [s[beg..end]];
      }
      SplitStep(s, c, at, before, views);
      beg, end := end, Next(s, c, end);
    }
  }

  /** One round of the `split` loop: the pieces pushed so far, then those
      from `at`, are those pushed after the round, then those from the next
      separator. */
  lemma SplitStep(s: string, c: char, at: nat, before: seq<string>, after: seq<string>)
    requires at < |s|
    requires var from, end := After(at), Next(s, c, at);
             after == before + (if from != end then [s[from..end]] else [])
    ensures before + SplitFrom(s, c, at) == after + SplitFrom(s, c, Next(s, c, at))
  {
  }

  /// Where the pieces come from

  /** The stretch of the text each piece of `SplitFrom(s, c, beg)` is. */
  function SpansFrom(s: string, c: char, beg: nat): (r: seq<(nat, nat)>)
    requires beg <= |s|
    decreases |s| - beg
  {
    if beg == |s| then []
    else
      var end := Next(s, c, beg);
      var from := After(beg);
      (if from != end then [(from, end)] else []) + SpansFrom(s, c, end)
  }

  /** Where the spans from `beg` may start: anywhere from the start of the
      text, but past the separator at `beg` otherwise. */
  function After(beg: nat): nat {
    if beg == 0 then 0 else beg + 1
  }

  /** Every piece is the stretch its span names. */
  lemma {:induction false} SpansArePieces(s: string, c: char, beg: nat)
    requires beg <= |s|
    ensures var r, sp := SplitFrom(s, c, beg), SpansFrom(s, c, beg);
            && |sp| == |r|
            && forall i :: 0 <= i < |r| ==> sp[i].0 <= sp[i].1 <= |s| && r[i] == s[sp[i].0..sp[i].1]
    decreases |s| - beg
  {
    if beg < |s| {
      var end := Next(s, c, beg);
      var from := After(beg);
      SpansArePieces(s, c, end);
      var r, sp := SplitFrom(s, c, end), SpansFrom(s, c, end);
      if from != end {
        assert SplitFrom(s, c, beg) == [s[from..end]] + r;
        assert SpansFrom(s, c, beg) == [(from, end)] + sp;
      } else {
        assert SplitFrom(s, c, beg) == r;
        assert SpansFrom(s, c, beg) == sp;
      }
    }
  }

  /** Spans that start at `lo` or later, are non-empty, end at a separator
      or the end of the text, and start after a separator or at the start
      of the text. */
  predicate Bounded(s: string, c: char, lo: nat, sp: seq<(nat, nat)>) {
    forall i :: 0 <= i < |sp| ==>
      && lo <= sp[i].0 < sp[i].1 <= |s|
      && (sp[i].1 == |s| || s[sp[i].1] == c)
      && (sp[i].0 == 0 || s[sp[i].0 - 1] == c)
  }

  /** Spans in order, never touching. */
  predicate Increasing(sp: seq<(nat, nat)>) {
    forall i, j :: 0 <= i < j < |sp| ==> sp[i].1 < sp[j].0
  }

  /** The spans from `beg` lie past it, in order and never touching; each
      ends at a separator or the end of the text and starts after a
      separator or at the start of the text. */
  lemma {:induction false} SpansInOrder(s: string, c: char, beg: nat)
    requires beg <= |s| && (0 < beg < |s| ==> s[beg] == c)
    ensures Bounded(s, c, After(beg), SpansFrom(s, c, beg)) && Increasing(SpansFrom(s, c, beg))
    decreases |s| - beg
  {
    if beg < |s| {
      var end := Next(s, c, beg);
      var from := After(beg);
      SpansInOrder(s, c, end);
      SpansStep(s, c, beg, end);
    }
  }

  /** One step of `SpansInOrder`: the spans from `beg` are those from the
      next separator, with the stretch before it in front unless empty. */
  lemma SpansStep(s: string, c: char, beg: nat, end: nat)
    requires beg < |s| && end == Next(s, c, beg) && (0 < beg ==> s[beg] == c)
    requires Bounded(s, c, After(end), SpansFrom(s, c, end)) && Increasing(SpansFrom(s, c, end))
    ensures Bounded(s, c, After(beg), SpansFrom(s, c, beg)) && Increasing(SpansFrom(s, c, beg))
  {
    var from, sp := After(beg), SpansFrom(s, c, end);
    SpansFromStep(s, c, beg, end);
    if from == end {
      Loosened(s, c, from, After(end), sp);
    } else {
      PrependSpan(s, c, from, end, sp, SpansFrom(s, c, beg));
    }
  }

  /** One unfolding of `SpansFrom`. */
  lemma SpansFromStep(s: string, c: char, beg: nat, end: nat)
    requires beg < |s| && end == Next(s, c, beg)
    ensures After(beg) == end ==> SpansFrom(s, c, beg) == SpansFrom(s, c, end)
    ensures After(beg) != end ==> SpansFrom(s, c, beg) == [(After(beg), end)] + SpansFrom(s, c, end)
  {
    assert [] + SpansFrom(s, c, end) == SpansFrom(s, c, end);
  }

  /** Spans past a bound are past any lower one. */
  lemma Loosened(s: string, c: char, lo: nat, hi: nat, sp: seq<(nat, nat)>)
    requires lo <= hi && Bounded(s, c, hi, sp)
    ensures Bounded(s, c, lo, sp)
  {
  }

  /** A span before spans that start past its end keeps them bounded and
      in order. */
  lemma PrependSpan(s: string, c: char, from: nat, end: nat, sp: seq<(nat, nat)>, all: seq<(nat, nat)>)
    requires from < end <= |s| && (end == |s| || s[end] == c) && (from == 0 || s[from - 1] == c)
    requires Bounded(s, c, After(end), sp) && Increasing(sp) && all == [(from, end)] + sp
    ensures Bounded(s, c, from, all) && Increasing(all)
  {
    forall i | 0 < i < |all|
      ensures all[i] == sp[i - 1]
    {
    }
  }

  /** No span holds the separator, except at the very start of the text. */
  predicate Clear(s: string, c: char, sp: seq<(nat, nat)>) {
    forall i, k :: 0 <= i < |sp| && sp[i].0 <= k < sp[i].1 && k < |s| && k != 0 ==> s[k] != c
  }

  /** The spans from `beg` hold no separator, except at the very start of
      the text. */
  lemma {:induction false} SpansClear(s: string, c: char, beg: nat)
    requires beg <= |s|
    ensures Clear(s, c, SpansFrom(s, c, beg))
    decreases |s| - beg
  {
    if beg < |s| {
      var end := Next(s, c, beg);
      var from := After(beg);
      SpansClear(s, c, end);
      var sp := SpansFrom(s, c, end);
      if from == end {
        assert SpansFrom(s, c, beg) == sp;
      } else {
        assert SpansFrom(s, c, beg) == [(from, end)] + sp;
        NextSkips(s, c, beg);
        PrependClear(s, c, from, end, sp);
      }
    }
  }

  /** A span free of separators before spans free of them. */
  lemma PrependClear(s: string, c: char, from: nat, end: nat, sp: seq<(nat, nat)>)
    requires forall k :: from <= k < end && k < |s| && k != 0 ==> s[k] != c
    requires Clear(s, c, sp)
    ensures Clear(s, c, [(from, end)] + sp)
  {
    var all := [(from, end)] + sp;
    forall i | 0 < i < |all|
      ensures all[i] == sp[i - 1]
    {
    }
  }

  /** The pieces, read back from the spans: each is a stretch of the text,
      they come in order from left to right with a separator after each but
      the last, and none holds the separator except a separator at the very
      start of the text, which stays at the front of the first piece. */
  lemma PiecesAreStretches(s: string, c: char)
    ensures var r, sp := Splitting(s, c), SpansFrom(s, c, 0);
            && |sp| == |r| && Bounded(s, c, 0, sp) && Increasing(sp)
            && forall i :: 0 <= i < |r| ==> sp[i].1 <= |s| && r[i] == s[sp[i].0..sp[i].1]
    ensures var r := Splitting(s, c);
            forall i, k :: 0 <= i < |r| && 0 <= k < |r[i]| && (i, k) != (0, 0) ==> r[i][k] != c
  {
    var r, sp := Splitting(s, c), SpansFrom(s, c, 0);
    SpansArePieces(s, c, 0);
    SpansInOrder(s, c, 0);
    SpansClear(s, c, 0);
    forall i, k | 0 <= i < |r| && 0 <= k < |r[i]| && (i, k) != (0, 0)
      ensures r[i][k] != c
    {
      assert r[i][k] == s[sp[i].0 + k];
      if i > 0 {
        assert sp[0].1 < sp[i].0;
      }
    }
  }

  /** A text that starts with the separator keeps it: the first piece
      starts at the start of the text. */
  lemma LeadingSeparatorKept(s: string, c: char)
    requires s != []
    ensures Splitting(s, c) != [] && Splitting(s, c)[0] == s[..Next(s, c, 0)]
    ensures s[0] == c ==> Splitting(s, c)[0][0] == c
  {
  }

  /// Joining the pieces back

  /** The pieces with `c` between each two. */
  function Join(pieces: seq<string>, c: char): (s: string)
    decreases |pieces|
  {
    if pieces == [] then []
    else if |pieces| == 1 then pieces[0]
    else pieces[0] + [c] + Join(pieces[1..], c)
  }

  /** A piece in front of other pieces is joined to them by one separator. */
  lemma JoinCons(piece: string, rest: seq<string>, c: char)
    requires rest != []
    ensures Join([piece] + rest, c) == piece + [c] + Join(rest, c)
  {
    assert ([piece] + rest)[1..] == rest;
  }

  /** A text with no separator at either end and no two separators in a
      row. */
  predicate Clean(s: string, c: char) {
    (s != [] ==> s[0] != c && s[|s| - 1] != c)
    && forall i, j :: 0 <= i < |s| && 0 <= j < |s| && j == i + 1 ==> !(s[i] == c && s[j] == c)
  }

  /** From a separator that is not the last character of a clean text, the
      rest of the text is that separator and the pieces joined. */
  lemma {:induction false} JoinFrom(s: string, c: char, beg: nat)
    requires Clean(s, c) && 0 < beg < |s| && s[beg] == c
    ensures SplitFrom(s, c, beg) != []
    ensures s[beg..] == [c] + Join(SplitFrom(s, c, beg), c)
    decreases |s| - beg
  {
    var end := Next(s, c, beg);
    var piece := s[beg + 1..end];
    var rest := SplitFrom(s, c, end);
    assert SplitFrom(s, c, beg) == [piece] + rest;
    Around(s, beg, end);
    if end < |s| {
      JoinFrom(s, c, end);
      JoinCons(piece, rest, c);
    }
  }

  /** The text from `beg` on is its character at `beg`, the stretch up to
      `end`, and the rest. */
  lemma Around(s: string, beg: nat, end: nat)
    requires beg < end <= |s|
    ensures s[beg..] == [s[beg]] + s[beg + 1..end] + s[end..]
    ensures end == |s| ==> s[beg..] == [s[beg]] + s[beg + 1..end]
  {
  }

  /** Joining the pieces of a clean text with the separator gives the
      text back. */
  lemma JoinSplit(s: string, c: char)
    requires Clean(s, c)
    ensures Join(Splitting(s, c), c) == s
  {
    if s != [] {
      var end := Next(s, c, 0);
      var piece := s[..end];
      var rest := SplitFrom(s, c, end);
      FirstPiece(s, c);
      if end < |s| {
        JoinFrom(s, c, end);
        JoinCons(piece, rest, c);
      }
    }
  }

  /** A text that does not start with the separator splits into the stretch
      up to the first separator and the pieces after it. */
  lemma FirstPiece(s: string, c: char)
    requires s != [] && s[0] != c
    ensures var end := Next(s, c, 0);
            && Splitting(s, c) == [s[..end]] + SplitFrom(s, c, end)
            && s == s[..end] + s[end..]
            && (end == |s| ==> SplitFrom(s, c, end) == [])
  {
  }
}
