/** The overlap iterator of the merging interval set: what it collects, and exactly when that is
    the covered part of the query range. */
module IntervalOverlaps {
  import opened Options
  import opened IntervalEndpoints
  import opened IntervalTree
  import opened IntervalIterators

  /** `IntervalOverlapIter::max_bound`: the bound it returns and what is left of `upper_bound`. */
  function OverMaxBound(upper: Option<Bound>, other: Bound): (Option<Bound>, Option<Bound>) {
    match upper
    case None => (None, None)
    case Some(Unbounded) =>
      if other.Unbounded? then (Some(other), upper) else (None, upper)
    case Some(Included(cur)) =>
      if other.Included? && other.v <= cur then (Some(other), upper)
      else if other.Excluded? && other.v < cur then (Some(other), upper)
      else (upper, None)
    case Some(Excluded(cur)) =>
      if !other.Unbounded? && other.v < cur then (Some(other), upper)
      else (upper, None)
  }

  /** An upper endpoint is only met first, while the lower bound is still there. */
  predicate FirstUpperHasBound(it: Iter) {
    it.inner != [] && it.inner[0].IsUpper() ==> it.lower.Some?
  }

  /** One call of `next` on the overlap iterator. */
  function OverNext(it: Iter): (r: (Iter, Option<Range>))
    requires FirstUpperHasBound(it)
    ensures it.inner != [] ==> |r.0.inner| < |it.inner|
    ensures it.inner == [] ==> r.1.None?
  {
    if it.inner == [] then
      (it, None)
    else if it.inner[0].IsUpper() then
      var (hi, upper) := OverMaxBound(it.upper, it.inner[0].AsBound());
      (Iter(None, upper, it.inner[1..]),
       if hi.None? then None else Some(Range(it.lower.value, hi.value)))
    else
      var (lo, upper) := OverMaxBound(it.upper, it.inner[0].AsBound());
      if lo.None? then (Iter(it.lower, upper, it.inner[1..]), None)
      else
        var (hi, upper') :=
          if |it.inner| > 1 then OverMaxBound(upper, it.inner[1].AsBound()) else (upper, None);
        (Iter(it.lower, upper', it.inner[if |it.inner| > 1 then 2 else 1..]),
         if hi.None? then None else Some(Range(lo.value, hi.value)))
  }

  ghost predicate OverOk(it: Iter) {
    Tail(it.inner, true) || (Tail(it.inner, false) && it.lower.Some?)
  }

  lemma OverNextKeepsOk(it: Iter)
    requires OverOk(it)
    ensures FirstUpperHasBound(it)
    ensures OverNext(it).1.Some? ==> OverOk(OverNext(it).0)
  {
    if it.inner != [] {
      if Tail(it.inner, true) {
        TailStep(it.inner, true);
        if |it.inner| > 1 {
          TailStep(it.inner[1..], false);
          assert it.inner[1..][1..] == it.inner[2..];
        }
      } else {
        TailStep(it.inner, false);
      }
    }
  }

  /** What a consumer collects, stopping at the first `None`. */
  ghost function OverCollect(it: Iter): seq<Range>
    requires OverOk(it)
    decreases |it.inner|
  {
    OverNextKeepsOk(it);
    var (it', piece) := OverNext(it);
    if piece.None? then [] else [piece.value] + OverCollect(it')
  }

  /** Where `get_interval_overlaps` starts to look. */
  function OverFrom(s: seq<Endpoint>, start: Bound): (k: nat)
    ensures k <= |s|
  {
    match start
    case Included(v) => FirstAfter(s, UpperExclusive(v))
    case Excluded(v) => FirstAfter(s, UpperInclusive(v))
    case Unbounded => FirstAfter(s, LowerUnbounded)
  }

  function OverStart(s: seq<Endpoint>, r: Range): Iter
    requires CheckRange(r)
  {
    Iter(Some(r.start), Some(r.end), s[OverFrom(s, r.start)..])
  }

  // ---------------------------------------------------------------- bounded ranges

  /** The bound that `max_bound` gets wrong: an inclusive end of the range at the very value where
      a stored interval ends exclusively. */
  predicate Widens(u: Bound, e: Endpoint) {
    u.Included? && e == UpperExclusive(u.v)
  }

  lemma OverBoundAtLower(u: Bound, e: Endpoint)
    requires e.IsLower() && !e.LowerUnbounded? && !u.Unbounded?
    ensures if CutLess(e, Upper(u)) then OverMaxBound(Some(u), e.AsBound()) == (Some(e.AsBound()), Some(u))
            else OverMaxBound(Some(u), e.AsBound()).1.None?
    ensures Lower(e.AsBound()) == e
  {
  }

  lemma OverBoundAtUpper(u: Bound, e: Endpoint)
    requires e.IsUpper() && !u.Unbounded?
    ensures var (hi, rest) := OverMaxBound(Some(u), e.AsBound());
            hi.Some? && (rest == Some(u) || rest.None?) &&
            (if CutLess(e, Upper(u)) && !Widens(u, e) then SameCut(Upper(hi.value), e)
             else SameCut(Upper(hi.value), Upper(u)))
  {
  }

  lemma OverBoundDropped(u: Bound, e: Endpoint, f: Endpoint)
    requires e.IsUpper() && f.IsLower() && CutLess(e, f) && !u.Unbounded?
    requires OverMaxBound(Some(u), e.AsBound()).1.None?
    ensures !CutLess(f, Upper(u))
  {
  }

  lemma OverExhausted(it: Iter)
    requires Tail(it.inner, true) && it.upper.None?
    ensures OverCollect(it) == []
  {
    if it.inner != [] {
      TailStep(it.inner, true);
    }
  }

  /** `p` is the inclusive end of the range and a stored interval ends exclusively there. */
  ghost predicate Widened(u: Bound, s: seq<Endpoint>, p: real) {
    u == Included(p) && UpperExclusive(p) in s
  }

  lemma OverStops(it: Iter, u: Bound, p: real)
    requires Tail(it.inner, true) && it.upper == Some(u) && !u.Unbounded?
    requires it.inner != [] ==> !CutLess(it.inner[0], Upper(u))
    ensures OverCollect(it) == []
    ensures CountBefore(it.inner, p) % 2 == 1 ==> Before(Upper(u), p)
    ensures !Widened(u, it.inner, p)
  {
    if it.inner != [] {
      TailStep(it.inner, true);
      OverBoundAtLower(u, it.inner[0]);
      if !Before(it.inner[0], p) {
        CountZero(it.inner, p);
      }
      BeforeMonotone(Upper(u), it.inner[0], p);
      assert forall e :: e in it.inner ==> e == it.inner[0] || e in it.inner[1..];
    }
  }

  /** One step from a lower endpoint inside the range: the stored interval, cut at the end of the
      range. */
  lemma OverInterval(it: Iter, u: Bound)
    requires Tail(it.inner, true) && it.upper == Some(u) && !u.Unbounded?
    requires it.inner != [] && CutLess(it.inner[0], Upper(u))
    ensures |it.inner| > 1 && FirstUpperHasBound(it)
    ensures var (it', piece) := OverNext(it);
            piece.Some? && CheckRange(piece.value) && Lower(piece.value.start) == it.inner[0] &&
            piece.value.end == OverMaxBound(Some(u), it.inner[1].AsBound()).0.value &&
            it'.inner == it.inner[2..] &&
            it'.upper == OverMaxBound(Some(u), it.inner[1].AsBound()).1
  {
    TailStep(it.inner, true);
    TailStep(it.inner[1..], false);
    OverBoundAtLower(u, it.inner[0]);
    OverBoundAtUpper(u, it.inner[1]);
    CheckRangeIsCutLess(OverNext(it).1.value);
  }

  /** The end of a yielded piece, seen by a point. */
  lemma OverEndPoints(u: Bound, e: Endpoint, p: real)
    requires e.IsUpper() && !u.Unbounded?
    ensures OverMaxBound(Some(u), e.AsBound()).0.Some?
    ensures Before(Upper(OverMaxBound(Some(u), e.AsBound()).0.value), p) <==>
            Before(Upper(u), p) || (Before(e, p) && !(Widens(u, e) && u.v == p))
  {
  }

  lemma {:induction false} OverFromLower(it: Iter, u: Bound, p: real)
    requires Tail(it.inner, true) && it.upper == Some(u) && !u.Unbounded?
    ensures InPieces(OverCollect(it), p) <==>
            !Before(Upper(u), p) && (CountBefore(it.inner, p) % 2 == 1 || Widened(u, it.inner, p))
    decreases |it.inner|, 1
  {
    if it.inner == [] || !CutLess(it.inner[0], Upper(u)) {
      OverStops(it, u, p);
      return;
    }
    OverInterval(it, u);
    OverNextKeepsOk(it);
    var (it', piece) := OverNext(it);
    InPiecesCons(piece.value, OverCollect(it'), p);
    TailStep(it.inner, true);
    TailStep(it.inner[1..], false);
    assert it.inner[1..][1..] == it.inner[2..];
    OverAfterUpper(it', it.inner[1], u, p);
    OverEndPoints(u, it.inner[1], p);
    CountTwo(it.inner, p);
    WidenedTwo(u, it.inner, p);
  }

  lemma WidenedTwo(u: Bound, s: seq<Endpoint>, p: real)
    requires Tail(s, true) && |s| > 1
    ensures Widened(u, s, p) <==> (Widens(u, s[1]) && u.v == p) || Widened(u, s[2..], p)
    ensures Widens(u, s[1]) && u.v == p ==> Before(s[0], p)
    ensures Widened(u, s[2..], p) ==> Before(s[1], p)
  {
    TailStep(s, true);
    assert forall e :: e in s <==> e == s[0] || e == s[1] || e in s[2..];
    TailStep(s[1..], false);
    assert s[1..][1..] == s[2..];
  }

  /** What is left after the upper endpoint `e` was handed to `max_bound`. */
  lemma {:induction false} OverAfterUpper(it: Iter, e: Endpoint, u: Bound, p: real)
    requires Tail(it.inner, true) && !u.Unbounded?
    requires e.IsUpper() && forall f :: f in it.inner ==> CutLess(e, f)
    requires it.upper == OverMaxBound(Some(u), e.AsBound()).1
    ensures InPieces(OverCollect(it), p) <==>
            !Before(Upper(u), p) && (CountBefore(it.inner, p) % 2 == 1 || Widened(u, it.inner, p))
    decreases |it.inner|, 2
  {
    OverBoundAtUpper(u, e);
    if it.upper == Some(u) {
      OverFromLower(it, u, p);
    } else {
      OverExhausted(it);
      if it.inner != [] {
        TailStep(it.inner, true);
        OverBoundDropped(u, e, it.inner[0]);
        OverStops(it.(upper := Some(u)), u, p);
      }
    }
  }

  /** Pieces are ordered, and the first one starts at the first endpoint. */
  lemma {:induction false} OverOrdered(it: Iter, u: Bound)
    requires Tail(it.inner, true) && it.upper == Some(u) && !u.Unbounded?
    ensures Ordered(OverCollect(it))
    ensures OverCollect(it) != [] ==>
              it.inner != [] && CutLess(it.inner[0], Upper(u)) && Lower(OverCollect(it)[0].start) == it.inner[0]
    decreases |it.inner|, 1
  {
    if it.inner == [] || !CutLess(it.inner[0], Upper(u)) {
      OverStops(it, u, 0.0);
      return;
    }
    OverInterval(it, u);
    OverNextKeepsOk(it);
    var (it', piece) := OverNext(it);
    assert OverCollect(it)[1..] == OverCollect(it');
    TailStep(it.inner, true);
    TailStep(it.inner[1..], false);
    assert it.inner[1..][1..] == it.inner[2..];
    OverOrderedAfter(it', it.inner[1], u, piece.value.end);
  }

  /** What follows a piece that ends at the upper endpoint `e` is ordered and starts after it. */
  lemma {:induction false} OverOrderedAfter(it: Iter, e: Endpoint, u: Bound, end: Bound)
    requires Tail(it.inner, true) && !u.Unbounded?
    requires e.IsUpper() && forall f :: f in it.inner ==> CutLess(e, f)
    requires OverMaxBound(Some(u), e.AsBound()) == (Some(end), it.upper)
    ensures Ordered(OverCollect(it))
    ensures OverCollect(it) != [] ==> CutLess(Upper(end), Lower(OverCollect(it)[0].start))
    decreases |it.inner|, 2
  {
    OverBoundAtUpper(u, e);
    if it.upper == Some(u) {
      OverOrdered(it, u);
      if OverCollect(it) != [] {
        assert it.inner[0] in it.inner;
        CutLessTrans(e, it.inner[0], Upper(u));
      }
    } else {
      OverExhausted(it);
    }
  }

  // ---------------------------------------------------------------- the whole iteration

  lemma OverFromSplits(s: seq<Endpoint>, start: Bound)
    requires Valid(s)
    ensures forall e :: e in s[..OverFrom(s, start)] ==> !CutLess(Lower(start), e)
    ensures forall e :: e in s[OverFrom(s, start)..] ==> CutLess(Lower(start), e)
    ensures Tail(s[OverFrom(s, start)..], OverFrom(s, start) % 2 == 0)
  {
    var k := OverFrom(s, start);
    forall e | e in s[k..] ensures CutLess(Lower(start), e) {
      var i :| 0 <= i < |s[k..]| && s[k..][i] == e;
      assert CutLess(Lower(start), s[k]);
      if i > 0 {
        CutLessTrans(Lower(start), s[k], s[k + i]);
      }
    }
    TailOfValid(s, k);
  }

  lemma OverStartOk(s: seq<Endpoint>, r: Range)
    requires Valid(s) && CheckRange(r)
    ensures OverOk(OverStart(s, r))
  {
    OverFromSplits(s, r.start);
  }

  lemma {:induction false} OverCount(s: seq<Endpoint>, r: Range, p: real)
    requires Valid(s) && Before(Lower(r.start), p)
    ensures CountBefore(s, p) == OverFrom(s, r.start) + CountBefore(s[OverFrom(s, r.start)..], p)
  {
    var k := OverFrom(s, r.start);
    OverFromSplits(s, r.start);
    assert s == s[..k] + s[k..];
    CountConcat(s[..k], s[k..], p);
    CountBelow(s[..k], Lower(r.start), p);
  }

  /** The first step when the range starts inside a stored interval. */
  lemma {:induction false} OverFromUpper(it: Iter, r: Range, p: real)
    requires Tail(it.inner, false) && it.lower == Some(r.start) && it.upper == Some(r.end)
    requires !r.end.Unbounded? && forall e :: e in it.inner ==> CutLess(Lower(r.start), e)
    ensures InPieces(OverCollect(it), p) <==>
            InRange(r, p) && (CountBefore(it.inner, p) % 2 == 0 || Widened(r.end, it.inner, p))
  {
    TailStep(it.inner, false);
    OverNextKeepsOk(it);
    var e := it.inner[0];
    OverBoundAtUpper(r.end, e);
    var (it', piece) := OverNext(it);
    InPiecesCons(piece.value, OverCollect(it'), p);
    OverAfterUpper(it', e, r.end, p);
    OverEndPoints(r.end, e, p);
    CountCons(it.inner, p);
    assert e in it.inner && CutLess(Lower(r.start), e);
    BeforeMonotone(Lower(r.start), e, p);
    if !Before(e, p) {
      CountZero(it.inner, p);
    }
    WidenedCons(r.end, it.inner, p);
  }

  lemma WidenedCons(u: Bound, s: seq<Endpoint>, p: real)
    requires Tail(s, false)
    ensures Widened(u, s, p) <==> (Widens(u, s[0]) && u.v == p) || Widened(u, s[1..], p)
    ensures Widened(u, s[1..], p) ==> Before(s[0], p)
  {
    TailStep(s, false);
    assert forall x :: x in s <==> x == s[0] || x in s[1..];
  }

  /** The first step when the range starts outside every stored interval. */
  lemma {:induction false} OverFromGap(it: Iter, r: Range, p: real)
    requires Tail(it.inner, true) && it.lower == Some(r.start) && it.upper == Some(r.end)
    requires !r.end.Unbounded? && forall e :: e in it.inner ==> CutLess(Lower(r.start), e)
    ensures InPieces(OverCollect(it), p) <==>
            InRange(r, p) && (CountBefore(it.inner, p) % 2 == 1 || Widened(r.end, it.inner, p))
  {
    OverFromLower(it, r.end, p);
    if it.inner != [] {
      assert it.inner[0] in it.inner && CutLess(Lower(r.start), it.inner[0]);
      BeforeMonotone(Lower(r.start), it.inner[0], p);
      if !Before(it.inner[0], p) {
        CountZero(it.inner, p);
      }
    }
  }

  lemma {:induction false} OverFromEither(it: Iter, k: nat, r: Range, p: real)
    requires Tail(it.inner, k % 2 == 0) && it.lower == Some(r.start) && it.upper == Some(r.end)
    requires !r.end.Unbounded? && forall e :: e in it.inner ==> CutLess(Lower(r.start), e)
    ensures InPieces(OverCollect(it), p) <==>
            InRange(r, p) && ((k + CountBefore(it.inner, p)) % 2 == 1 || Widened(r.end, it.inner, p))
  {
    if k % 2 == 0 {
      OverFromGap(it, r, p);
    } else {
      OverFromUpper(it, r, p);
    }
  }

  lemma {:induction false} OverlapsByParity(s: seq<Endpoint>, r: Range, p: real)
    requires Valid(s) && CheckRange(r) && !r.end.Unbounded?
    ensures OverOk(OverStart(s, r))
    ensures InPieces(OverCollect(OverStart(s, r)), p) <==>
            InRange(r, p) &&
            ((OverFrom(s, r.start) + CountBefore(OverStart(s, r).inner, p)) % 2 == 1 ||
             Widened(r.end, OverStart(s, r).inner, p))
  {
    OverStartOk(s, r);
    OverFromSplits(s, r.start);
    OverFromEither(OverStart(s, r), OverFrom(s, r.start), r, p);
  }

  /** With a bounded end, the iterator yields the covered part of the range, plus the end point
      itself when a stored interval ends exclusively there. */
  lemma {:induction false} OverlapsBounded(s: seq<Endpoint>, r: Range, p: real)
    requires Valid(s) && CheckRange(r) && !r.end.Unbounded?
    ensures OverOk(OverStart(s, r))
    ensures InPieces(OverCollect(OverStart(s, r)), p) <==>
            InRange(r, p) && (Contains(s, p) || Widened(r.end, OverStart(s, r).inner, p))
  {
    OverlapsByParity(s, r, p);
    if InRange(r, p) {
      ContainedByParity(s, r, p);
    }
  }

  lemma {:induction false} ContainedByParity(s: seq<Endpoint>, r: Range, p: real)
    requires Valid(s) && CheckRange(r) && Before(Lower(r.start), p)
    ensures Contains(s, p) <==> (OverFrom(s, r.start) + CountBefore(OverStart(s, r).inner, p)) % 2 == 1
  {
    ContainsIffOdd(s, p);
    OverCount(s, r, p);
  }

  /** With an unbounded end, nothing comes out unless the set covers the whole range. */
  lemma OverlapsUnbounded(s: seq<Endpoint>, r: Range)
    requires Valid(s) && r.end.Unbounded?
    ensures OverOk(OverStart(s, r))
    ensures OverCollect(OverStart(s, r)) ==
            if OverFrom(s, r.start) < |s| && s[OverFrom(s, r.start)].UpperUnbounded? then [r] else []
  {
    var it, k := OverStart(s, r), OverFrom(s, r.start);
    OverStartOk(s, r);
    OverFromSplits(s, r.start);
    if k < |s| {
      TailStep(it.inner, k % 2 == 0);
      if s[k].UpperUnbounded? {
        assert k + 1 < |s| ==> CutLess(s[k], s[k + 1]);
        assert it.inner == [UpperUnbounded];
        assert OverCollect(it) == [r] + OverCollect(Iter(None, Some(Unbounded), []));
      }
    }
  }

  /** What a caller can check beforehand: the end of the range is exclusive; or inclusive, and no
      stored interval ends exclusively there (unless the range is that one point); or unbounded,
      and the set ends before the range or covers all of it. */
  predicate OverlapsSafe(s: seq<Endpoint>, r: Range) {
    match r.end
    case Excluded(_) => true
    case Included(c) => UpperExclusive(c) !in s || r.start == Included(c)
    case Unbounded =>
      OverFrom(s, r.start) == |s| || s[OverFrom(s, r.start)].UpperUnbounded?
  }

  ghost predicate OverlapsExact(s: seq<Endpoint>, r: Range)
    requires Valid(s) && CheckRange(r)
  {
    OverStartOk(s, r);
    forall p :: InPieces(OverCollect(OverStart(s, r)), p) <==> InRange(r, p) && Contains(s, p)
  }

  lemma ExclusiveEndReached(s: seq<Endpoint>, r: Range, c: real)
    requires Valid(s) && CheckRange(r) && r.end == Included(c)
    ensures UpperExclusive(c) in OverStart(s, r).inner <==> UpperExclusive(c) in s && r.start != Included(c)
  {
    var k := OverFrom(s, r.start);
    assert s == s[..k] + s[k..];
    OverFromSplits(s, r.start);
  }

  /** An exclusive end is not in the set. */
  lemma ExclusiveEndUncovered(s: seq<Endpoint>, c: real)
    requires Valid(s) && UpperExclusive(c) in s
    ensures !Contains(s, c)
  {
    var i :| 0 <= i < |s| && s[i] == UpperExclusive(c);
    if i + 1 < |s| {
      assert CutLess(s[i], s[i + 1]);
    }
    CountIs(s, c, i + 1);
    ContainsIffOdd(s, c);
    assert s[i].IsLower() <==> (0 + i) % 2 == 0;
  }

  lemma BoundedExactIffSafe(s: seq<Endpoint>, r: Range)
    requires Valid(s) && CheckRange(r) && !r.end.Unbounded?
    ensures OverlapsExact(s, r) <==> OverlapsSafe(s, r)
  {
    OverStartOk(s, r);
    if r.end.Included? {
      ExclusiveEndReached(s, r, r.end.v);
    }
    if OverlapsSafe(s, r) {
      forall p ensures InPieces(OverCollect(OverStart(s, r)), p) <==> InRange(r, p) && Contains(s, p) {
        OverlapsBounded(s, r, p);
      }
    } else {
      var c := r.end.v;
      OverlapsBounded(s, r, c);
      ExclusiveEndUncovered(s, c);
      OverFromSplits(s, r.start);
      assert InPieces(OverCollect(OverStart(s, r)), c) && !Contains(s, c);
    }
  }

  /** The point shown to be missed when the range is unbounded above and only partly covered. */
  lemma UnboundedMiss(s: seq<Endpoint>, r: Range) returns (p: real)
    requires Valid(s) && CheckRange(r) && r.end.Unbounded? && !OverlapsSafe(s, r)
    ensures InRange(r, p) && Contains(s, p)
  {
    var k := OverFrom(s, r.start);
    OverFromSplits(s, r.start);
    assert s[k].IsLower() <==> (0 + k) % 2 == 0;
    assert s[k] in s[k..];
    if s[k].IsLower() {
      p := Witness(s[k], s[k + 1]);
      BeforeMonotone(Lower(r.start), s[k], p);
      CountIs(s, p, k + 1);
    } else {
      p := Witness(Lower(r.start), s[k]);
      if k > 0 {
        assert s[k - 1] in s[..k];
        BeforeMonotone(s[k - 1], Lower(r.start), p);
      }
      CountIs(s, p, k);
    }
    ContainsIffOdd(s, p);
  }

  lemma UnboundedExactIffSafe(s: seq<Endpoint>, r: Range)
    requires Valid(s) && CheckRange(r) && r.end.Unbounded?
    ensures OverlapsExact(s, r) <==> OverlapsSafe(s, r)
  {
    OverStartOk(s, r);
    OverlapsUnbounded(s, r);
    if OverlapsSafe(s, r) {
      forall p ensures InPieces(OverCollect(OverStart(s, r)), p) <==> InRange(r, p) && Contains(s, p) {
        ContainsIffOdd(s, p);
        if InRange(r, p) {
          UnboundedSafeCount(s, r, p);
        }
        InPiecesCons(r, [], p);
      }
    } else {
      var p := UnboundedMiss(s, r);
      assert !InPieces(OverCollect(OverStart(s, r)), p);
    }
  }

  lemma {:induction false} UnboundedSafeCount(s: seq<Endpoint>, r: Range, p: real)
    requires Valid(s) && r.end.Unbounded? && OverlapsSafe(s, r) && InRange(r, p)
    ensures CountBefore(s, p) % 2 == 1 <==> OverFrom(s, r.start) < |s|
  {
    var k := OverFrom(s, r.start);
    OverFromSplits(s, r.start);
    if k > 0 {
      assert s[k - 1] in s[..k];
      BeforeMonotone(s[k - 1], Lower(r.start), p);
    }
    CountIs(s, p, k);
    if k < |s| {
      assert s[k].IsLower() <==> (0 + k) % 2 == 0;
    }
  }

  /** `get_interval_overlaps` yields exactly the covered part of the range when, and only when, the
      range is safe. */
  lemma OverlapsExactIffSafe(s: seq<Endpoint>, r: Range)
    requires Valid(s) && CheckRange(r)
    ensures OverlapsExact(s, r) <==> OverlapsSafe(s, r)
  {
    if r.end.Unbounded? {
      UnboundedExactIffSafe(s, r);
    } else {
      BoundedExactIffSafe(s, r);
    }
  }

  /** `[1, 2)` is stored and `[0, 2]` is asked for: the answer `[1, 2]` holds the uncovered `2`. */
  lemma OverlapsCanWiden()
    ensures var s, r := [LowerInclusive(1.0), UpperExclusive(2.0)], Range(Included(0.0), Included(2.0));
            Valid(s) && CheckRange(r) && OverOk(OverStart(s, r)) &&
            InPieces(OverCollect(OverStart(s, r)), 2.0) && !Contains(s, 2.0)
  {
    var s, r := [LowerInclusive(1.0), UpperExclusive(2.0)], Range(Included(0.0), Included(2.0));
    OverlapsBounded(s, r, 2.0);
    ExclusiveEndReached(s, r, 2.0);
    ExclusiveEndUncovered(s, 2.0);
  }

  /** Pieces are non-empty, ordered and separated by gaps, whatever the range. */
  lemma {:induction false} OverlapsOrdered(s: seq<Endpoint>, r: Range)
    requires Valid(s) && CheckRange(r)
    ensures OverOk(OverStart(s, r)) && Ordered(OverCollect(OverStart(s, r)))
  {
    OverStartOk(s, r);
    if r.end.Unbounded? {
      OverlapsUnbounded(s, r);
    } else {
      OverFromSplits(s, r.start);
      if OverFrom(s, r.start) % 2 == 0 {
        OverOrdered(OverStart(s, r), r.end);
      } else {
        OverOrderedInside(OverStart(s, r), r);
      }
    }
  }

  /** A range that starts inside a stored interval first yields the rest of that interval. */
  lemma {:induction false} OverOrderedInside(it: Iter, r: Range)
    requires CheckRange(r) && Tail(it.inner, false) && it.lower == Some(r.start) && it.upper == Some(r.end)
    requires !r.end.Unbounded? && forall e :: e in it.inner ==> CutLess(Lower(r.start), e)
    ensures Ordered(OverCollect(it))
  {
    TailStep(it.inner, false);
    OverNextKeepsOk(it);
    var e := it.inner[0];
    OverBoundAtUpper(r.end, e);
    var (it', piece) := OverNext(it);
    assert OverCollect(it)[1..] == OverCollect(it');
    assert e in it.inner && CutLess(Lower(r.start), e);
    CheckRangeIsCutLess(r);
    CheckRangeIsCutLess(piece.value);
    OverOrderedAfter(it', e, r.end, piece.value.end);
  }
}
