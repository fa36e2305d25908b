/** The difference and overlap iterators of the merging interval set, as values: what one call of
    `next` does, and what a consumer collects up to the first `None`. */
module IntervalIterators {
  import opened Options
  import opened IntervalEndpoints
  import opened IntervalTree

  /** The state of either iterator: what is left of the query range and of the stored set. */
  datatype Iter = Iter(lower: Option<Bound>, upper: Option<Bound>, inner: seq<Endpoint>)

  /** A collected piece list, as a set of points. */
  ghost predicate InPieces(ps: seq<Range>, p: real) {
    exists q :: q in ps && InRange(q, p)
  }

  lemma InPiecesCons(q: Range, ps: seq<Range>, p: real)
    ensures InPieces([q] + ps, p) <==> InRange(q, p) || InPieces(ps, p)
  {
    assert forall x :: x in [q] + ps <==> x == q || x in ps;
  }

  /** Pieces are non-empty, in increasing order, and a gap separates each from the next. */
  ghost predicate Ordered(ps: seq<Range>) {
    ps != [] ==>
      CheckRange(ps[0]) &&
      (|ps| > 1 ==> CutLess(Upper(ps[0].end), Lower(ps[1].start))) &&
      Ordered(ps[1..])
  }

  /** Cut-sorted endpoints of alternating kind, the first of kind `lower`, the last an upper one,
      none of them unbounded below. */
  ghost predicate Tail(s: seq<Endpoint>, lower: bool) {
    CutSorted(s) &&
    (forall e :: e in s ==> !e.LowerUnbounded?) &&
    AlternatesFrom(s, if lower then 0 else 1) &&
    |s| % 2 == (if lower then 0 else 1)
  }

  lemma TailStep(s: seq<Endpoint>, lower: bool)
    requires Tail(s, lower) && s != []
    ensures s[0].IsLower() == lower
    ensures Tail(s[1..], !lower)
    ensures forall e :: e in s[1..] ==> CutLess(s[0], e)
  {
    forall i | 0 <= i < |s[1..]|
      ensures s[1..][i].IsLower() <==> ((if !lower then 0 else 1) + i) % 2 == 0
    {
      assert s[1..][i] == s[i + 1];
    }
    assert s[0].IsLower() <==> ((if lower then 0 else 1) + 0) % 2 == 0;
  }

  lemma CountZero(s: seq<Endpoint>, p: real)
    requires CutSorted(s) && s != [] && !Before(s[0], p)
    ensures CountBefore(s, p) == 0
  {
    CountIs(s, p, 0);
  }

  // ---------------------------------------------------------------- the difference iterator

  /** `IntervalDiffIter::max_bound`: the bound it returns and what is left of `upper_bound`. */
  function DiffMaxBound(upper: Option<Bound>, other: Bound): (r: (Option<Bound>, Option<Bound>)) {
    match upper
    case None => (None, None)
    case Some(Unbounded) =>
      (match other
       case Unbounded => (None, upper)
       case Included(oth) => (Some(Excluded(oth)), upper)
       case Excluded(oth) => (Some(Included(oth)), upper))
    case Some(Included(cur)) =>
      if other.Included? && other.v < cur then (Some(Excluded(other.v)), upper)
      else if other.Excluded? && other.v < cur then (Some(Included(other.v)), upper)
      else if other.Excluded? && other.v == cur then (Some(Included(cur)), upper)
      else if other.Included? && other.v == cur then (Some(Excluded(cur)), None)
      else (upper, None)
    case Some(Excluded(cur)) =>
      if other.Included? && other.v < cur then (Some(Excluded(other.v)), upper)
      else if other.Excluded? && other.v < cur then (Some(Included(other.v)), upper)
      else (upper, None)
  }

  /** A lower endpoint is only met first, while the lower bound is still there. */
  predicate FirstLowerHasBound(it: Iter) {
    it.inner != [] && it.inner[0].IsLower() ==> it.lower.Some?
  }

  /** One call of `next` on the difference iterator. */
  function DiffNext(it: Iter): (r: (Iter, Option<Range>))
    requires FirstLowerHasBound(it)
    ensures |r.0.inner| <= |it.inner|
    ensures it.inner != [] ==> |r.0.inner| < |it.inner|
    ensures it.inner == [] ==> r.0.lower.None? && r.0.upper.None?
  {
    if it.inner == [] then
      (Iter(None, None, []),
       if it.lower.Some? && it.upper.Some? then Some(Range(it.lower.value, it.upper.value)) else None)
    else if it.inner[0].IsLower() then
      var (hi, upper) := DiffMaxBound(it.upper, it.inner[0].AsBound());
      (Iter(None, upper, it.inner[1..]),
       if hi.None? then None else Some(Range(it.lower.value, hi.value)))
    else
      var (lo, upper) := DiffMaxBound(it.upper, it.inner[0].AsBound());
      if lo.None? then (Iter(it.lower, upper, it.inner[1..]), None)
      else
        var (hi, upper') :=
          if |it.inner| > 1 then DiffMaxBound(upper, it.inner[1].AsBound()) else (upper, None);
        (Iter(it.lower, upper', it.inner[if |it.inner| > 1 then 2 else 1..]),
         if hi.None? then None else Some(Range(lo.value, hi.value)))
  }

  /** The iterator made by `get_interval_difference`. */
  function DiffStart(s: seq<Endpoint>, r: Range): (it: Iter)
    requires CheckRange(r)
  {
    Iter(Some(r.start), Some(r.end), s[DiffFrom(s, r.start)..])
  }

  /** At an upper endpoint, `max_bound` gives the start of the gap after it, if the range is not
      over by then; otherwise nothing more will come out of the iterator. */
  lemma DiffBoundAtUpper(u: Bound, e: Endpoint)
    requires e.IsUpper()
    ensures var (lo, rest) := DiffMaxBound(Some(u), e.AsBound());
            if CutLess(e, Upper(u)) then lo.Some? && rest == Some(u) && SameCut(Lower(lo.value), e)
            else lo.None? || rest.None?
  {
  }

  /** At a lower endpoint, `max_bound` gives the nearer of it and the end of the range. */
  lemma DiffBoundAtLower(u: Bound, e: Endpoint)
    requires e.IsLower() && !e.LowerUnbounded?
    ensures var (hi, rest) := DiffMaxBound(Some(u), e.AsBound());
            hi.Some? &&
            (if CutLess(e, Upper(u)) then SameCut(Upper(hi.value), e)
             else SameCut(Upper(hi.value), Upper(u))) &&
            (rest == Some(u) || rest.None?)
  {
  }

  /** When `max_bound` drops the end of the range at a lower endpoint, no later cut lies inside. */
  lemma DiffBoundDropped(u: Bound, e: Endpoint, f: Endpoint)
    requires e.IsLower() && !e.LowerUnbounded? && f.IsUpper() && CutLess(e, f)
    requires DiffMaxBound(Some(u), e.AsBound()).1.None?
    ensures !CutLess(f, Upper(u))
  {
  }

  /** The states the difference iterator goes through. */
  ghost predicate DiffOk(it: Iter) {
    Tail(it.inner, false) || (Tail(it.inner, true) && (it.inner == [] || it.lower.Some?))
  }

  lemma DiffOkHasBound(it: Iter)
    requires DiffOk(it)
    ensures FirstLowerHasBound(it)
  {
    if Tail(it.inner, false) {
      TailStep(it.inner, false);
    }
  }

  lemma DiffNextKeepsOk(it: Iter)
    requires DiffOk(it)
    ensures FirstLowerHasBound(it)
    ensures DiffNext(it).1.Some? ==> DiffOk(DiffNext(it).0)
  {
    DiffOkHasBound(it);
    if it.inner != [] {
      if Tail(it.inner, true) {
        TailStep(it.inner, true);
      } else {
        TailStep(it.inner, false);
        if |it.inner| > 1 {
          TailStep(it.inner[1..], true);
          assert it.inner[1..][1..] == it.inner[2..];
        }
      }
    }
  }

  /** What a consumer collects, stopping at the first `None`. */
  ghost function DiffCollect(it: Iter): seq<Range>
    requires DiffOk(it)
    decreases |it.inner|, it.lower.Some?
  {
    DiffNextKeepsOk(it);
    var (it', piece) := DiffNext(it);
    if piece.None? then [] else [piece.value] + DiffCollect(it')
  }

  /** Nothing comes out once the end of the range is gone. */
  lemma DiffExhausted(it: Iter)
    requires Tail(it.inner, false) && it.upper.None?
    ensures DiffCollect(it) == []
  {
    TailStep(it.inner, false);
  }

  /** One step from an upper endpoint that lies inside the range: the gap up to the next lower
      endpoint or the end of the range. */
  lemma DiffGap(it: Iter, u: Bound)
    requires Tail(it.inner, false) && it.upper == Some(u)
    requires CutLess(it.inner[0], Upper(u))
    ensures FirstLowerHasBound(it)
    ensures var (it', piece) := DiffNext(it);
            piece.Some? && CheckRange(piece.value) &&
            SameCut(Lower(piece.value.start), it.inner[0]) &&
            (if |it.inner| > 1 && CutLess(it.inner[1], Upper(u))
             then SameCut(Upper(piece.value.end), it.inner[1])
             else SameCut(Upper(piece.value.end), Upper(u))) &&
            (|it.inner| == 1 ==> it'.inner == [] && it'.upper.None?) &&
            (|it.inner| > 1 ==>
               it'.inner == it.inner[2..] &&
               it'.upper == DiffMaxBound(Some(u), it.inner[1].AsBound()).1)
  {
    TailStep(it.inner, false);
    DiffBoundAtUpper(u, it.inner[0]);
    if |it.inner| > 1 {
      TailStep(it.inner[1..], true);
      DiffBoundAtLower(u, it.inner[1]);
    }
    CheckRangeIsCutLess(DiffNext(it).1.value);
  }

  lemma SameCutBefore(a: Endpoint, b: Endpoint, p: real)
    requires SameCut(a, b)
    ensures Before(a, p) <==> Before(b, p)
  {
  }

  lemma {:induction false} CountTwo(s: seq<Endpoint>, p: real)
    requires CutSorted(s) && |s| >= 2
    ensures CountBefore(s, p) % 2 == 1 <==>
            (Before(s[0], p) && !Before(s[1], p)) || CountBefore(s[2..], p) % 2 == 1
    ensures !Before(s[1], p) ==> CountBefore(s[2..], p) == 0
  {
    assert s[1..][1..] == s[2..];
    assert CountBefore(s, p) ==
           (if Before(s[0], p) then 1 else 0) + (if Before(s[1], p) then 1 else 0) + CountBefore(s[2..], p);
    BeforeMonotone(s[0], s[1], p);
    if !Before(s[1], p) {
      CountAbove(s[2..], s[1], p);
    }
  }

  /** Past the end of the range the iterator yields nothing, and there is nothing to yield. */
  lemma DiffStops(it: Iter, u: Bound, p: real)
    requires Tail(it.inner, false) && it.upper == Some(u)
    requires !CutLess(it.inner[0], Upper(u))
    ensures DiffCollect(it) == []
    ensures CountBefore(it.inner, p) % 2 == 1 ==> Before(Upper(u), p)
  {
    TailStep(it.inner, false);
    DiffBoundAtUpper(u, it.inner[0]);
    if !Before(it.inner[0], p) {
      CountZero(it.inner, p);
    }
    BeforeMonotone(Upper(u), it.inner[0], p);
  }

  /** From an upper endpoint on, the collected pieces are the uncovered points after it. */
  lemma {:induction false} DiffFromUpper(it: Iter, u: Bound, p: real)
    requires Tail(it.inner, false) && it.upper == Some(u)
    ensures InPieces(DiffCollect(it), p) <==>
            CountBefore(it.inner, p) % 2 == 1 && !Before(Upper(u), p)
    decreases |it.inner|, 1
  {
    if !CutLess(it.inner[0], Upper(u)) {
      DiffStops(it, u, p);
      return;
    }
    DiffGap(it, u);
    DiffNextKeepsOk(it);
    var (it', piece) := DiffNext(it);
    InPiecesCons(piece.value, DiffCollect(it'), p);
    SameCutBefore(Lower(piece.value.start), it.inner[0], p);
    if |it.inner| == 1 {
      SameCutBefore(Upper(piece.value.end), Upper(u), p);
    } else {
      CountTwo(it.inner, p);
      DiffRest(it, u, p);
      if CutLess(it.inner[1], Upper(u)) {
        SameCutBefore(Upper(piece.value.end), it.inner[1], p);
        BeforeMonotone(it.inner[1], Upper(u), p);
      } else {
        SameCutBefore(Upper(piece.value.end), Upper(u), p);
        BeforeMonotone(Upper(u), it.inner[1], p);
      }
    }
  }

  lemma {:induction false} DiffRest(it: Iter, u: Bound, p: real)
    requires Tail(it.inner, false) && it.upper == Some(u) && |it.inner| > 1
    requires CutLess(it.inner[0], Upper(u))
    ensures FirstLowerHasBound(it)
    ensures DiffOk(DiffNext(it).0)
    ensures InPieces(DiffCollect(DiffNext(it).0), p) <==>
            CountBefore(it.inner[2..], p) % 2 == 1 && !Before(Upper(u), p)
    decreases |it.inner|, 0
  {
    DiffGap(it, u);
    DiffNextKeepsOk(it);
    TailStep(it.inner, false);
    TailStep(it.inner[1..], true);
    assert it.inner[1..][1..] == it.inner[2..];
    DiffAfterLower(DiffNext(it).0, it.inner[1], u, p);
  }

  /** What is left after the lower endpoint `e` was handed to `max_bound`. */
  lemma {:induction false} DiffAfterLower(it: Iter, e: Endpoint, u: Bound, p: real)
    requires Tail(it.inner, false)
    requires e.IsLower() && !e.LowerUnbounded? && forall f :: f in it.inner ==> CutLess(e, f)
    requires it.upper == DiffMaxBound(Some(u), e.AsBound()).1
    ensures InPieces(DiffCollect(it), p) <==> CountBefore(it.inner, p) % 2 == 1 && !Before(Upper(u), p)
    decreases |it.inner|, 2
  {
    DiffBoundAtLower(u, e);
    if it.upper == Some(u) {
      DiffFromUpper(it, u, p);
    } else {
      TailStep(it.inner, false);
      DiffExhausted(it);
      DiffBoundDropped(u, e, it.inner[0]);
      if !Before(it.inner[0], p) {
        CountZero(it.inner, p);
      }
      BeforeMonotone(Upper(u), it.inner[0], p);
    }
  }

  /** Pieces collected from an upper endpoint on are ordered and start no earlier than it. */
  lemma {:induction false} DiffOrdered(it: Iter)
    requires Tail(it.inner, false)
    ensures Ordered(DiffCollect(it))
    ensures DiffCollect(it) != [] ==> !CutLess(Lower(DiffCollect(it)[0].start), it.inner[0])
    decreases |it.inner|
  {
    if it.upper.None? {
      DiffExhausted(it);
      return;
    }
    var u := it.upper.value;
    if !CutLess(it.inner[0], Upper(u)) {
      DiffStops(it, u, 0.0);
      return;
    }
    DiffGap(it, u);
    DiffNextKeepsOk(it);
    var (it', piece) := DiffNext(it);
    var rest := DiffCollect(it');
    assert DiffCollect(it)[1..] == rest;
    if |it.inner| > 1 {
      TailStep(it.inner, false);
      TailStep(it.inner[1..], true);
      assert it.inner[1..][1..] == it.inner[2..];
      DiffOrdered(it');
      if rest != [] {
        CutLessTrans(Upper(piece.value.end), it.inner[1], it.inner[2]);
        CutLessTrans(Upper(piece.value.end), it.inner[2], Lower(rest[0].start));
      }
    }
  }

  /** Where `get_interval_difference` starts to look. */
  function DiffFrom(s: seq<Endpoint>, start: Bound): (k: nat)
    ensures k <= |s|
  {
    match start
    case Included(v) => FirstFrom(s, UpperExclusive(v))
    case Excluded(v) => FirstAfter(s, UpperInclusive(v))
    case Unbounded => FirstAfter(s, LowerUnbounded)
  }

  /** Everything skipped lies before the range; what is left does not, and a lower endpoint that is
      left lies strictly inside or after. */
  lemma DiffFromSplits(s: seq<Endpoint>, start: Bound)
    requires Valid(s)
    ensures forall e :: e in s[..DiffFrom(s, start)] ==> !CutLess(Lower(start), e)
    ensures forall e :: e in s[DiffFrom(s, start)..] ==> !CutLess(e, Lower(start)) && !e.LowerUnbounded?
    ensures DiffFrom(s, start) < |s| && s[DiffFrom(s, start)].IsLower() ==>
              CutLess(Lower(start), s[DiffFrom(s, start)])
  {
    var k := DiffFrom(s, start);
    forall e | e in s[k..] ensures !CutLess(e, Lower(start)) && !e.LowerUnbounded? {
      var i :| 0 <= i < |s[k..]| && s[k..][i] == e;
      assert !CutLess(s[k], Lower(start)) && !s[k].LowerUnbounded?;
      assert i > 0 ==> CutLess(s[k], s[k + i]);
    }
  }

  lemma TailOfValid(s: seq<Endpoint>, k: nat)
    requires Valid(s) && k <= |s| && forall e :: e in s[k..] ==> !e.LowerUnbounded?
    ensures Tail(s[k..], k % 2 == 0)
  {
    AlternatesFromSlice(s, k);
    AlternatesFromParity(s[k..], k, if k % 2 == 0 then 0 else 1);
  }

  lemma DiffStartOk(s: seq<Endpoint>, r: Range)
    requires Valid(s) && CheckRange(r)
    ensures DiffOk(DiffStart(s, r))
    ensures Tail(DiffStart(s, r).inner, DiffFrom(s, r.start) % 2 == 0)
  {
    DiffFromSplits(s, r.start);
    TailOfValid(s, DiffFrom(s, r.start));
  }

  /** The state of an iterator whose range starts in a gap of the set. */
  ghost predicate StartsInGap(it: Iter, r: Range) {
    Tail(it.inner, true) && it.inner != [] && it.lower == Some(r.start) && it.upper == Some(r.end) &&
    CutLess(Lower(r.start), it.inner[0]) && CheckRange(r)
  }

  /** The first step then yields that gap. */
  lemma DiffFirstGap(it: Iter, r: Range)
    requires StartsInGap(it, r)
    ensures FirstLowerHasBound(it)
    ensures var (it', piece) := DiffNext(it);
            piece.Some? && CheckRange(piece.value) && piece.value.start == r.start &&
            (if CutLess(it.inner[0], Upper(r.end)) then SameCut(Upper(piece.value.end), it.inner[0])
             else SameCut(Upper(piece.value.end), Upper(r.end))) &&
            it'.inner == it.inner[1..] &&
            it'.upper == DiffMaxBound(Some(r.end), it.inner[0].AsBound()).1
  {
    TailStep(it.inner, true);
    DiffBoundAtLower(r.end, it.inner[0]);
    CheckRangeIsCutLess(r);
    CheckRangeIsCutLess(DiffNext(it).1.value);
  }

  lemma {:induction false} CountCons(s: seq<Endpoint>, p: real)
    requires s != []
    ensures CountBefore(s, p) == (if Before(s[0], p) then 1 else 0) + CountBefore(s[1..], p)
  {
  }

  lemma DiffFirstGapPoints(it: Iter, r: Range, p: real)
    requires StartsInGap(it, r)
    ensures FirstLowerHasBound(it) && DiffNext(it).1.Some?
    ensures InRange(DiffNext(it).1.value, p) <==> InRange(r, p) && !Before(it.inner[0], p)
  {
    DiffFirstGap(it, r);
    var e, q := it.inner[0], DiffNext(it).1.value;
    if CutLess(e, Upper(r.end)) {
      SameCutBefore(Upper(q.end), e, p);
      BeforeMonotone(e, Upper(r.end), p);
    } else {
      SameCutBefore(Upper(q.end), Upper(r.end), p);
      BeforeMonotone(Upper(r.end), e, p);
    }
  }

  lemma {:induction false} DiffFromLower(it: Iter, r: Range, p: real)
    requires StartsInGap(it, r)
    ensures InPieces(DiffCollect(it), p) <==> InRange(r, p) && CountBefore(it.inner, p) % 2 == 0
  {
    DiffFirstGap(it, r);
    DiffFirstGapPoints(it, r, p);
    DiffNextKeepsOk(it);
    var (it', piece) := DiffNext(it);
    InPiecesCons(piece.value, DiffCollect(it'), p);
    TailStep(it.inner, true);
    DiffAfterLower(it', it.inner[0], r.end, p);
    CountCons(it.inner, p);
    BeforeMonotone(Lower(r.start), it.inner[0], p);
    if !Before(it.inner[0], p) {
      CountZero(it.inner, p);
    }
  }

  lemma DiffStartsInGap(s: seq<Endpoint>, r: Range)
    requires Valid(s) && CheckRange(r)
    requires DiffFrom(s, r.start) < |s| && s[DiffFrom(s, r.start)].IsLower()
    ensures StartsInGap(DiffStart(s, r), r)
  {
    DiffStartOk(s, r);
    DiffFromSplits(s, r.start);
    TailStep(DiffStart(s, r).inner, DiffFrom(s, r.start) % 2 == 0);
  }

  /** In the range, the skipped endpoints all count. */
  lemma {:induction false} DiffCount(s: seq<Endpoint>, r: Range, p: real)
    requires Valid(s) && Before(Lower(r.start), p)
    ensures CountBefore(s, p) == DiffFrom(s, r.start) + CountBefore(s[DiffFrom(s, r.start)..], p)
  {
    var k := DiffFrom(s, r.start);
    DiffFromSplits(s, r.start);
    assert s == s[..k] + s[k..];
    CountConcat(s[..k], s[k..], p);
    CountBelow(s[..k], Lower(r.start), p);
  }

  lemma {:induction false} UncoveredFromUpper(s: seq<Endpoint>, r: Range, p: real)
    requires Valid(s) && CheckRange(r)
    requires DiffFrom(s, r.start) < |s| && s[DiffFrom(s, r.start)].IsUpper()
    ensures DiffOk(DiffStart(s, r))
    ensures InPieces(DiffCollect(DiffStart(s, r)), p) <==>
            InRange(r, p) && CountBefore(DiffStart(s, r).inner, p) % 2 == 1
  {
    var it, k := DiffStart(s, r), DiffFrom(s, r.start);
    DiffStartOk(s, r);
    TailStep(it.inner, k % 2 == 0);
    DiffFromUpper(it, r.end, p);
    DiffFromSplits(s, r.start);
    assert s[k] in s[k..];
    BeforeMonotone(Lower(r.start), s[k], p);
    if !Before(s[k], p) {
      CountZero(it.inner, p);
    }
  }

  lemma {:induction false} UncoveredAtEnd(s: seq<Endpoint>, r: Range, p: real)
    requires Valid(s) && CheckRange(r) && DiffFrom(s, r.start) == |s|
    ensures DiffOk(DiffStart(s, r))
    ensures DiffCollect(DiffStart(s, r)) == [r]
  {
    DiffStartOk(s, r);
    assert DiffCollect(DiffStart(s, r)) == [r] + DiffCollect(Iter(None, None, []));
  }

  lemma {:induction false} UncoveredByParity(s: seq<Endpoint>, r: Range, p: real)
    requires Valid(s) && CheckRange(r)
    ensures DiffOk(DiffStart(s, r))
    ensures InPieces(DiffCollect(DiffStart(s, r)), p) <==>
            InRange(r, p) && (DiffFrom(s, r.start) + CountBefore(DiffStart(s, r).inner, p)) % 2 == 0
  {
    var k := DiffFrom(s, r.start);
    if k == |s| {
      UncoveredBeyond(s, r, p);
    } else if s[k].IsLower() {
      UncoveredFromLower(s, r, p);
    } else {
      UncoveredFromOdd(s, r, p);
    }
  }

  lemma {:induction false} UncoveredFromOdd(s: seq<Endpoint>, r: Range, p: real)
    requires Valid(s) && CheckRange(r) && DiffFrom(s, r.start) < |s| && s[DiffFrom(s, r.start)].IsUpper()
    ensures DiffOk(DiffStart(s, r))
    ensures InPieces(DiffCollect(DiffStart(s, r)), p) <==>
            InRange(r, p) && (DiffFrom(s, r.start) + CountBefore(DiffStart(s, r).inner, p)) % 2 == 0
  {
    LowerAtEven(s, DiffFrom(s, r.start));
    UncoveredFromUpper(s, r, p);
  }

  lemma {:induction false} UncoveredBeyond(s: seq<Endpoint>, r: Range, p: real)
    requires Valid(s) && CheckRange(r) && DiffFrom(s, r.start) == |s|
    ensures DiffOk(DiffStart(s, r))
    ensures InPieces(DiffCollect(DiffStart(s, r)), p) <==>
            InRange(r, p) && (DiffFrom(s, r.start) + CountBefore(DiffStart(s, r).inner, p)) % 2 == 0
  {
    UncoveredAtEnd(s, r, p);
    InPiecesCons(r, [], p);
    assert [r] + [] == [r] && CountBefore(DiffStart(s, r).inner, p) == 0;
  }

  lemma LowerAtEven(s: seq<Endpoint>, k: nat)
    requires Valid(s) && k < |s|
    ensures s[k].IsLower() <==> k % 2 == 0
  {
    assert s[k].IsLower() <==> (0 + k) % 2 == 0;
  }

  lemma {:induction false} UncoveredFromLower(s: seq<Endpoint>, r: Range, p: real)
    requires Valid(s) && CheckRange(r) && DiffFrom(s, r.start) < |s| && s[DiffFrom(s, r.start)].IsLower()
    ensures DiffOk(DiffStart(s, r))
    ensures InPieces(DiffCollect(DiffStart(s, r)), p) <==>
            InRange(r, p) && (DiffFrom(s, r.start) + CountBefore(DiffStart(s, r).inner, p)) % 2 == 0
  {
    LowerAtEven(s, DiffFrom(s, r.start));
    DiffStartOk(s, r);
    DiffStartsInGap(s, r);
    DiffFromLower(DiffStart(s, r), r, p);
  }

  /** Up to its first `None`, `get_interval_difference` yields exactly the uncovered points. */
  lemma {:induction false} DifferenceIsUncovered(s: seq<Endpoint>, r: Range, p: real)
    requires Valid(s) && CheckRange(r)
    ensures DiffOk(DiffStart(s, r))
    ensures InPieces(DiffCollect(DiffStart(s, r)), p) <==> InRange(r, p) && !Contains(s, p)
  {
    UncoveredByParity(s, r, p);
    ContainsIffOdd(s, p);
    if InRange(r, p) {
      DiffCount(s, r, p);
    }
  }

  /** ... as non-empty, ordered pieces with a gap between neighbours. */
  lemma {:induction false} DifferenceIsOrdered(s: seq<Endpoint>, r: Range)
    requires Valid(s) && CheckRange(r)
    ensures DiffOk(DiffStart(s, r))
    ensures Ordered(DiffCollect(DiffStart(s, r)))
  {
    DiffStartOk(s, r);
    var it, k := DiffStart(s, r), DiffFrom(s, r.start);
    if k == |s| {
      assert DiffCollect(it) == [r];
    } else {
      TailStep(it.inner, k % 2 == 0);
      if s[k].IsLower() {
        DiffStartsInGap(s, r);
        DiffFirstGap(it, r);
        DiffNextKeepsOk(it);
        var (it', piece) := DiffNext(it);
        var rest := DiffCollect(it');
        assert DiffCollect(it)[1..] == rest;
        TailStep(it.inner, true);
        TailStep(it'.inner, false);
        DiffOrdered(it');
        if rest != [] {
          CutLessTrans(Upper(piece.value.end), s[k], it'.inner[0]);
          CutLessTrans(Upper(piece.value.end), it'.inner[0], Lower(rest[0].start));
        }
      } else {
        DiffOrdered(it);
      }
    }
  }

  /** The iterator is not fused: called again after its first `None` it can yield the whole range
      although the set covers all of it. */
  lemma DifferenceNotFused()
    ensures var s, r := [LowerUnbounded, UpperUnbounded], Range(Included(0.0), Unbounded);
            Valid(s) && CheckRange(r) && FirstLowerHasBound(DiffStart(s, r)) &&
            var (it, first) := DiffNext(DiffStart(s, r));
            first == None && FirstLowerHasBound(it) && DiffNext(it).1 == Some(r)
  {
    var s := [LowerUnbounded, UpperUnbounded];
    assert FirstFrom(s, UpperExclusive(0.0)) == 1;
    assert s[1..] == [UpperUnbounded];
  }
}
