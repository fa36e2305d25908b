/** What the iterators of the merging interval set do when they are called again after their first
    `None`: exactly when a later call yields a piece, and exactly when a later call panics. */
module IntervalExhaustion {
  import opened Options
  import opened IntervalEndpoints
  import opened IntervalTree
  import opened IntervalIterators
  import opened IntervalOverlaps

  // ---------------------------------------------------------------- calls

  /** One call of `next`: it panics where a bound is expected that was taken before. */
  datatype Called = Panics | Answers(next: Iter, piece: Option<Range>)

  function DiffCall(it: Iter): Called {
    if FirstLowerHasBound(it) then var (next, piece) := DiffNext(it); Answers(next, piece) else Panics
  }

  function OverCall(it: Iter): Called {
    if FirstUpperHasBound(it) then var (next, piece) := OverNext(it); Answers(next, piece) else Panics
  }

  /** The iterator after `n` calls, if none of them panicked. */
  ghost function AfterCalls(call: Iter -> Called, it: Iter, n: nat): Option<Iter>
    decreases n
  {
    if n == 0 then Some(it)
    else match call(it)
      case Panics => None
      case Answers(next, _) => AfterCalls(call, next, n - 1)
  }

  ghost predicate PanicsAt(call: Iter -> Called, it: Iter, n: nat) {
    AfterCalls(call, it, n).Some? && call(AfterCalls(call, it, n).value).Panics?
  }

  ghost predicate YieldsAt(call: Iter -> Called, it: Iter, n: nat) {
    AfterCalls(call, it, n).Some? && call(AfterCalls(call, it, n).value).Answers? &&
    call(AfterCalls(call, it, n).value).piece.Some?
  }

  /** Some later call panics. */
  ghost predicate PanicsLater(call: Iter -> Called, it: Iter) {
    exists n: nat :: PanicsAt(call, it, n)
  }

  /** Some later call yields a piece. */
  ghost predicate YieldsLater(call: Iter -> Called, it: Iter) {
    exists n: nat :: YieldsAt(call, it, n)
  }

  lemma {:induction false} LaterByOne(call: Iter -> Called, it: Iter)
    requires call(it).Answers?
    ensures PanicsLater(call, it) <==> PanicsLater(call, call(it).next)
    ensures YieldsLater(call, it) <==> call(it).piece.Some? || YieldsLater(call, call(it).next)
  {
    var next := call(it).next;
    assert forall n: nat :: AfterCalls(call, it, n + 1) == AfterCalls(call, next, n);
    if n: nat :| PanicsAt(call, it, n) {
      assert PanicsAt(call, next, n - 1);
    }
    if n: nat :| PanicsAt(call, next, n) {
      assert PanicsAt(call, it, n + 1);
    }
    if n: nat :| YieldsAt(call, it, n) {
      if n > 0 {
        assert YieldsAt(call, next, n - 1);
      }
    }
    if n: nat :| YieldsAt(call, next, n) {
      assert YieldsAt(call, it, n + 1);
    }
    if call(it).piece.Some? {
      assert YieldsAt(call, it, 0);
    }
  }

  lemma {:induction false} PanicsNow(call: Iter -> Called, it: Iter)
    requires call(it).Panics?
    ensures PanicsLater(call, it)
  {
    assert PanicsAt(call, it, 0);
  }

  /** An iterator that stays as it is and yields nothing. */
  lemma {:induction false} StaysAt(call: Iter -> Called, it: Iter, n: nat)
    requires call(it) == Answers(it, None)
    ensures AfterCalls(call, it, n) == Some(it)
  {
    if n > 0 {
      StaysAt(call, it, n - 1);
    }
  }

  lemma {:induction false} Finished(call: Iter -> Called, it: Iter)
    requires call(it) == Answers(it, None)
    ensures !PanicsLater(call, it) && !YieldsLater(call, it)
  {
    forall n: nat ensures !PanicsAt(call, it, n) && !YieldsAt(call, it, n) {
      StaysAt(call, it, n);
    }
  }

  // ---------------------------------------------------------------- the difference iterator

  /** The iterator just after its first `None`. */
  ghost function DiffAfterNone(it: Iter): Iter
    requires DiffOk(it)
    decreases |it.inner|, it.lower.Some?
  {
    DiffNextKeepsOk(it);
    var (next, piece) := DiffNext(it);
    if piece.None? then next else DiffAfterNone(next)
  }

  /** The endpoint at which `max_bound` gives up the end of the range. */
  predicate DiffDrops(u: Bound, e: Endpoint) {
    var b := e.AsBound();
    match u
    case Unbounded => false
    case Included(cur) => !((b.Included? && b.v < cur) || (b.Excluded? && b.v <= cur))
    case Excluded(cur) => !(!b.Unbounded? && b.v < cur)
  }

  lemma DiffDropsIff(u: Bound, e: Endpoint)
    requires !u.Unbounded?
    ensures DiffMaxBound(Some(u), e.AsBound()).0.Some?
    ensures DiffMaxBound(Some(u), e.AsBound()).1 == if DiffDrops(u, e) then None else Some(u)
  {
  }

  /** The first of these endpoints at which the end of the range is given up, if any. */
  function DropAt(drops: (Bound, Endpoint) -> bool, u: Bound, s: seq<Endpoint>): (i: nat)
    ensures i <= |s|
  {
    if s == [] || drops(u, s[0]) then 0 else 1 + DropAt(drops, u, s[1..])
  }

  /** What is left two endpoints after position `i`. */
  function Rest(s: seq<Endpoint>, i: nat): seq<Endpoint> {
    if i + 2 <= |s| then s[i + 2..] else []
  }

  lemma RestOfTail(s: seq<Endpoint>, n: nat, i: nat)
    requires n <= |s|
    ensures Rest(s[n..], i) == Rest(s, n + i)
  {
  }

  /** With a bounded end, from an upper endpoint on. */
  lemma {:induction false} DiffEnds(it: Iter, u: Bound)
    requires Tail(it.inner, false) && it.upper == Some(u) && !u.Unbounded?
    ensures var i := DropAt(DiffDrops, u, it.inner);
            DiffAfterNone(it) ==
            if i == |it.inner| then Iter(None, None, []) else Iter(it.lower, None, Rest(it.inner, i))
    decreases |it.inner|
  {
    TailStep(it.inner, false);
    DiffNextKeepsOk(it);
    DiffDropsIff(u, it.inner[0]);
    var (next, piece) := DiffNext(it);
    if DiffDrops(u, it.inner[0]) {
      assert piece.None?;
    } else if |it.inner| == 1 {
      assert DiffAfterNone(next) == Iter(None, None, []);
    } else {
      TailStep(it.inner[1..], true);
      DiffDropsIff(u, it.inner[1]);
      assert it.inner[1..][1..] == it.inner[2..];
      DropAtTwo(DiffDrops, u, it.inner);
      if DiffDrops(u, it.inner[1]) {
        TailStep(next.inner, false);
        assert DiffAfterNone(next) == Iter(it.lower, None, next.inner[1..]);
        assert next.inner[1..] == it.inner[3..];
      } else {
        DiffEnds(next, u);
        RestOfTail(it.inner, 2, DropAt(DiffDrops, u, next.inner));
      }
    }
  }

  lemma DropAtTwo(drops: (Bound, Endpoint) -> bool, u: Bound, s: seq<Endpoint>)
    requires |s| > 1 && !drops(u, s[0])
    ensures DropAt(drops, u, s) == if drops(u, s[1]) then 1 else 2 + DropAt(drops, u, s[2..])
  {
    assert s[1..][1..] == s[2..];
  }

  /** Without an end, from an upper endpoint on. */
  lemma {:induction false} DiffEndsUnbounded(it: Iter)
    requires Tail(it.inner, false) && it.upper == Some(Unbounded)
    ensures DiffAfterNone(it) ==
            if it.inner[|it.inner| - 1].UpperUnbounded? then Iter(it.lower, Some(Unbounded), [])
            else Iter(None, None, [])
    decreases |it.inner|
  {
    TailStep(it.inner, false);
    DiffNextKeepsOk(it);
    var (next, piece) := DiffNext(it);
    if |it.inner| == 1 {
      if !it.inner[0].UpperUnbounded? {
        assert DiffAfterNone(next) == Iter(None, None, []);
      }
    } else {
      TailStep(it.inner[1..], true);
      assert it.inner[1] in it.inner && it.inner[1..][1..] == it.inner[2..];
      OnlyLastUnbounded(it.inner, 0, 1);
      DiffEndsUnbounded(next);
    }
  }

  lemma OnlyLastUnbounded(s: seq<Endpoint>, i: nat, j: nat)
    requires CutSorted(s) && i < j < |s|
    ensures !s[i].UpperUnbounded?
  {
    assert CutLess(s[i], s[j]);
  }

  /** Once the end of the range is given up, every call takes one endpoint and yields nothing; the second
      lower endpoint that is met finds no lower bound any more. */
  lemma {:induction false} DiffWithoutEnd(it: Iter, lower: bool)
    requires Tail(it.inner, lower) && it.upper.None?
    ensures !YieldsLater(DiffCall, it)
    ensures PanicsLater(DiffCall, it) <==> |it.inner| / 2 > if it.lower.Some? then 1 else 0
    decreases |it.inner|, it.lower.Some?
  {
    if it.inner == [] {
      LaterByOne(DiffCall, it);
      Finished(DiffCall, Iter(None, None, []));
    } else {
      TailStep(it.inner, lower);
      if lower && it.lower.None? {
        PanicsNow(DiffCall, it);
        NothingYielded(DiffCall, it);
      } else {
        LaterByOne(DiffCall, it);
        DiffWithoutEnd(DiffCall(it).next, !lower);
      }
    }
  }

  lemma {:induction false} NothingYielded(call: Iter -> Called, it: Iter)
    requires call(it).Panics?
    ensures !YieldsLater(call, it)
  {
  }

  lemma {:induction false} DiffFromGap(it: Iter, r: Range)
    requires Tail(it.inner, true) && it.inner != [] && it.lower == Some(r.start) && it.upper == Some(r.end)
    ensures DiffOk(it)
    ensures DiffAfterNone(it) ==
            if r.end.Unbounded? then
              (if it.inner[|it.inner| - 1].UpperUnbounded? then Iter(None, Some(Unbounded), [])
               else Iter(None, None, []))
            else
              var i := DropAt(DiffDrops, r.end, it.inner);
              if i == |it.inner| then Iter(None, None, []) else Iter(None, None, Rest(it.inner, i))
  {
    TailStep(it.inner, true);
    DiffNextKeepsOk(it);
    var (next, piece) := DiffNext(it);
    assert it.inner[0] in it.inner;
    if r.end.Unbounded? {
      DiffEndsUnbounded(next);
    } else {
      DiffDropsIff(r.end, it.inner[0]);
      if DiffDrops(r.end, it.inner[0]) {
        TailStep(next.inner, false);
        assert DiffAfterNone(next) == Iter(None, None, next.inner[1..]);
        assert next.inner[1..] == it.inner[2..];
      } else {
        DiffEnds(next, r.end);
        RestOfTail(it.inner, 1, DropAt(DiffDrops, r.end, next.inner));
      }
    }
  }

  lemma {:induction false} TailDrop(s: seq<Endpoint>, lower: bool, n: nat) returns (flips: bool)
    requires Tail(s, lower) && n <= |s|
    ensures Tail(s[n..], flips)
    decreases n
  {
    if n == 0 {
      assert s[0..] == s;
      flips := lower;
    } else {
      var before := TailDrop(s, lower, n - 1);
      assert s[n - 1..][1..] == s[n..];
      TailStep(s[n - 1..], before);
      flips := !before;
    }
  }

  lemma TailRest(s: seq<Endpoint>, lower: bool, i: nat)
    requires Tail(s, lower) && i < |s|
    ensures Tail(Rest(s, i), true) || Tail(Rest(s, i), false)
    ensures |Rest(s, i)| == if i + 2 <= |s| then |s| - i - 2 else 0
  {
    if i + 2 <= |s| {
      var flips := TailDrop(s, lower, i + 2);
    }
  }

  /** After the first `None` of an iterator over a range with an end. */
  lemma {:induction false} DiffLaterBounded(it: Iter, next: Iter, i: nat, inside: bool)
    requires Tail(it.inner, !inside) && i <= |it.inner| && (inside ==> it.lower.Some?)
    requires next == if i == |it.inner| then Iter(None, None, [])
                     else Iter(if inside then it.lower else None, None, Rest(it.inner, i))
    ensures !YieldsLater(DiffCall, next)
    ensures PanicsLater(DiffCall, next) <==> i + 4 + (if inside then 2 else 0) <= |it.inner|
  {
    if i == |it.inner| {
      Finished(DiffCall, next);
    } else {
      TailRest(it.inner, !inside, i);
      DiffWithoutEnd(next, Tail(next.inner, true));
    }
  }

  /** After the first `None` of an iterator over a range without an end. */
  lemma {:induction false} DiffLaterUnbounded(next: Iter)
    requires next.inner == [] && (next.upper.None? ==> next.lower.None?)
    ensures YieldsLater(DiffCall, next) <==> next.lower.Some?
    ensures !PanicsLater(DiffCall, next)
  {
    LaterByOne(DiffCall, next);
    Finished(DiffCall, Iter(None, None, []));
  }

  /** For an iterator that is about to start, inside a stored interval or in a gap. */
  lemma {:induction false} DiffLater(it: Iter, r: Range, inside: bool)
    requires Tail(it.inner, !inside) && it.lower == Some(r.start) && it.upper == Some(r.end)
    ensures DiffOk(it)
    ensures YieldsLater(DiffCall, DiffAfterNone(it)) <==>
            r.end.Unbounded? && inside && it.inner[|it.inner| - 1].UpperUnbounded?
    ensures PanicsLater(DiffCall, DiffAfterNone(it)) <==>
            !r.end.Unbounded? && DropAt(DiffDrops, r.end, it.inner) + 4 + (if inside then 2 else 0) <= |it.inner|
  {
    if it.inner == [] {
      assert DiffAfterNone(Iter(None, None, [])) == Iter(None, None, []);
      Finished(DiffCall, Iter(None, None, []));
    } else if inside {
      if r.end.Unbounded? {
        DiffEndsUnbounded(it);
        DiffLaterUnbounded(DiffAfterNone(it));
      } else {
        DiffEnds(it, r.end);
        DiffLaterBounded(it, DiffAfterNone(it), DropAt(DiffDrops, r.end, it.inner), inside);
      }
    } else {
      DiffFromGap(it, r);
      if r.end.Unbounded? {
        DiffLaterUnbounded(DiffAfterNone(it));
      } else {
        DiffLaterBounded(it, DiffAfterNone(it), DropAt(DiffDrops, r.end, it.inner), inside);
      }
    }
  }

  /** After its first `None` the difference iterator yields a piece again exactly if the range has no end,
      the set covers everything from some point on, and the range starts inside a stored interval.
      A later call panics exactly if the range has an end and, two endpoints behind the one where it is
      given up, more lower endpoints are left than lower bounds: there is one left if the range starts
      inside a stored interval. */
  lemma {:induction false} DifferenceLaterIff(s: seq<Endpoint>, r: Range)
    requires Valid(s) && CheckRange(r)
    ensures DiffOk(DiffStart(s, r))
    ensures var k := DiffFrom(s, r.start);
            YieldsLater(DiffCall, DiffAfterNone(DiffStart(s, r))) <==>
            r.end.Unbounded? && k < |s| && s[k].IsUpper() && s[|s| - 1].UpperUnbounded?
    ensures var k := DiffFrom(s, r.start);
            PanicsLater(DiffCall, DiffAfterNone(DiffStart(s, r))) <==>
            !r.end.Unbounded? &&
            k + DropAt(DiffDrops, r.end, s[k..]) + 4 + (if k < |s| && s[k].IsUpper() then 2 else 0) <= |s|
  {
    var k := DiffFrom(s, r.start);
    DiffStartOk(s, r);
    if k < |s| {
      LowerAtEven(s, k);
    }
    DiffLater(DiffStart(s, r), r, k % 2 == 1);
  }

  /** Two intervals behind the end of the range are enough for a later call to panic. */
  lemma {:induction false} DifferencePanics()
    ensures var s := [LowerInclusive(0.0), UpperInclusive(1.0), LowerInclusive(2.0), UpperInclusive(3.0)];
            var r := Range(Included(-1.0), Excluded(0.0));
            Valid(s) && CheckRange(r) && DiffOk(DiffStart(s, r)) &&
            PanicsLater(DiffCall, DiffAfterNone(DiffStart(s, r)))
  {
    var s := [LowerInclusive(0.0), UpperInclusive(1.0), LowerInclusive(2.0), UpperInclusive(3.0)];
    var r := Range(Included(-1.0), Excluded(0.0));
    assert CutLess(Lower(r.start), s[0]);
    assert DiffFrom(s, r.start) == 0 && s[0..] == s;
    assert DropAt(DiffDrops, r.end, s) == 0;
    DifferenceLaterIff(s, r);
  }

  // ---------------------------------------------------------------- the overlap iterator

  /** The iterator just after its first `None`. */
  ghost function OverAfterNone(it: Iter): Iter
    requires OverOk(it)
    decreases |it.inner|
  {
    OverNextKeepsOk(it);
    var (next, piece) := OverNext(it);
    if piece.None? then next else OverAfterNone(next)
  }

  predicate OverDrops(u: Bound, e: Endpoint) {
    var b := e.AsBound();
    match u
    case Unbounded => false
    case Included(cur) => !((b.Included? && b.v <= cur) || (b.Excluded? && b.v < cur))
    case Excluded(cur) => !(!b.Unbounded? && b.v < cur)
  }

  lemma OverDropsIff(u: Bound, e: Endpoint)
    requires !u.Unbounded?
    ensures OverMaxBound(Some(u), e.AsBound()).0.Some?
    ensures OverMaxBound(Some(u), e.AsBound()).1 == if OverDrops(u, e) then None else Some(u)
  {
  }

  /** With a bounded end, from a lower endpoint on. */
  lemma {:induction false} OverEnds(it: Iter, u: Bound)
    requires Tail(it.inner, true) && it.upper == Some(u) && !u.Unbounded?
    ensures var i := DropAt(OverDrops, u, it.inner);
            OverAfterNone(it).inner == Rest(it.inner, i) && OverAfterNone(it).lower == it.lower
    ensures OverAfterNone(it).inner != [] ==> OverAfterNone(it).upper.None?
    decreases |it.inner|
  {
    if it.inner != [] {
      TailStep(it.inner, true);
      TailStep(it.inner[1..], false);
      OverNextKeepsOk(it);
      OverDropsIff(u, it.inner[0]);
      OverDropsIff(u, it.inner[1]);
      var (next, piece) := OverNext(it);
      assert it.inner[1..][1..] == it.inner[2..];
      if !OverDrops(u, it.inner[0]) {
        DropAtTwo(OverDrops, u, it.inner);
        if OverDrops(u, it.inner[1]) {
          OverGivenUp(next);
          assert Rest(it.inner, 1) == if next.inner == [] then [] else next.inner[1..];
        } else {
          OverEnds(next, u);
          RestOfTail(it.inner, 2, DropAt(OverDrops, u, next.inner));
        }
      }
    }
  }

  /** Once the end of the range is given up, the next call yields nothing. */
  lemma OverGivenUp(it: Iter)
    requires Tail(it.inner, true) && it.upper.None?
    ensures OverAfterNone(it) == if it.inner == [] then it else Iter(it.lower, None, it.inner[1..])
  {
    if it.inner != [] {
      TailStep(it.inner, true);
    }
  }

  /** How many upper endpoints there are, of alternating ones that end with an upper one. */
  function Uppers(s: seq<Endpoint>): nat {
    (|s| + 1) / 2
  }

  /** Every call that meets no end of the range takes one endpoint and yields nothing; the second upper
      endpoint that is met finds no lower bound any more. */
  lemma {:induction false} OverWithoutEnd(it: Iter, lower: bool)
    requires Tail(it.inner, lower) && (it.inner != [] ==> it.upper.None?)
    ensures !YieldsLater(OverCall, it)
    ensures PanicsLater(OverCall, it) <==> Uppers(it.inner) > if it.lower.Some? then 1 else 0
    decreases |it.inner|
  {
    if it.inner == [] {
      Finished(OverCall, it);
    } else {
      TailStep(it.inner, lower);
      if !lower && it.lower.None? {
        PanicsNow(OverCall, it);
        NothingYielded(OverCall, it);
      } else {
        LaterByOne(OverCall, it);
        OverWithoutEnd(OverCall(it).next, !lower);
      }
    }
  }

  /** Likewise for a range without an end, except that the last upper endpoint can be unbounded: met with
      the lower bound still there it yields the rest of the line. */
  lemma {:induction false} OverWithoutBound(it: Iter, lower: bool)
    requires Tail(it.inner, lower) && it.upper == Some(Unbounded)
    ensures YieldsLater(OverCall, it) <==>
            it.lower.Some? && Uppers(it.inner) == 1 && it.inner[|it.inner| - 1].UpperUnbounded?
    ensures PanicsLater(OverCall, it) <==> Uppers(it.inner) > if it.lower.Some? then 1 else 0
    decreases |it.inner|
  {
    if it.inner == [] {
      Finished(OverCall, it);
    } else {
      TailStep(it.inner, lower);
      assert it.inner[0] in it.inner;
      if !lower && it.lower.None? {
        PanicsNow(OverCall, it);
        NothingYielded(OverCall, it);
      } else {
        LaterByOne(OverCall, it);
        OverWithoutBound(OverCall(it).next, !lower);
        if |it.inner| > 1 {
          OnlyLastUnbounded(it.inner, 0, 1);
        }
      }
    }
  }

  lemma {:induction false} OverLaterBounded(next: Iter, inner: seq<Endpoint>, lower: bool, i: nat)
    requires Tail(inner, lower) && i <= |inner| && next.inner == Rest(inner, i)
    requires next.inner != [] ==> next.upper.None?
    ensures !YieldsLater(OverCall, next)
    ensures PanicsLater(OverCall, next) <==> i + 3 + (if next.lower.Some? then 2 else 0) <= |inner|
  {
    if i < |inner| {
      TailRest(inner, lower, i);
      OverWithoutEnd(next, Tail(next.inner, true));
    } else {
      Finished(OverCall, next);
    }
  }

  /** A range that starts in a gap. */
  lemma {:induction false} OverLaterGap(it: Iter, r: Range)
    requires Tail(it.inner, true) && it.lower == Some(r.start) && it.upper == Some(r.end)
    ensures YieldsLater(OverCall, OverAfterNone(it)) <==>
            r.end.Unbounded? && |it.inner| == 2 && it.inner[1].UpperUnbounded?
    ensures PanicsLater(OverCall, OverAfterNone(it)) <==>
            if r.end.Unbounded? then |it.inner| >= 4 else DropAt(OverDrops, r.end, it.inner) + 5 <= |it.inner|
  {
    if !r.end.Unbounded? {
      OverEnds(it, r.end);
      OverLaterBounded(OverAfterNone(it), it.inner, true, DropAt(OverDrops, r.end, it.inner));
    } else if it.inner == [] {
      Finished(OverCall, it);
    } else {
      TailStep(it.inner, true);
      assert it.inner[0] in it.inner;
      OverWithoutBound(OverAfterNone(it), false);
    }
  }

  /** A range that starts inside a stored interval. */
  lemma {:induction false} OverLaterInside(it: Iter, r: Range)
    requires Tail(it.inner, false) && it.lower == Some(r.start) && it.upper == Some(r.end)
    ensures !YieldsLater(OverCall, OverAfterNone(it))
    ensures PanicsLater(OverCall, OverAfterNone(it)) <==>
            if r.end.Unbounded? then |it.inner| >= 3 else DropAt(OverDrops, r.end, it.inner) + 3 <= |it.inner|
  {
    TailStep(it.inner, false);
    OverNextKeepsOk(it);
    var (next, piece) := OverNext(it);
    if r.end.Unbounded? {
      if it.inner[0].UpperUnbounded? {
        if |it.inner| > 1 {
          OnlyLastUnbounded(it.inner, 0, 1);
        }
        assert OverAfterNone(next) == next;
      }
      OverWithoutBound(OverAfterNone(it), true);
    } else {
      OverDropsIff(r.end, it.inner[0]);
      var i := DropAt(OverDrops, r.end, it.inner);
      if OverDrops(r.end, it.inner[0]) {
        OverGivenUp(next);
        assert Rest(it.inner, 0) == if next.inner == [] then [] else next.inner[1..];
      } else {
        OverEnds(next, r.end);
        RestOfTail(it.inner, 1, DropAt(OverDrops, r.end, next.inner));
      }
      OverLaterBounded(OverAfterNone(it), it.inner, false, i);
    }
  }

  /** After its first `None` the overlap iterator yields a piece again exactly if the range has no end and
      starts in the gap before the last stored interval, which is unbounded. A later call panics exactly
      if more upper endpoints are left than lower bounds, of which there is one left if the range starts
      in a gap: behind the first endpoint of a range without an end, else two endpoints behind the one
      where the end is given up. */
  lemma {:induction false} OverlapsLaterIff(s: seq<Endpoint>, r: Range)
    requires Valid(s) && CheckRange(r)
    ensures OverOk(OverStart(s, r))
    ensures var k := OverFrom(s, r.start);
            YieldsLater(OverCall, OverAfterNone(OverStart(s, r))) <==>
            r.end.Unbounded? && k + 2 == |s| && s[k].IsLower() && s[k + 1].UpperUnbounded?
    ensures var k := OverFrom(s, r.start);
            var gap := k == |s| || s[k].IsLower();
            PanicsLater(OverCall, OverAfterNone(OverStart(s, r))) <==>
            if r.end.Unbounded? then k + (if gap then 4 else 3) <= |s|
            else k + DropAt(OverDrops, r.end, s[k..]) + (if gap then 5 else 3) <= |s|
  {
    var k := OverFrom(s, r.start);
    OverStartOk(s, r);
    OverFromSplits(s, r.start);
    if k < |s| {
      LowerAtEven(s, k);
    }
    if k % 2 == 0 {
      OverLaterGap(OverStart(s, r), r);
    } else {
      OverLaterInside(OverStart(s, r), r);
    }
  }
}
