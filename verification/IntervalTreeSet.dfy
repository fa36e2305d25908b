/** The interval set and its two iterators as objects that are updated in place. */
module IntervalTreeSets {
  import opened Options
  import opened IntervalEndpoints
  import Tree = IntervalTree
  import Iterators = IntervalIterators
  import Overlaps = IntervalOverlaps

  /** `x` goes between `a` and `b` when all three together are in cut order. */
  lemma SetInsertOne(a: seq<Endpoint>, x: seq<Endpoint>, b: seq<Endpoint>)
    requires |x| == 1 && Tree.CutSorted(a + x + b)
    ensures Tree.SetInsert(a + b, x[0]) == a + x + b
  {
    var t := a + x + b;
    forall i | 0 <= i < |a| ensures Less(a[i], x[0]) {
      assert CutLess(t[i], t[|a|]);
      Tree.CutLessImpliesLess(a[i], x[0]);
    }
    if b != [] {
      assert CutLess(t[|a|], t[|a| + 1]);
      Tree.CutLessImpliesLess(x[0], b[0]);
    }
    Tree.SetInsertBetween(a, x[0], b);
    assert x == [x[0]];
  }

  /** Putting the new ends into the sorted set, between the two untouched parts. */
  lemma SetInsertNewEnds(s: seq<Endpoint>, r: Range, x: seq<Endpoint>, y: seq<Endpoint>)
    requires Tree.CutSorted(s) && CheckRange(r)
    requires Tree.AtCut(x, Lower(r.start)) && Tree.AtCut(y, Upper(r.end))
    ensures var a, b := s[..Tree.From(s, r)], s[Tree.To(s, r)..];
            (x != [] ==> Tree.SetInsert(a + b, x[0]) == a + x + b) &&
            (y != [] ==> Tree.SetInsert(a + x + b, y[0]) == a + x + y + b)
  {
    var a, b := s[..Tree.From(s, r)], s[Tree.To(s, r)..];
    if x != [] {
      Tree.RebuildSorted(s, r, x, []);
      assert a + x + [] + b == a + x + b;
      SetInsertOne(a, x, b);
    }
    if y != [] {
      Tree.RebuildSorted(s, r, x, y);
      SetInsertOne(a + x, y, b);
    }
  }

  /** Taking the endpoint at `a + j` out of what is left. */
  lemma RemoveNext(s: seq<Endpoint>, a: nat, j: nat)
    requires Tree.CutSorted(s) && a + j < |s|
    ensures Tree.SetRemove(s[..a] + s[a + j..], s[a + j]) == s[..a] + s[a + (j + 1)..]
  {
    forall k | 0 <= k < |s[..a]| ensures Less(s[..a][k], s[a + j..][0]) {
      Tree.CutLessImpliesLess(s[k], s[a + j]);
    }
    Tree.SetRemoveBetween(s[..a], s[a + j..]);
    assert s[a + j..][1..] == s[a + (j + 1)..];
  }

  function WithEnd(s: seq<Endpoint>, x: seq<Endpoint>): seq<Endpoint> {
    if x == [] then s else Tree.SetInsert(s, x[0])
  }

  lemma WithBothEnds(s: seq<Endpoint>, r: Range, x: seq<Endpoint>, y: seq<Endpoint>)
    requires Tree.CutSorted(s) && CheckRange(r)
    requires Tree.AtCut(x, Lower(r.start)) && Tree.AtCut(y, Upper(r.end))
    ensures WithEnd(WithEnd(s[..Tree.From(s, r)] + s[Tree.To(s, r)..], x), y) == Tree.Rebuild(s, r, x, y)
  {
    SetInsertNewEnds(s, r, x, y);
    var a, b := s[..Tree.From(s, r)], s[Tree.To(s, r)..];
    assert x == [] ==> a + b == a + x + b;
    assert y == [] ==> a + x + b == a + x + y + b;
  }

  /** From the start of the range on, the endpoints that `hi` does not lie below come first. */
  lemma RangeEdge(s: seq<Endpoint>, r: Range, i: nat)
    requires Tree.CutSorted(s) && Tree.From(s, r) <= i < |s|
    ensures Cmp(Upper(r.end), s[i]) == Lt <==> Tree.To(s, r) <= i
  {
    CmpIsTheOrder(Upper(r.end), s[i]);
    Tree.UpperEndOrder(Upper(r.end), s[i]);
    Tree.SplitHigh(s, r);
    if i < Tree.To(s, r) {
      assert s[i] in s[Tree.From(s, r)..Tree.To(s, r)];
    } else {
      assert s[i] in s[Tree.To(s, r)..];
    }
  }

  lemma InsertIsUnionEverywhere(s: seq<Endpoint>, r: Range)
    requires Tree.Valid(s) && CheckRange(r)
    ensures Tree.Valid(Tree.Insert(s, r))
    ensures forall p :: Tree.Contains(Tree.Insert(s, r), p) <==> Tree.Contains(s, p) || InRange(r, p)
  {
    Tree.InsertValid(s, r);
    forall p ensures Tree.Contains(Tree.Insert(s, r), p) <==> Tree.Contains(s, p) || InRange(r, p) {
      Tree.InsertIsUnion(s, r, p);
    }
  }

  lemma RemoveIsDifferenceEverywhere(s: seq<Endpoint>, r: Range)
    requires Tree.Valid(s) && CheckRange(r)
    ensures Tree.Valid(Tree.Remove(s, r))
    ensures forall p :: Tree.Contains(Tree.Remove(s, r), p) <==> Tree.Contains(s, p) && !InRange(r, p)
  {
    Tree.RemoveValid(s, r);
    forall p ensures Tree.Contains(Tree.Remove(s, r), p) <==> Tree.Contains(s, p) && !InRange(r, p) {
      Tree.RemoveIsDifference(s, r, p);
    }
  }

  class IntervalTreeSet {
    var boundSet: seq<Endpoint>

    ghost predicate Valid()
      reads this
    {
      Tree.Valid(boundSet)
    }

    constructor ()
      ensures Valid() && boundSet == []
    {
      boundSet := [];
    }

    /** The endpoints inside the range, and the kind of the last endpoint looked at. */
    method TakeRange(r: Range) returns (removed: seq<Endpoint>, nextIsUpper: bool)
      requires Valid() && CheckRange(r)
      ensures removed == boundSet[Tree.From(boundSet, r)..Tree.To(boundSet, r)]
      ensures removed == [] ==> (nextIsUpper <==> Tree.StartsInside(boundSet, Tree.From(boundSet, r)))
    {
      var lo, hi := Lower(r.start), Upper(r.end);
      var start := Tree.FirstFrom(boundSet, lo);
      var i := start;
      removed, nextIsUpper := [], false;
      while i < |boundSet|
        invariant start <= i <= Tree.To(boundSet, r) && removed == boundSet[start..i]
        invariant i == start ==> !nextIsUpper
      {
        nextIsUpper := boundSet[i].IsUpper();
        RangeEdge(boundSet, r, i);
        if Cmp(hi, boundSet[i]) == Lt {
          break;
        }
        assert boundSet[start..i + 1] == boundSet[start..i] + [boundSet[i]];
        removed := removed + [boundSet[i]];
        i := i + 1;
      }
    }

    /** Takes a stretch `[a, b)` of endpoints out of the set, one by one. */
    method RemoveEndpoints(removed: seq<Endpoint>, ghost a: nat, ghost b: nat)
      requires Valid() && a <= b <= |boundSet| && removed == boundSet[a..b]
      modifies this
      ensures boundSet == old(boundSet[..a] + boundSet[b..])
    {
      ghost var s := boundSet;
      var j := 0;
      while j < |removed|
        invariant j <= |removed| && boundSet == s[..a] + s[a + j..]
      {
        RemoveNext(s, a, j);
        boundSet := Tree.SetRemove(boundSet, removed[j]);
        j := j + 1;
      }
    }

    /** Adds an end at the start of the range and one at its end, where asked for. */
    method AddEnds(ghost s: seq<Endpoint>, ghost r: Range, x: seq<Endpoint>, y: seq<Endpoint>)
      requires Tree.CutSorted(s) && CheckRange(r)
      requires Tree.AtCut(x, Lower(r.start)) && Tree.AtCut(y, Upper(r.end))
      requires boundSet == s[..Tree.From(s, r)] + s[Tree.To(s, r)..]
      modifies this
      ensures boundSet == Tree.Rebuild(s, r, x, y)
    {
      WithBothEnds(s, r, x, y);
      if x != [] {
        boundSet := Tree.SetInsert(boundSet, x[0]);
      }
      if y != [] {
        boundSet := Tree.SetInsert(boundSet, y[0]);
      }
    }

    /** Set union with `r`. */
    method InsertInterval(r: Range)
      requires Valid() && CheckRange(r)
      modifies this
      ensures Valid()
      ensures boundSet == Tree.Insert(old(boundSet), r)
      ensures forall p :: Tree.Contains(boundSet, p) <==> old(Tree.Contains(boundSet, p)) || InRange(r, p)
    {
      ghost var s := boundSet;
      ghost var a, b := Tree.From(s, r), Tree.To(s, r);
      var removed, nextIsUpper := TakeRange(r);
      var firstIsUpper := if removed != [] then removed[0].IsUpper() else nextIsUpper;
      var lastIsLower := if removed != [] then removed[|removed| - 1].IsLower() else nextIsUpper;
      var x := if firstIsUpper then [] else [Lower(r.start)];
      var y := if lastIsLower then [] else [Upper(r.end)];
      assert x == Tree.InsertLow(s, r, a) && y == Tree.InsertHigh(s, r, a, b);
      RemoveEndpoints(removed, a, b);
      Tree.InsertEndsAtCuts(s, r, a, b);
      AddEnds(s, r, x, y);
      InsertIsUnionEverywhere(s, r);
    }

    /** Set difference with `r`. */
    method RemoveInterval(r: Range)
      requires Valid() && CheckRange(r)
      modifies this
      ensures Valid()
      ensures boundSet == Tree.Remove(old(boundSet), r)
      ensures forall p :: Tree.Contains(boundSet, p) <==> old(Tree.Contains(boundSet, p)) && !InRange(r, p)
    {
      ghost var s := boundSet;
      ghost var a, b := Tree.From(s, r), Tree.To(s, r);
      var removed, nextIsUpper := TakeRange(r);
      var firstIsUpper := if removed != [] then removed[0].IsUpper() else nextIsUpper;
      var lastIsLower := if removed != [] then removed[|removed| - 1].IsLower() else nextIsUpper;
      var x := if firstIsUpper then [UpperComplement(r.start)] else [];
      var y := if lastIsLower then [LowerComplement(r.end)] else [];
      assert x == Tree.RemoveLow(s, r, a) && y == Tree.RemoveHigh(s, r, a, b);
      RemoveEndpoints(removed, a, b);
      Tree.RemoveEndsAtCuts(s, r, a, b);
      AddEnds(s, r, x, y);
      RemoveIsDifferenceEverywhere(s, r);
    }

    method InsertPoint(p: real)
      requires Valid()
      modifies this
      ensures Valid()
      ensures forall q :: Tree.Contains(boundSet, q) <==> old(Tree.Contains(boundSet, q)) || q == p
    {
      InsertInterval(Range(Included(p), Included(p)));
    }

    method RemovePoint(p: real)
      requires Valid()
      modifies this
      ensures Valid()
      ensures forall q :: Tree.Contains(boundSet, q) <==> old(Tree.Contains(boundSet, q)) && q != p
    {
      RemoveInterval(Range(Included(p), Included(p)));
    }
  }

  lemma DifferenceEverywhere(s: seq<Endpoint>, r: Range)
    requires Tree.Valid(s) && CheckRange(r)
    ensures Iterators.DiffOk(Iterators.DiffStart(s, r))
    ensures Iterators.Ordered(Iterators.DiffCollect(Iterators.DiffStart(s, r)))
    ensures forall p :: Iterators.InPieces(Iterators.DiffCollect(Iterators.DiffStart(s, r)), p)
                        <==> InRange(r, p) && !Tree.Contains(s, p)
  {
    Iterators.DifferenceIsOrdered(s, r);
    forall p ensures Iterators.InPieces(Iterators.DiffCollect(Iterators.DiffStart(s, r)), p)
                     <==> InRange(r, p) && !Tree.Contains(s, p)
    {
      Iterators.DifferenceIsUncovered(s, r, p);
    }
  }

  class IntervalDiffIter {
    var lowerBound: Option<Bound>
    var upperBound: Option<Bound>
    var inner: seq<Endpoint>

    ghost function View(): Iterators.Iter
      reads this
    {
      Iterators.Iter(lowerBound, upperBound, inner)
    }

    /** `get_interval_difference`. */
    constructor (tree: seq<Endpoint>, r: Range)
      requires Tree.Valid(tree) && CheckRange(r)
      ensures View() == Iterators.DiffStart(tree, r) && Iterators.DiffOk(View())
    {
      lowerBound, upperBound := Some(r.start), Some(r.end);
      inner := tree[Iterators.DiffFrom(tree, r.start)..];
      Iterators.DiffStartOk(tree, r);
    }

    method MaxBound(other: Bound) returns (b: Option<Bound>)
      modifies this`upperBound
      ensures (b, upperBound) == Iterators.DiffMaxBound(old(upperBound), other)
    {
      var (bound, upper) := Iterators.DiffMaxBound(upperBound, other);
      b, upperBound := bound, upper;
    }

    method Next() returns (piece: Option<Range>)
      requires Iterators.FirstLowerHasBound(View())
      modifies this
      ensures (View(), piece) == Iterators.DiffNext(old(View()))
    {
      if inner == [] {
        piece := if lowerBound.Some? && upperBound.Some?
                 then Some(Range(lowerBound.value, upperBound.value)) else None;
        lowerBound, upperBound := None, None;
        return;
      }
      var lim := inner[0];
      inner := inner[1..];
      if lim.IsLower() {
        var lo := lowerBound.value;
        lowerBound := None;
        var hi := MaxBound(lim.AsBound());
        piece := if hi.Some? then Some(Range(lo, hi.value)) else None;
      } else {
        var lo := MaxBound(lim.AsBound());
        if lo.None? {
          return None;
        }
        var hi;
        if inner != [] {
          var next := inner[0];
          inner := inner[1..];
          hi := MaxBound(next.AsBound());
        } else {
          hi, upperBound := upperBound, None;
        }
        piece := if hi.Some? then Some(Range(lo.value, hi.value)) else None;
      }
    }

    /** A consumer that stops at the first `None`. */
    method Drain() returns (pieces: seq<Range>)
      requires Iterators.DiffOk(View())
      modifies this
      ensures pieces == old(Iterators.DiffCollect(View()))
    {
      pieces := [];
      while true
        invariant Iterators.DiffOk(View())
        invariant old(Iterators.DiffCollect(View())) == pieces + Iterators.DiffCollect(View())
        decreases |inner|, lowerBound.Some?
      {
        Iterators.DiffNextKeepsOk(View());
        var piece := Next();
        if piece.None? {
          break;
        }
        pieces := pieces + [piece.value];
      }
    }

    /** It has collected exactly the uncovered part of the range. */
    method Collect(ghost tree: seq<Endpoint>, ghost r: Range) returns (pieces: seq<Range>)
      requires Tree.Valid(tree) && CheckRange(r) && View() == Iterators.DiffStart(tree, r)
      modifies this
      ensures Iterators.Ordered(pieces)
      ensures forall p :: Iterators.InPieces(pieces, p) <==> InRange(r, p) && !Tree.Contains(tree, p)
    {
      DifferenceEverywhere(tree, r);
      pieces := Drain();
    }
  }

  class IntervalOverlapIter {
    var lowerBound: Option<Bound>
    var upperBound: Option<Bound>
    var inner: seq<Endpoint>

    ghost function View(): Iterators.Iter
      reads this
    {
      Iterators.Iter(lowerBound, upperBound, inner)
    }

    /** `get_interval_overlaps`. */
    constructor (tree: seq<Endpoint>, r: Range)
      requires Tree.Valid(tree) && CheckRange(r)
      ensures View() == Overlaps.OverStart(tree, r) && Overlaps.OverOk(View())
    {
      lowerBound, upperBound := Some(r.start), Some(r.end);
      inner := tree[Overlaps.OverFrom(tree, r.start)..];
      Overlaps.OverStartOk(tree, r);
    }

    method MaxBound(other: Bound) returns (b: Option<Bound>)
      modifies this`upperBound
      ensures (b, upperBound) == Overlaps.OverMaxBound(old(upperBound), other)
    {
      var (bound, upper) := Overlaps.OverMaxBound(upperBound, other);
      b, upperBound := bound, upper;
    }

    method Next() returns (piece: Option<Range>)
      requires Overlaps.FirstUpperHasBound(View())
      modifies this
      ensures (View(), piece) == Overlaps.OverNext(old(View()))
    {
      if inner == [] {
        return None;
      }
      var lim := inner[0];
      inner := inner[1..];
      if lim.IsUpper() {
        var lo := lowerBound.value;
        lowerBound := None;
        var hi := MaxBound(lim.AsBound());
        piece := if hi.Some? then Some(Range(lo, hi.value)) else None;
      } else {
        var lo := MaxBound(lim.AsBound());
        if lo.None? {
          return None;
        }
        var hi;
        if inner != [] {
          var next := inner[0];
          inner := inner[1..];
          hi := MaxBound(next.AsBound());
        } else {
          hi, upperBound := upperBound, None;
        }
        piece := if hi.Some? then Some(Range(lo.value, hi.value)) else None;
      }
    }

    /** A consumer that stops at the first `None`. */
    method Drain() returns (pieces: seq<Range>)
      requires Overlaps.OverOk(View())
      modifies this
      ensures pieces == old(Overlaps.OverCollect(View()))
    {
      pieces := [];
      while true
        invariant Overlaps.OverOk(View())
        invariant old(Overlaps.OverCollect(View())) == pieces + Overlaps.OverCollect(View())
        decreases |inner|
      {
        Overlaps.OverNextKeepsOk(View());
        var piece := Next();
        if piece.None? {
          break;
        }
        pieces := pieces + [piece.value];
      }
    }

    /** It has collected exactly the covered part of the range if and only if the range is safe. */
    method Collect(ghost tree: seq<Endpoint>, ghost r: Range) returns (pieces: seq<Range>)
      requires Tree.Valid(tree) && CheckRange(r) && View() == Overlaps.OverStart(tree, r)
      modifies this
      ensures Iterators.Ordered(pieces)
      ensures (forall p :: Iterators.InPieces(pieces, p) <==> InRange(r, p) && Tree.Contains(tree, p))
              <==> Overlaps.OverlapsSafe(tree, r)
    {
      Overlaps.OverStartOk(tree, r);
      Overlaps.OverlapsExactIffSafe(tree, r);
      Overlaps.OverlapsOrdered(tree, r);
      pieces := Drain();
    }
  }
}
