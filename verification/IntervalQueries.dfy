/** Queries on the merging interval set, and the fact that its representation is canonical. */
module IntervalQueries {
  import opened IntervalEndpoints
  import opened IntervalTree

  // ---------------------------------------------------------------- contains_point

  function ContainsPoint(s: seq<Endpoint>, p: real): bool {
    var n := FirstAfter(s, LowerInclusive(p));
    if n == |s| then false
    else match s[n]
      case UpperUnbounded => true
      case UpperExclusive(l) => l > p
      case UpperInclusive(l) => l >= p
      case _ => false
  }

  lemma AfterPoint(e: Endpoint, p: real)
    ensures Less(LowerInclusive(p), e) <==> !Before(e, p) || e == UpperExclusive(p)
  {
  }

  lemma ContainsPointIsMembership(s: seq<Endpoint>, p: real)
    requires Valid(s)
    ensures ContainsPoint(s, p) <==> Contains(s, p)
  {
    var n, k := FirstAfter(s, LowerInclusive(p)), CountBefore(s, p);
    CountIsPrefix(s, p);
    ContainsIffOdd(s, p);
    if k < |s| {
      AfterPoint(s[k], p);
    }
    assert n <= k;
    if n < k {
      AfterPoint(s[n], p);
      assert CutLess(s[n], s[k - 1]) || n == k - 1;
      assert n == k - 1;
    }
  }

  // ---------------------------------------------------------------- covers_interval

  function CoversInterval(s: seq<Endpoint>, r: Range): bool
    requires CheckRange(r)
  {
    var n := FirstAfter(s, Lower(r.start));
    if n == |s| then false
    else if s[n].UpperUnbounded? then true
    else s[n].IsUpper() && AtMost(Upper(r.end), s[n])
  }

  /** The endpoint the search finds is the first whose cut lies after the start of the range,
      unless an interval ends exactly there. */
  lemma CoversWhenFound(s: seq<Endpoint>, r: Range, n: nat, p: real)
    requires Valid(s) && CheckRange(r) && n < |s|
    requires forall i :: 0 <= i < n ==> !CutLess(Lower(r.start), s[i])
    requires s[n].IsUpper() && !CutLess(s[n], Upper(r.end)) && InRange(r, p)
    ensures Contains(s, p)
  {
    if n > 0 {
      BeforeMonotone(s[n - 1], Lower(r.start), p);
    }
    BeforeMonotone(Upper(r.end), s[n], p);
    CountIs(s, p, n);
    ContainsIffOdd(s, p);
  }

  /** A point of the range that the set misses, when the search says no. */
  lemma MissWhenNotFound(s: seq<Endpoint>, r: Range, n: nat) returns (p: real)
    requires Valid(s) && CheckRange(r) && n <= |s|
    requires forall i :: 0 <= i < n ==> !CutLess(Lower(r.start), s[i])
    requires n < |s| ==> CutLess(Lower(r.start), s[n])
    requires n < |s| && s[n].IsUpper() ==> CutLess(s[n], Upper(r.end))
    ensures InRange(r, p) && !Contains(s, p)
  {
    if n == |s| || s[n].IsLower() {
      p := MissBefore(s, r, n);
    } else {
      p := MissAfter(s, r, n);
    }
    ContainsIffOdd(s, p);
  }

  /** A point of the range before the `n`-th endpoint. */
  lemma MissBefore(s: seq<Endpoint>, r: Range, n: nat) returns (p: real)
    requires Valid(s) && CheckRange(r) && n <= |s|
    requires forall i :: 0 <= i < n ==> !CutLess(Lower(r.start), s[i])
    requires n < |s| ==> CutLess(Lower(r.start), s[n])
    ensures InRange(r, p) && CountBefore(s, p) == n
  {
    var lo, hi := Lower(r.start), Upper(r.end);
    CheckRangeIsCutLess(r);
    if n < |s| && CutLess(s[n], hi) {
      p := Witness(lo, s[n]);
      BeforeMonotone(s[n], hi, p);
    } else {
      p := Witness(lo, hi);
      if n < |s| {
        BeforeMonotone(hi, s[n], p);
      }
    }
    if n > 0 {
      BeforeMonotone(s[n - 1], lo, p);
    }
    CountIs(s, p, n);
  }

  /** A point of the range after the `n`-th endpoint, which lies within it. */
  lemma MissAfter(s: seq<Endpoint>, r: Range, n: nat) returns (p: real)
    requires Valid(s) && n < |s| && CutLess(Lower(r.start), s[n]) && CutLess(s[n], Upper(r.end))
    ensures InRange(r, p) && CountBefore(s, p) == n + 1
  {
    var lo, hi := Lower(r.start), Upper(r.end);
    if n + 1 < |s| && CutLess(s[n + 1], hi) {
      p := Witness(s[n], s[n + 1]);
      BeforeMonotone(s[n + 1], hi, p);
    } else {
      p := Witness(s[n], hi);
      if n + 1 < |s| {
        BeforeMonotone(hi, s[n + 1], p);
      }
    }
    BeforeMonotone(lo, s[n], p);
    CountIs(s, p, n + 1);
  }

  lemma CoversIntervalIsInclusion(s: seq<Endpoint>, r: Range)
    requires Valid(s) && CheckRange(r)
    ensures CoversInterval(s, r) <==> forall p :: InRange(r, p) ==> Contains(s, p)
  {
    var lo, hi := Lower(r.start), Upper(r.end);
    var n := FirstAfter(s, lo);
    CheckRangeIsCutLess(r);
    forall i | 0 <= i < n ensures !CutLess(lo, s[i]) {
    }
    if CoversInterval(s, r) {
      forall p | InRange(r, p) ensures Contains(s, p) {
        CoversWhenFound(s, r, n, p);
      }
    } else {
      var m := n;
      if n < |s| && !CutLess(lo, s[n]) {
        m := n + 1;
        assert n + 1 < |s| ==> CutLess(s[n], s[n + 1]);
      }
      var p := MissWhenNotFound(s, r, m);
    }
  }

  // ---------------------------------------------------------------- canonicity

  lemma PointTellsApart(s: seq<Endpoint>, t: seq<Endpoint>, i: nat, p: real)
    requires Valid(s) && Valid(t)
    requires i < |s| && i <= |t| && s[..i] == t[..i]
    requires Before(s[i], p)
    requires i + 1 < |s| ==> !Before(s[i + 1], p)
    requires i < |t| ==> !Before(t[i], p)
    ensures Contains(s, p) <==> !Contains(t, p)
  {
    if i > 0 {
      assert t[i - 1] == s[..i][i - 1] == s[i - 1];
      BeforeMonotone(s[i - 1], s[i], p);
    }
    CountIs(s, p, i + 1);
    CountIs(t, p, i);
    ContainsIffOdd(s, p);
    ContainsIffOdd(t, p);
  }

  /** Two valid sequences that first part at position `i`, the first with the earlier cut, are told
      apart by a point. */
  lemma FirstDifference(s: seq<Endpoint>, t: seq<Endpoint>, i: nat) returns (p: real)
    requires Valid(s) && Valid(t)
    requires i < |s| && i <= |t| && s[..i] == t[..i]
    requires i < |t| ==> CutLess(s[i], t[i])
    ensures Contains(s, p) <==> !Contains(t, p)
  {
    if i < |t| && (i + 1 == |s| || !CutLess(s[i + 1], t[i])) {
      p := Witness(s[i], t[i]);
      if i + 1 < |s| {
        BeforeMonotone(t[i], s[i + 1], p);
      }
    } else {
      p := Witness(s[i], s[i + 1]);
      if i < |t| {
        BeforeMonotone(s[i + 1], t[i], p);
      }
    }
    PointTellsApart(s, t, i, p);
  }

  lemma SameKindSameCut(a: Endpoint, b: Endpoint)
    requires a.IsLower() == b.IsLower() && SameCut(a, b)
    ensures a == b
  {
  }

  ghost predicate SamePoints(s: seq<Endpoint>, t: seq<Endpoint>) {
    forall p :: Contains(s, p) <==> Contains(t, p)
  }

  /** Equal point sets have equal endpoint sequences. */
  lemma {:induction false} Canonical(s: seq<Endpoint>, t: seq<Endpoint>)
    requires Valid(s) && Valid(t) && SamePoints(s, t)
    ensures s == t
  {
    var i := 0;
    while i < |s| && i < |t| && s[i] == t[i]
      invariant i <= |s| && i <= |t| && s[..i] == t[..i]
    {
      assert s[..i + 1] == s[..i] + [s[i]] == t[..i + 1];
      i := i + 1;
    }
    if i < |s| && i < |t| {
      if CutLess(s[i], t[i]) {
        var p := FirstDifference(s, t, i);
      } else if CutLess(t[i], s[i]) {
        var p := FirstDifference(t, s, i);
      } else {
        SameKindSameCut(s[i], t[i]);
      }
    } else if i < |s| {
      var p := FirstDifference(s, t, i);
    } else if i < |t| {
      var p := FirstDifference(t, s, i);
    }
  }

  function InsertAll(s: seq<Endpoint>, rs: seq<Range>): seq<Endpoint>
    decreases rs
  {
    if rs == [] then s else InsertAll(Insert(s, rs[0]), rs[1..])
  }

  lemma {:induction false} InsertAllPoints(s: seq<Endpoint>, rs: seq<Range>, p: real)
    requires Valid(s) && forall r :: r in rs ==> CheckRange(r)
    ensures Valid(InsertAll(s, rs))
    ensures Contains(InsertAll(s, rs), p) <==> Contains(s, p) || exists r :: r in rs && InRange(r, p)
    decreases rs
  {
    if rs != [] {
      InsertValid(s, rs[0]);
      InsertIsUnion(s, rs[0], p);
      InsertAllPoints(Insert(s, rs[0]), rs[1..], p);
      assert forall r :: r in rs <==> r == rs[0] || r in rs[1..];
    }
  }

  /** The set depends only on which intervals were inserted, not on order or repetition. */
  lemma InsertionOrderIrrelevant(s: seq<Endpoint>, rs: seq<Range>, qs: seq<Range>)
    requires Valid(s) && forall r :: r in rs ==> CheckRange(r)
    requires forall r :: r in rs <==> r in qs
    ensures InsertAll(s, rs) == InsertAll(s, qs)
  {
    InsertAllPoints(s, rs, 0.0);
    InsertAllPoints(s, qs, 0.0);
    forall p ensures Contains(InsertAll(s, rs), p) <==> Contains(InsertAll(s, qs), p) {
      InsertAllPoints(s, rs, p);
      InsertAllPoints(s, qs, p);
    }
    Canonical(InsertAll(s, rs), InsertAll(s, qs));
  }
}
