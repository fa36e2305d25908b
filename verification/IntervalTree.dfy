/** The merging interval set: a sorted sequence of endpoints that stands for a set of points. */
module IntervalTree {
  import opened IntervalEndpoints

  // ---------------------------------------------------------------- the stored set

  /** The kinds alternate as if the sequence stood at position `k` of an alternating one. */
  ghost predicate AlternatesFrom(s: seq<Endpoint>, k: nat) {
    forall i :: 0 <= i < |s| ==> (s[i].IsLower() <==> (k + i) % 2 == 0)
  }

  ghost predicate Alternates(s: seq<Endpoint>) {
    |s| % 2 == 0 && AlternatesFrom(s, 0)
  }

  ghost predicate CutSorted(s: seq<Endpoint>) {
    forall i, j :: 0 <= i < j < |s| ==> CutLess(s[i], s[j])
  }

  /** The invariant of the set: lower and upper ends alternate and the cuts strictly increase. */
  ghost predicate Valid(s: seq<Endpoint>) {
    Alternates(s) && CutSorted(s)
  }

  ghost predicate Sorted(s: seq<Endpoint>) {
    forall i, j :: 0 <= i < j < |s| ==> Less(s[i], s[j])
  }

  ghost predicate Inhabited(lo: Endpoint, hi: Endpoint) {
    exists p: real :: Before(lo, p) && !Before(hi, p)
  }

  ghost predicate IntervalsInhabited(s: seq<Endpoint>) {
    forall i :: 0 < i < |s| && s[i].IsUpper() ==> Inhabited(s[i - 1], s[i])
  }

  /** The invariant in the words of the documentation: sorted in the stored order, alternating,
      and no stored interval empty. */
  lemma ValidIffSortedAlternatingInhabited(s: seq<Endpoint>)
    ensures Valid(s) <==> Sorted(s) && Alternates(s) && IntervalsInhabited(s)
  {
    forall i | 0 < i < |s| ensures CutLess(s[i - 1], s[i]) <==> Inhabited(s[i - 1], s[i]) {
      CutLessIffSeparated(s[i - 1], s[i]);
    }
    if Sorted(s) && Alternates(s) && IntervalsInhabited(s) {
      CutSortedFromNeighbours(s);
    }
  }

  ghost predicate NeighboursCutSorted(s: seq<Endpoint>) {
    forall i :: 0 < i < |s| ==> CutLess(s[i - 1], s[i])
  }

  lemma CutSortedFromNeighbours(s: seq<Endpoint>)
    requires NeighboursCutSorted(s)
    ensures CutSorted(s)
  {
    if s != [] {
      var u := s[..|s| - 1];
      CutSortedFromNeighbours(u);
      forall i, j | 0 <= i < j < |s| ensures CutLess(s[i], s[j]) {
        if j == |s| - 1 {
          assert CutLess(s[j - 1], s[j]);
          assert i < j - 1 ==> CutLess(u[i], u[j - 1]);
        } else {
          assert CutLess(u[i], u[j]);
        }
      }
    }
  }

  // ---------------------------------------------------------------- points

  /** `p` lies in one of the stored intervals. */
  ghost predicate Contains(s: seq<Endpoint>, p: real) {
    exists i :: 0 < i < |s| && s[i].IsUpper() && Before(s[i - 1], p) && !Before(s[i], p)
  }

  function CountBefore(s: seq<Endpoint>, p: real): nat {
    if s == [] then 0 else (if Before(s[0], p) then 1 else 0) + CountBefore(s[1..], p)
  }

  lemma CountConcat(s: seq<Endpoint>, t: seq<Endpoint>, p: real)
    ensures CountBefore(s + t, p) == CountBefore(s, p) + CountBefore(t, p)
  {
    if s == [] {
      assert s + t == t;
    } else {
      assert (s + t)[1..] == s[1..] + t;
      CountConcat(s[1..], t, p);
    }
  }

  lemma CountAll(s: seq<Endpoint>, p: real)
    requires forall e :: e in s ==> Before(e, p)
    ensures CountBefore(s, p) == |s|
  {
    if s != [] {
      assert s[0] in s;
      assert forall e :: e in s[1..] ==> e in s;
      CountAll(s[1..], p);
    }
  }

  lemma CountNone(s: seq<Endpoint>, p: real)
    requires forall e :: e in s ==> !Before(e, p)
    ensures CountBefore(s, p) == 0
  {
    if s != [] {
      assert s[0] in s;
      assert forall e :: e in s[1..] ==> e in s;
      CountNone(s[1..], p);
    }
  }

  /** In a cut-sorted sequence the endpoints before `p` are a prefix. */
  lemma CountIsPrefix(s: seq<Endpoint>, p: real)
    requires CutSorted(s)
    ensures CountBefore(s, p) <= |s|
    ensures forall i :: 0 <= i < CountBefore(s, p) ==> Before(s[i], p)
    ensures forall i :: CountBefore(s, p) <= i < |s| ==> !Before(s[i], p)
  {
    if s != [] {
      CountIsPrefix(s[1..], p);
      if !Before(s[0], p) {
        forall i | 0 <= i < |s| ensures !Before(s[i], p) {
          assert i == 0 || CutLess(s[0], s[i]);
        }
        CountNone(s, p);
      } else {
        forall i | 0 <= i < CountBefore(s, p) ensures Before(s[i], p) {
          assert i == 0 || s[i] == s[1..][i - 1];
        }
        forall i | CountBefore(s, p) <= i < |s| ensures !Before(s[i], p) {
          assert s[i] == s[1..][i - 1];
        }
      }
    }
  }

  lemma CountIs(s: seq<Endpoint>, p: real, n: nat)
    requires CutSorted(s) && n <= |s|
    requires n > 0 ==> Before(s[n - 1], p)
    requires n < |s| ==> !Before(s[n], p)
    ensures CountBefore(s, p) == n
  {
    CountIsPrefix(s, p);
  }

  /** A point is in the set exactly when an odd number of endpoints lies before it. */
  lemma ContainsIffOdd(s: seq<Endpoint>, p: real)
    requires Valid(s)
    ensures Contains(s, p) <==> CountBefore(s, p) % 2 == 1
  {
    CountIsPrefix(s, p);
    var k := CountBefore(s, p);
    if k % 2 == 1 {
      assert 0 < k < |s| && s[k].IsUpper() && Before(s[k - 1], p) && !Before(s[k], p);
    }
  }

  // ---------------------------------------------------------------- BTreeSet operations

  /** Index of the first endpoint not less than `e`: where `range(e..)` starts. */
  function FirstFrom(s: seq<Endpoint>, e: Endpoint): (n: nat)
    ensures n <= |s|
    ensures forall i :: 0 <= i < n ==> Less(s[i], e)
    ensures n < |s| ==> !Less(s[n], e)
  {
    if s == [] || !Less(s[0], e) then 0 else 1 + FirstFrom(s[1..], e)
  }

  /** Index of the first endpoint greater than `e`: where `range((Excluded(e), ..))` starts. */
  function FirstAfter(s: seq<Endpoint>, e: Endpoint): (n: nat)
    ensures n <= |s|
    ensures forall i :: 0 <= i < n ==> AtMost(s[i], e)
    ensures n < |s| ==> Less(e, s[n])
  {
    if s == [] || Less(e, s[0]) then 0 else 1 + FirstAfter(s[1..], e)
  }

  function SetInsert(s: seq<Endpoint>, e: Endpoint): seq<Endpoint> {
    var n := FirstFrom(s, e);
    if n < |s| && s[n] == e then s else s[..n] + [e] + s[n..]
  }

  function SetRemove(s: seq<Endpoint>, e: Endpoint): seq<Endpoint> {
    var n := FirstFrom(s, e);
    if n < |s| && s[n] == e then s[..n] + s[n + 1..] else s
  }

  lemma CutLessImpliesLess(a: Endpoint, b: Endpoint)
    requires CutLess(a, b)
    ensures Less(a, b)
  {
  }

  /** Inserting between two parts that lie below and above puts the endpoint between them. */
  lemma SetInsertBetween(a: seq<Endpoint>, e: Endpoint, b: seq<Endpoint>)
    requires forall i :: 0 <= i < |a| ==> Less(a[i], e)
    requires b != [] ==> Less(e, b[0])
    ensures SetInsert(a + b, e) == a + [e] + b
  {
    var n := FirstFrom(a + b, e);
    assert b != [] ==> (a + b)[|a|] == b[0] && !Less(b[0], e);
    assert n == |a|;
    assert (a + b)[..n] == a && (a + b)[n..] == b;
  }

  /** Removing the first element of the upper part. */
  lemma SetRemoveBetween(a: seq<Endpoint>, b: seq<Endpoint>)
    requires b != []
    requires forall i :: 0 <= i < |a| ==> Less(a[i], b[0])
    ensures SetRemove(a + b, b[0]) == a + b[1..]
  {
    var n := FirstFrom(a + b, b[0]);
    assert (a + b)[|a|] == b[0];
    assert n == |a|;
    assert (a + b)[..n] == a && (a + b)[n + 1..] == b[1..];
  }

  // ---------------------------------------------------------------- insert and remove

  /** The stretch `[from, to)` of endpoints that a range takes out of the set. */
  function From(s: seq<Endpoint>, r: Range): nat {
    FirstFrom(s, Lower(r.start))
  }

  function To(s: seq<Endpoint>, r: Range): (n: nat)
    ensures From(s, r) <= n <= |s|
  {
    From(s, r) + FirstAfter(s[From(s, r)..], Upper(r.end))
  }

  /** The first removed endpoint is an upper one; with nothing removed, the next one is. */
  predicate StartsInside(s: seq<Endpoint>, a: nat) {
    a < |s| && s[a].IsUpper()
  }

  /** The last removed endpoint is a lower one; with nothing removed, the next one is upper. */
  predicate EndsInside(s: seq<Endpoint>, a: nat, b: nat)
    requires a <= b <= |s|
  {
    if a < b then s[b - 1].IsLower() else b < |s| && s[b].IsUpper()
  }

  /** The two guards are the parity of the two split points. */
  lemma SplitParity(s: seq<Endpoint>, a: nat, b: nat)
    requires Alternates(s) && a <= b <= |s|
    ensures StartsInside(s, a) <==> a % 2 == 1
    ensures EndsInside(s, a, b) <==> b % 2 == 1
  {
  }

  lemma LowerEndOrder(e: Endpoint, lo: Endpoint)
    requires lo.IsLower()
    ensures Less(e, lo) <==> CutLess(e, lo)
  {
  }

  lemma UpperEndOrder(hi: Endpoint, e: Endpoint)
    requires hi.IsUpper()
    ensures Less(hi, e) <==> CutLess(hi, e)
  {
  }

  lemma CutLessTrans(a: Endpoint, b: Endpoint, c: Endpoint)
    ensures CutLess(a, b) && CutLess(b, c) ==> CutLess(a, c)
    ensures !CutLess(b, a) && CutLess(b, c) ==> CutLess(a, c)
    ensures CutLess(a, b) && !CutLess(c, b) ==> CutLess(a, c)
  {
  }

  /** How a valid set splits around a range: cuts strictly before it ... */
  lemma SplitLow(s: seq<Endpoint>, r: Range)
    requires CutSorted(s)
    ensures forall e :: e in s[..From(s, r)] ==> CutLess(e, Lower(r.start))
    ensures forall e :: e in s[From(s, r)..] ==> !CutLess(e, Lower(r.start))
  {
    var lo, a := Lower(r.start), From(s, r);
    forall e | e in s[..a] ensures CutLess(e, lo) {
      LowerEndOrder(e, lo);
    }
    forall e | e in s[a..] ensures !CutLess(e, lo) {
      var i :| 0 <= i < |s[a..]| && s[a..][i] == e;
      LowerEndOrder(s[a], lo);
      if i > 0 {
        assert CutLess(s[a], s[a + i]);
        CutLessTrans(s[a], e, lo);
      }
    }
  }

  /** ... at its ends or inside, and strictly after it. */
  lemma SplitHigh(s: seq<Endpoint>, r: Range)
    requires CutSorted(s)
    ensures forall e :: e in s[From(s, r)..To(s, r)] ==> !CutLess(Upper(r.end), e)
    ensures forall e :: e in s[To(s, r)..] ==> CutLess(Upper(r.end), e)
  {
    var hi, a, b := Upper(r.end), From(s, r), To(s, r);
    assert s[a..][..b - a] == s[a..b];
    forall e | e in s[a..b] ensures !CutLess(hi, e) {
      var i :| 0 <= i < b - a && s[a..][i] == e;
      UpperEndOrder(hi, e);
    }
    forall e | e in s[b..] ensures CutLess(hi, e) {
      var i :| 0 <= i < |s[b..]| && s[b..][i] == e;
      assert s[b] == s[a..][b - a];
      UpperEndOrder(hi, s[b]);
      if i > 0 {
        assert CutLess(s[b], s[b + i]);
        CutLessTrans(hi, s[b], e);
      }
    }
  }

  lemma BeforeMonotone(a: Endpoint, b: Endpoint, p: real)
    requires !CutLess(b, a)
    ensures Before(b, p) ==> Before(a, p)
  {
  }

  lemma CountBelow(s: seq<Endpoint>, e: Endpoint, p: real)
    requires forall x :: x in s ==> !CutLess(e, x)
    requires Before(e, p)
    ensures CountBefore(s, p) == |s|
  {
    forall x | x in s ensures Before(x, p) {
      BeforeMonotone(x, e, p);
    }
    CountAll(s, p);
  }

  lemma CountAbove(s: seq<Endpoint>, e: Endpoint, p: real)
    requires forall x :: x in s ==> !CutLess(x, e)
    requires !Before(e, p)
    ensures CountBefore(s, p) == 0
  {
    forall x | x in s ensures !Before(x, p) {
      BeforeMonotone(e, x, p);
    }
    CountNone(s, p);
  }

  lemma CountThree(a: seq<Endpoint>, b: seq<Endpoint>, c: seq<Endpoint>, p: real)
    ensures CountBefore(a + b + c, p) == CountBefore(a, p) + CountBefore(b, p) + CountBefore(c, p)
  {
    CountConcat(a + b, c, p);
    CountConcat(a, b, p);
  }

  /** Endpoints before an end of the range count fully, those after it not at all. */
  lemma CountLowPart(s: seq<Endpoint>, r: Range, p: real)
    requires CutSorted(s)
    ensures Before(Lower(r.start), p) ==> CountBefore(s[..From(s, r)], p) == From(s, r)
    ensures !Before(Lower(r.start), p) ==> CountBefore(s[From(s, r)..To(s, r)], p) == 0
  {
    var a, b := From(s, r), To(s, r);
    SplitLow(s, r);
    if Before(Lower(r.start), p) {
      CountBelow(s[..a], Lower(r.start), p);
    } else {
      assert forall e :: e in s[a..b] ==> e in s[a..];
      CountAbove(s[a..b], Lower(r.start), p);
    }
  }

  lemma CountHighPart(s: seq<Endpoint>, r: Range, p: real)
    requires CutSorted(s)
    ensures Before(Upper(r.end), p) ==> CountBefore(s[From(s, r)..To(s, r)], p) == To(s, r) - From(s, r)
    ensures !Before(Upper(r.end), p) ==> CountBefore(s[To(s, r)..], p) == 0
  {
    var a, b := From(s, r), To(s, r);
    SplitHigh(s, r);
    if Before(Upper(r.end), p) {
      CountBelow(s[a..b], Upper(r.end), p);
    } else {
      CountAbove(s[b..], Upper(r.end), p);
    }
  }

  /** `x` stands at the same cut as `e`. */
  ghost predicate SameCut(x: Endpoint, e: Endpoint) {
    !CutLess(x, e) && !CutLess(e, x)
  }

  /** At most one endpoint, and that one at the cut of `e`. */
  ghost predicate AtCut(x: seq<Endpoint>, e: Endpoint) {
    |x| <= 1 && forall y :: y in x ==> SameCut(y, e)
  }

  /** Both operations replace the stretch `[From, To)` by new ends at the cuts of the range. */
  function Rebuild(s: seq<Endpoint>, r: Range, x: seq<Endpoint>, y: seq<Endpoint>): seq<Endpoint> {
    s[..From(s, r)] + x + y + s[To(s, r)..]
  }

  /** What rebuilding does to the count of a point left of, inside and right of the range. */
  lemma RebuildCount(s: seq<Endpoint>, r: Range, x: seq<Endpoint>, y: seq<Endpoint>, p: real)
    requires CutSorted(s) && CheckRange(r)
    requires AtCut(x, Lower(r.start)) && AtCut(y, Upper(r.end))
    ensures !Before(Lower(r.start), p) ==> CountBefore(Rebuild(s, r, x, y), p) == CountBefore(s, p)
    ensures InRange(r, p) ==> CountBefore(Rebuild(s, r, x, y), p) == From(s, r) + |x|
    ensures Before(Upper(r.end), p) ==>
              CountBefore(Rebuild(s, r, x, y), p) + To(s, r) ==
              CountBefore(s, p) + From(s, r) + |x| + |y|
  {
    var a, b := From(s, r), To(s, r);
    CheckRangeIsCutLess(r);
    BeforeMonotone(Lower(r.start), Upper(r.end), p);
    CountLowPart(s, r, p);
    CountHighPart(s, r, p);
    assert s == s[..a] + s[a..b] + s[b..];
    CountThree(s[..a], s[a..b], s[b..], p);
    CountThree(s[..a] + x, y, s[b..], p);
    CountConcat(s[..a], x, p);
    if Before(Lower(r.start), p) {
      CountBelow(x, Lower(r.start), p);
    } else {
      CountAbove(x, Lower(r.start), p);
      assert CountBefore(s[b..], p) == 0;
    }
    if Before(Upper(r.end), p) {
      CountBelow(y, Upper(r.end), p);
    } else {
      CountAbove(y, Upper(r.end), p);
    }
  }

  lemma CutSortedJoin(a: seq<Endpoint>, b: seq<Endpoint>)
    requires CutSorted(a) && CutSorted(b)
    requires forall x, y :: x in a && y in b ==> CutLess(x, y)
    ensures CutSorted(a + b)
  {
  }

  /** The two untouched ends and the new ends between them are in cut order. */
  lemma RebuildSorted(s: seq<Endpoint>, r: Range, x: seq<Endpoint>, y: seq<Endpoint>)
    requires CutSorted(s) && CheckRange(r)
    requires AtCut(x, Lower(r.start)) && AtCut(y, Upper(r.end))
    ensures CutSorted(Rebuild(s, r, x, y))
  {
    var a, b := s[..From(s, r)], s[To(s, r)..];
    var lo, hi := Lower(r.start), Upper(r.end);
    CheckRangeIsCutLess(r);
    SplitLow(s, r);
    SplitHigh(s, r);
    forall u, v | u in a && v in x ensures CutLess(u, v) {
      CutLessTrans(u, lo, v);
    }
    CutSortedJoin(a, x);
    forall u | u in a + x ensures CutLess(u, hi) {
      CutLessTrans(u, lo, hi);
    }
    forall u, v | u in a + x && v in y ensures CutLess(u, v) {
      CutLessTrans(u, hi, v);
    }
    CutSortedJoin(a + x, y);
    forall u, v | u in a + x + y && v in b ensures CutLess(u, v) {
      CutLessTrans(u, hi, v);
    }
    CutSortedJoin(a + x + y, b);
  }

  lemma AlternatesFromParity(s: seq<Endpoint>, k: nat, m: nat)
    requires AlternatesFrom(s, k) && k % 2 == m % 2
    ensures AlternatesFrom(s, m)
  {
  }

  lemma AlternatesFromJoin(a: seq<Endpoint>, b: seq<Endpoint>, k: nat)
    requires AlternatesFrom(a, k) && AlternatesFrom(b, k + |a|)
    ensures AlternatesFrom(a + b, k)
  {
    forall i | 0 <= i < |a + b| ensures (a + b)[i].IsLower() <==> (k + i) % 2 == 0 {
      if i >= |a| {
        assert (a + b)[i] == b[i - |a|];
        assert k + |a| + (i - |a|) == k + i;
      }
    }
  }

  lemma AlternatesFromSlice(s: seq<Endpoint>, n: nat)
    requires Alternates(s) && n <= |s|
    ensures AlternatesFrom(s[..n], 0) && AlternatesFrom(s[n..], n)
  {
  }

  lemma AlternatesFromFour(a: seq<Endpoint>, x: seq<Endpoint>, y: seq<Endpoint>, b: seq<Endpoint>)
    requires AlternatesFrom(a, 0)
    requires AlternatesFrom(x, |a|)
    requires AlternatesFrom(y, |a| + |x|)
    requires AlternatesFrom(b, |a| + |x| + |y|)
    ensures AlternatesFrom(a + x + y + b, 0)
  {
    AlternatesFromJoin(a, x, 0);
    AlternatesFromJoin(a + x, y, 0);
    AlternatesFromJoin(a + x + y, b, 0);
  }

  /** With the right number of new ends the kinds still alternate. */
  lemma RebuildAlternates(s: seq<Endpoint>, a: nat, b: nat, x: seq<Endpoint>, y: seq<Endpoint>)
    requires Alternates(s) && a <= |s| && b <= |s|
    requires AlternatesFrom(x, a) && AlternatesFrom(y, a + |x|)
    requires (a + |x| + |y|) % 2 == b % 2
    ensures Alternates(s[..a] + x + y + s[b..])
  {
    AlternatesFromSlice(s, a);
    AlternatesFromSlice(s, b);
    AlternatesFromParity(s[b..], b, a + |x| + |y|);
    AlternatesFromFour(s[..a], x, y, s[b..]);
  }

  function InsertLow(s: seq<Endpoint>, r: Range, a: nat): seq<Endpoint> {
    if StartsInside(s, a) then [] else [Lower(r.start)]
  }

  function InsertHigh(s: seq<Endpoint>, r: Range, a: nat, b: nat): seq<Endpoint>
    requires a <= b <= |s|
  {
    if EndsInside(s, a, b) then [] else [Upper(r.end)]
  }

  function RemoveLow(s: seq<Endpoint>, r: Range, a: nat): seq<Endpoint> {
    if StartsInside(s, a) then [UpperComplement(r.start)] else []
  }

  function RemoveHigh(s: seq<Endpoint>, r: Range, a: nat, b: nat): seq<Endpoint>
    requires a <= b <= |s|
  {
    if EndsInside(s, a, b) then [LowerComplement(r.end)] else []
  }

  /** The set after `insert_interval(r)`. */
  function Insert(s: seq<Endpoint>, r: Range): seq<Endpoint> {
    var a, b := From(s, r), To(s, r);
    s[..a] + InsertLow(s, r, a) + InsertHigh(s, r, a, b) + s[b..]
  }

  /** The set after `remove_interval(r)`. */
  function Remove(s: seq<Endpoint>, r: Range): seq<Endpoint> {
    var a, b := From(s, r), To(s, r);
    s[..a] + RemoveLow(s, r, a) + RemoveHigh(s, r, a, b) + s[b..]
  }

  lemma InsertSizes(s: seq<Endpoint>, r: Range, a: nat, b: nat)
    requires Alternates(s) && a <= b <= |s|
    ensures (a + |InsertLow(s, r, a)|) % 2 == 1
    ensures (b + |InsertHigh(s, r, a, b)|) % 2 == 1
  {
    SplitParity(s, a, b);
  }

  lemma InsertAlternates(s: seq<Endpoint>, r: Range, a: nat, b: nat)
    requires Alternates(s) && a <= b <= |s|
    ensures Alternates(s[..a] + InsertLow(s, r, a) + InsertHigh(s, r, a, b) + s[b..])
  {
    SplitParity(s, a, b);
    RebuildAlternates(s, a, b, InsertLow(s, r, a), InsertHigh(s, r, a, b));
  }

  lemma RemoveSizes(s: seq<Endpoint>, r: Range, a: nat, b: nat)
    requires Alternates(s) && a <= b <= |s|
    ensures (a + |RemoveLow(s, r, a)|) % 2 == 0
    ensures (b + |RemoveHigh(s, r, a, b)|) % 2 == 0
  {
    SplitParity(s, a, b);
  }

  lemma RemoveAlternates(s: seq<Endpoint>, r: Range, a: nat, b: nat)
    requires Alternates(s) && a <= b <= |s|
    ensures Alternates(s[..a] + RemoveLow(s, r, a) + RemoveHigh(s, r, a, b) + s[b..])
  {
    SplitParity(s, a, b);
    RebuildAlternates(s, a, b, RemoveLow(s, r, a), RemoveHigh(s, r, a, b));
  }

  lemma InsertEndsAtCuts(s: seq<Endpoint>, r: Range, a: nat, b: nat)
    requires a <= b <= |s|
    ensures AtCut(InsertLow(s, r, a), Lower(r.start))
    ensures AtCut(InsertHigh(s, r, a, b), Upper(r.end))
  {
  }

  /** An unbounded start never lies inside an interval, nor does an unbounded end. */
  lemma RemoveEndsAtCuts(s: seq<Endpoint>, r: Range, a: nat, b: nat)
    requires Alternates(s) && a == From(s, r) && b == To(s, r)
    ensures AtCut(RemoveLow(s, r, a), Lower(r.start))
    ensures AtCut(RemoveHigh(s, r, a, b), Upper(r.end))
  {
    SplitParity(s, a, b);
    if r.start.Unbounded? {
      assert a == 0;
    }
    if r.end.Unbounded? {
      assert b == |s|;
    }
  }

  lemma InsertValid(s: seq<Endpoint>, r: Range)
    requires Valid(s) && CheckRange(r)
    ensures Valid(Insert(s, r))
  {
    var a, b := From(s, r), To(s, r);
    InsertAlternates(s, r, a, b);
    InsertEndsAtCuts(s, r, a, b);
    RebuildSorted(s, r, InsertLow(s, r, a), InsertHigh(s, r, a, b));
  }

  lemma RemoveValid(s: seq<Endpoint>, r: Range)
    requires Valid(s) && CheckRange(r)
    ensures Valid(Remove(s, r))
  {
    var a, b := From(s, r), To(s, r);
    RemoveAlternates(s, r, a, b);
    RemoveEndsAtCuts(s, r, a, b);
    RebuildSorted(s, r, RemoveLow(s, r, a), RemoveHigh(s, r, a, b));
  }

  /** Right of a stretch `[a, b)` that is replaced by `x` ends at its start and `y` ends at its
      end, the parity of a point's count does not change. */
  lemma ParityOfRebuild(before: nat, after: nat, a: nat, b: nat, x: nat, y: nat)
    requires after + b == before + a + x + y
    requires (a + x) % 2 == (b + y) % 2
    ensures after % 2 == before % 2
  {
  }

  lemma {:induction false} InsertParity(s: seq<Endpoint>, r: Range, p: real)
    requires Valid(s) && CheckRange(r)
    ensures CountBefore(Insert(s, r), p) % 2 == 1 <==> CountBefore(s, p) % 2 == 1 || InRange(r, p)
  {
    var a, b := From(s, r), To(s, r);
    var x, y := InsertLow(s, r, a), InsertHigh(s, r, a, b);
    InsertSizes(s, r, a, b);
    InsertEndsAtCuts(s, r, a, b);
    RebuildCount(s, r, x, y, p);
    if Before(Upper(r.end), p) {
      ParityOfRebuild(CountBefore(s, p), CountBefore(Insert(s, r), p), a, b, |x|, |y|);
    }
  }

  lemma RemoveCount(s: seq<Endpoint>, r: Range, a: nat, b: nat, p: real)
    requires Valid(s) && CheckRange(r) && a == From(s, r) && b == To(s, r)
    ensures !Before(Lower(r.start), p) ==> CountBefore(Remove(s, r), p) == CountBefore(s, p)
    ensures InRange(r, p) ==> CountBefore(Remove(s, r), p) == a + |RemoveLow(s, r, a)|
    ensures Before(Upper(r.end), p) ==>
              CountBefore(Remove(s, r), p) + b ==
              CountBefore(s, p) + a + |RemoveLow(s, r, a)| + |RemoveHigh(s, r, a, b)|
  {
    RemoveEndsAtCuts(s, r, a, b);
    RebuildCount(s, r, RemoveLow(s, r, a), RemoveHigh(s, r, a, b), p);
  }

  lemma {:induction false} RemoveParity(s: seq<Endpoint>, r: Range, p: real)
    requires Valid(s) && CheckRange(r)
    ensures CountBefore(Remove(s, r), p) % 2 == 1 <==> CountBefore(s, p) % 2 == 1 && !InRange(r, p)
  {
    var a, b := From(s, r), To(s, r);
    RemoveSizes(s, r, a, b);
    RemoveCount(s, r, a, b, p);
    RangeParity(CountBefore(s, p), CountBefore(Remove(s, r), p), a, b, |RemoveLow(s, r, a)|, |RemoveHigh(s, r, a, b)|,
                Before(Lower(r.start), p), Before(Upper(r.end), p));
    CheckRangeIsCutLess(r);
    BeforeMonotone(Lower(r.start), Upper(r.end), p);
  }

  /** Outside a removed range the parity stays, inside it is even. */
  lemma RangeParity(before: nat, after: nat, a: nat, b: nat, x: nat, y: nat, fromLow: bool, fromHigh: bool)
    requires !fromLow ==> after == before
    requires fromLow && !fromHigh ==> after == a + x
    requires fromHigh ==> after + b == before + a + x + y
    requires (a + x) % 2 == 0 && (b + y) % 2 == 0
    ensures after % 2 == 1 <==> before % 2 == 1 && !(fromLow && !fromHigh)
  {
    if fromHigh {
      ParityOfRebuild(before, after, a, b, x, y);
    }
  }

  /** `insert_interval` is set union. */
  lemma InsertIsUnion(s: seq<Endpoint>, r: Range, p: real)
    requires Valid(s) && CheckRange(r)
    ensures Contains(Insert(s, r), p) <==> Contains(s, p) || InRange(r, p)
  {
    InsertValid(s, r);
    InsertParity(s, r, p);
    ContainsIffOdd(s, p);
    ContainsIffOdd(Insert(s, r), p);
  }

  /** `remove_interval` is set difference. */
  lemma RemoveIsDifference(s: seq<Endpoint>, r: Range, p: real)
    requires Valid(s) && CheckRange(r)
    ensures Contains(Remove(s, r), p) <==> Contains(s, p) && !InRange(r, p)
  {
    RemoveValid(s, r);
    RemoveParity(s, r, p);
    ContainsIffOdd(s, p);
    ContainsIffOdd(Remove(s, r), p);
  }
}
