/** Bounds, endpoints and points of the merging interval set, over the dense order of the reals.

    An `Endpoint` is stored in the set; a `Bound` is what a caller writes in a range. Both mark
    a *cut* of the line: `LowerInclusive(x)` and `UpperExclusive(x)` cut just before `x`,
    `LowerExclusive(x)` and `UpperInclusive(x)` just after it. `Before(e, p)` says that the cut of
    `e` lies before the point `p`; everything about points is said with it. */
module IntervalEndpoints {
  datatype Bound = Included(v: real) | Excluded(v: real) | Unbounded

  datatype Range = Range(start: Bound, end: Bound)

  datatype Endpoint =
    | LowerUnbounded
    | LowerInclusive(v: real)
    | LowerExclusive(v: real)
    | UpperExclusive(v: real)
    | UpperInclusive(v: real)
    | UpperUnbounded
  {
    predicate IsLower() {
      LowerUnbounded? || LowerInclusive? || LowerExclusive?
    }

    predicate IsUpper() {
      !IsLower()
    }

    function AsBound(): Bound {
      match this
      case LowerUnbounded | UpperUnbounded => Unbounded
      case UpperExclusive(x) => Excluded(x)
      case LowerExclusive(x) => Excluded(x)
      case UpperInclusive(x) => Included(x)
      case LowerInclusive(x) => Included(x)
    }
  }

  function Lower(b: Bound): Endpoint {
    match b
    case Included(x) => LowerInclusive(x)
    case Excluded(x) => LowerExclusive(x)
    case Unbounded => LowerUnbounded
  }

  function Upper(b: Bound): Endpoint {
    match b
    case Included(x) => UpperInclusive(x)
    case Excluded(x) => UpperExclusive(x)
    case Unbounded => UpperUnbounded
  }

  function LowerComplement(b: Bound): Endpoint {
    match b
    case Included(x) => LowerExclusive(x)
    case Excluded(x) => LowerInclusive(x)
    case Unbounded => LowerUnbounded
  }

  function UpperComplement(b: Bound): Endpoint {
    match b
    case Included(x) => UpperExclusive(x)
    case Excluded(x) => UpperInclusive(x)
    case Unbounded => UpperUnbounded
  }

  /** The rank of an endpoint among those with the same value. */
  function Rank(e: Endpoint): int {
    match e
    case LowerInclusive(_) => 0
    case UpperExclusive(_) => 1
    case LowerExclusive(_) => 2
    case UpperInclusive(_) => 3
    case _ => 0
  }

  /** The strict order of the stored set: by value, then by rank, unbounded ends outermost. */
  predicate Less(a: Endpoint, b: Endpoint) {
    match a
    case LowerUnbounded => !b.LowerUnbounded?
    case UpperUnbounded => false
    case _ =>
      match b
      case LowerUnbounded => false
      case UpperUnbounded => true
      case _ => a.v < b.v || (a.v == b.v && Rank(a) < Rank(b))
  }

  predicate AtMost(a: Endpoint, b: Endpoint) {
    !Less(b, a)
  }

  datatype Ordering = Lt | Eq | Gt
  {
    /** `Ordering::then`: the second ordering decides when the first is `Eq`. */
    function Then(o: Ordering): Ordering {
      if this == Eq then o else this
    }
  }

  function CompareValues(a: real, b: real): Ordering {
    if a < b then Lt else if a == b then Eq else Gt
  }

  /** The comparison table of the stored endpoints. */
  function Cmp(a: Endpoint, b: Endpoint): Ordering {
    match a
    case LowerUnbounded =>
      if b.LowerUnbounded? then Eq else Lt
    case LowerInclusive(s) =>
      (match b
       case LowerUnbounded => Gt
       case LowerInclusive(o) => CompareValues(s, o)
       case UpperExclusive(o) => CompareValues(s, o).Then(Lt)
       case LowerExclusive(o) => CompareValues(s, o).Then(Lt)
       case UpperInclusive(o) => CompareValues(s, o).Then(Lt)
       case UpperUnbounded => Lt)
    case UpperExclusive(s) =>
      (match b
       case LowerUnbounded => Gt
       case LowerInclusive(o) => CompareValues(s, o).Then(Gt)
       case UpperExclusive(o) => CompareValues(s, o)
       case LowerExclusive(o) => CompareValues(s, o).Then(Lt)
       case UpperInclusive(o) => CompareValues(s, o).Then(Lt)
       case UpperUnbounded => Lt)
    case LowerExclusive(s) =>
      (match b
       case LowerUnbounded => Gt
       case LowerInclusive(o) => CompareValues(s, o).Then(Gt)
       case UpperExclusive(o) => CompareValues(s, o).Then(Gt)
       case LowerExclusive(o) => CompareValues(s, o)
       case UpperInclusive(o) => CompareValues(s, o).Then(Lt)
       case UpperUnbounded => Lt)
    case UpperInclusive(s) =>
      (match b
       case LowerUnbounded => Gt
       case LowerInclusive(o) => CompareValues(s, o).Then(Gt)
       case UpperExclusive(o) => CompareValues(s, o).Then(Gt)
       case LowerExclusive(o) => CompareValues(s, o).Then(Gt)
       case UpperInclusive(o) => CompareValues(s, o)
       case UpperUnbounded => Lt)
    case UpperUnbounded =>
      if b.UpperUnbounded? then Eq else Gt
  }

  lemma CmpIsTheOrder(a: Endpoint, b: Endpoint)
    ensures Cmp(a, b) == if a == b then Eq else if Less(a, b) then Lt else Gt
  {
  }

  lemma LessIsStrictTotal(a: Endpoint, b: Endpoint, c: Endpoint)
    ensures !Less(a, a)
    ensures Less(a, b) && Less(b, c) ==> Less(a, c)
    ensures a == b || Less(a, b) || Less(b, a)
  {
  }

  /** Does the cut of `e` lie before the point `p`? */
  predicate Before(e: Endpoint, p: real) {
    match e
    case LowerUnbounded => true
    case LowerInclusive(x) => x <= p
    case UpperExclusive(x) => x <= p
    case LowerExclusive(x) => x < p
    case UpperInclusive(x) => x < p
    case UpperUnbounded => false
  }

  /** The cut of `a` lies strictly before the cut of `b`. */
  predicate CutLess(a: Endpoint, b: Endpoint) {
    match a
    case LowerUnbounded => !b.LowerUnbounded?
    case UpperUnbounded => false
    case _ =>
      match b
      case LowerUnbounded => false
      case UpperUnbounded => true
      case _ => a.v < b.v || (a.v == b.v && Rank(a) <= 1 && Rank(b) >= 2)
  }

  /** A point between two cuts. */
  function Witness(a: Endpoint, b: Endpoint): (p: real)
    requires CutLess(a, b)
    ensures Before(a, p) && !Before(b, p)
  {
    if a.LowerUnbounded? then (if b.UpperUnbounded? then 0.0 else b.v - 1.0)
    else if b.UpperUnbounded? then a.v + 1.0
    else (a.v + b.v) / 2.0
  }

  /** Cut order is exactly the order that points can observe. */
  lemma CutLessIffSeparated(a: Endpoint, b: Endpoint)
    ensures CutLess(a, b) <==> exists p: real :: Before(a, p) && !Before(b, p)
  {
    if CutLess(a, b) {
      var p := Witness(a, b);
      assert Before(a, p) && !Before(b, p);
    }
  }

  predicate InRange(r: Range, p: real) {
    Before(Lower(r.start), p) && !Before(Upper(r.end), p)
  }

  /** The ranges that `check_range` lets through; the others panic. */
  predicate CheckRange(r: Range) {
    match (r.start, r.end)
    case (Excluded(s), Excluded(e)) => s < e
    case (Excluded(s), Included(e)) => s < e
    case (Included(s), Excluded(e)) => s < e
    case (Included(s), Included(e)) => s <= e
    case _ => true
  }

  lemma CheckRangeIsCutLess(r: Range)
    ensures CheckRange(r) <==> CutLess(Lower(r.start), Upper(r.end))
  {
  }

  /** Over a dense order, `check_range` rejects exactly the ranges that hold no point. */
  lemma CheckRangeIffInhabited(r: Range)
    ensures CheckRange(r) <==> exists p: real :: InRange(r, p)
  {
    CheckRangeIsCutLess(r);
    if CheckRange(r) {
      var p := Witness(Lower(r.start), Upper(r.end));
      assert InRange(r, p);
    }
  }
}
