/** Runs of a state machine, whatever its states and operations are. */
module Traces {
  /** `ops` lead from `s` to `s'`. */
  ghost predicate Reaches<S(!new), O(!new)>(next: (S, O, S) -> bool, s: S, ops: seq<O>, s': S)
    decreases ops
  {
    if ops == [] then s' == s
    else exists mid :: next(s, ops[0], mid) && Reaches(next, mid, ops[1..], s')
  }

  lemma ReachesCons<S(!new), O(!new)>(next: (S, O, S) -> bool, s: S, op: O, mid: S, ops: seq<O>, s': S)
    requires next(s, op, mid) && Reaches(next, mid, ops, s')
    ensures Reaches(next, s, [op] + ops, s')
  {
    assert ([op] + ops)[1..] == ops;
  }

  lemma {:induction false} ReachesSnoc<S(!new), O(!new)>(next: (S, O, S) -> bool, s: S, ops: seq<O>, mid: S, op: O,
                                         s': S)
    requires Reaches(next, s, ops, mid) && next(mid, op, s')
    ensures Reaches(next, s, ops + [op], s')
    decreases ops
  {
    assert [op][1..] == [];
    if ops == [] {
      assert ops + [op] == [op];
      assert Reaches(next, s', [], s');
      assert Reaches(next, s, [op], s');
    } else {
      var first :| next(s, ops[0], first) && Reaches(next, first, ops[1..], mid);
      ReachesSnoc(next, first, ops[1..], mid, op, s');
      assert (ops + [op])[0] == ops[0] && (ops + [op])[1..] == ops[1..] + [op];
    }
  }
}
