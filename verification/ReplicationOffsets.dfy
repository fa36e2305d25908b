/** Positions in a replication log. Positions of different logs are not comparable. */
module ReplicationOffsets {
  import opened Options

  datatype ReplicationOffset = ReplicationOffset(log: string, pos: nat)

  predicate OffsetLeq(a: ReplicationOffset, b: ReplicationOffset) {
    a.log == b.log && a.pos <= b.pos
  }

  /** `a < b` of two optional offsets: no offset is before every offset. */
  predicate Behind(a: Option<ReplicationOffset>, b: Option<ReplicationOffset>) {
    match (a, b)
    case (None, Some(_)) => true
    case (Some(x), Some(y)) => x.log == y.log && x.pos < y.pos
    case (_, None) => false
  }

  /** A batch that was already processed. */
  predicate Dropped(current: Option<ReplicationOffset>, incoming: Option<ReplicationOffset>) {
    current.Some? && incoming.Some? && OffsetLeq(incoming.value, current.value)
  }
}
