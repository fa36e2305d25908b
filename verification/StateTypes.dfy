/** Values, rows, keys and indices shared by the in-memory and the persistent state. */
module StateTypes {
  datatype DfValue = Null | Int(i: int) | Text(s: string)

  type Row = seq<DfValue>
  type Key = seq<DfValue>
  type Bag = multiset<Row>
  type Tag = nat

  datatype IndexType = HashMap | BTreeMap

  datatype Index = Index(columns: seq<nat>, indexType: IndexType)

  datatype Record = Positive(row: Row) | Negative(row: Row)

  predicate InBounds(columns: seq<nat>, width: nat) {
    forall i :: 0 <= i < |columns| ==> columns[i] < width
  }

  predicate Distinct<T(==)>(s: seq<T>) {
    forall i, j :: 0 <= i < j < |s| ==> s[i] != s[j]
  }

  /** The values of a row at the columns of an index. */
  function KeyOf(columns: seq<nat>, row: Row): Key
    requires InBounds(columns, |row|)
  {
    seq(|columns|, i requires 0 <= i < |columns| => row[columns[i]])
  }

  /** The row has exactly this key at these columns. */
  predicate HasKey(columns: seq<nat>, row: Row, key: Key) {
    InBounds(columns, |row|) && KeyOf(columns, row) == key
  }

  /** `bag` holds exactly the rows of `truth` that have this key, with their multiplicity. */
  ghost predicate ExactlyMatching(bag: Bag, truth: Bag, columns: seq<nat>, key: Key) {
    forall r: Row :: bag[r] == if HasKey(columns, r, key) then truth[r] else 0
  }

  /** A record adds a row to the table or takes one away. */
  function ApplyTruth(truth: Bag, rec: Record): Bag {
    match rec
    case Positive(row) => truth + multiset{row}
    case Negative(row) => truth - multiset{row}
  }

  /** Only rows of the table are taken away. */
  ghost predicate Possible(truth: Bag, rec: Record) {
    rec.Negative? ==> rec.row in truth
  }

  ghost predicate BatchPossible(truth: Bag, records: seq<Record>)
    decreases records
  {
    records != [] ==> Possible(truth, records[0]) && BatchPossible(ApplyTruth(truth, records[0]), records[1..])
  }

  function BatchTruth(truth: Bag, records: seq<Record>): Bag
    decreases records
  {
    if records == [] then truth else BatchTruth(ApplyTruth(truth, records[0]), records[1..])
  }
}
