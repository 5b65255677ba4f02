/**
 * Query predicates: the operator a list query carries, the operator it becomes
 * in a Firestore `where` clause, and what each means for a stored field value.
 */
module Predicates {

  import opened Results

  /** How a stored field value compares with the predicate's value. */
  datatype Ordering = Below | Same | Above

  /** Operators of a database query predicate `[key, op, value]`. */
  datatype QueryOp = Equal | Less | LessOrEqual | Greater | GreaterOrEqual

  /** The Firestore `where` operators those map onto. */
  datatype FirestoreOp = EqualEqual | LessThan | LessThanOrEqual | GreaterThan | GreaterThanOrEqual

  /** A query predicate on one recognised field, with a value of type V. */
  datatype Predicate<V> = Predicate(op: QueryOp, value: V)

  function QuerySpelling(op: QueryOp): string {
    match op
    case Equal => "="
    case Less => "<"
    case LessOrEqual => "<="
    case Greater => ">"
    case GreaterOrEqual => ">="
  }

  function FirestoreSpelling(op: FirestoreOp): string {
    match op
    case EqualEqual => "=="
    case LessThan => "<"
    case LessThanOrEqual => "<="
    case GreaterThan => ">"
    case GreaterThanOrEqual => ">="
  }

  /** `mapQueryPredicateToFirestoreOp`: `=` is spelled `==`; every other operator is passed through. */
  function MapQueryPredicateToFirestoreOp(op: QueryOp): (r: FirestoreOp)
    ensures FirestoreSpelling(r) == if QuerySpelling(op) == "=" then "==" else QuerySpelling(op)
  {
    match op
    case Equal => EqualEqual
    case Less => LessThan
    case LessOrEqual => LessThanOrEqual
    case Greater => GreaterThan
    case GreaterOrEqual => GreaterThanOrEqual
  }

  /** What a query predicate promises to select. */
  predicate QueryHolds(op: QueryOp, c: Ordering) {
    match op
    case Equal => c == Same
    case Less => c == Below
    case LessOrEqual => c != Above
    case Greater => c == Above
    case GreaterOrEqual => c != Below
  }

  /** What a Firestore `where` filter selects. */
  predicate FirestoreHolds(op: FirestoreOp, c: Ordering) {
    match op
    case EqualEqual => c == Same
    case LessThan => c == Below
    case LessThanOrEqual => c == Below || c == Same
    case GreaterThan => c == Above
    case GreaterThanOrEqual => c == Above || c == Same
  }

  /** The mapped Firestore filter selects exactly what the query predicate means. */
  lemma MappedOpKeepsMeaning(op: QueryOp, c: Ordering)
    ensures FirestoreHolds(MapQueryPredicateToFirestoreOp(op), c) <==> QueryHolds(op, c)
  {
  }

  /** Only equality (or no predicate) lets the index order by orderedID directly. */
  predicate UsesOrderedIDIndex<V>(pred: Option<Predicate<V>>) {
    pred.None? || QuerySpelling(pred.value.op) == "="
  }

  function CompareInt(a: int, b: int): Ordering {
    if a < b then Below else if a == b then Same else Above
  }

  /** Lexicographic order on strings, character by character. */
  function CompareString(a: string, b: string): Ordering
    decreases |a|
  {
    if |a| == 0 && |b| == 0 then Same
    else if |a| == 0 then Below
    else if |b| == 0 then Above
    else if a[0] < b[0] then Below
    else if a[0] > b[0] then Above
    else CompareString(a[1..], b[1..])
  }
}
