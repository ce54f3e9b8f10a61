/** The criterion a filter widget sends to the data sheet (`FilterCriteria`:
    an operator name and a value that is a string, a list of strings or null),
    and the two tests the data sheet applies to it. */
module Criteria {

  datatype CriterionValue = NoValue | Single(text: string) | Many(items: seq<string>)

  datatype Criterion = Criterion(kind: string, value: CriterionValue)

  /** The operators that take no operand. */
  predicate IsNullaryKind(kind: string) {
    kind == "empty" || kind == "not empty"
  }

  /** A value is present when it is not null and has positive length
      (the list's length for a list, the string's length otherwise). */
  predicate HasValue(v: CriterionValue) {
    match v
    case NoValue => false
    case Single(t) => |t| > 0
    case Many(xs) => |xs| > 0
  }

  /** Whether a stored criterion takes part in filtering. */
  predicate IsActive(c: Criterion) {
    HasValue(c.value) || IsNullaryKind(c.kind)
  }

  /** Whether `handleFilterChange` treats the criterion as a removal of the column's filter. */
  predicate IsCleared(c: Criterion) {
    c.value == NoValue && !IsNullaryKind(c.kind)
  }

  /** A removal is never active; a criterion that is neither is one whose operand is
      an empty string or an empty list under an operator that needs one. */
  lemma ClearedAndActive(c: Criterion)
    ensures IsCleared(c) ==> !IsActive(c)
    ensures !IsCleared(c) && !IsActive(c) <==>
      !IsNullaryKind(c.kind) && (c.value == Single("") || c.value == Many([]))
  {
  }
}
