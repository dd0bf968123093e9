/** The request-body constraints that pydantic's `Field(...)` declarations
    impose. FastAPI checks them before a handler runs, so a handler only ever
    sees a body that satisfies every one of them. */
module Validation {

  import opened Http

  /** `Field(min_length=.., max_length=..)` on a `str`. */
  datatype LengthRule = LengthRule(minLength: nat, maxLength: Option<nat>)

  /** `Field(gt=.., lt=..)` on an `int`: both bounds are exclusive. */
  datatype RangeRule = RangeRule(gt: int, lt: int)

  predicate FitsLength(s: string, rule: LengthRule)
  {
    rule.minLength <= |s| && (rule.maxLength.Some? ==> |s| <= rule.maxLength.value)
  }

  predicate FitsRange(x: int, rule: RangeRule)
  {
    rule.gt < x < rule.lt
  }

  /** `Field(gt=0, lt=6)`, shared by a book's rating and a todo's priority. */
  const OneToFive := RangeRule(0, 6)
}
