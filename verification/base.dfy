/** Small shared vocabulary: an optional value, and JavaScript's `||` on
    string-valued fields, where `undefined`, `null` and `""` are all falsy.
    Throughout the model an absent string field is represented by `""`. */
module Base {

  datatype Option<+T> = None | Some(value: T)

  /** A string field is truthy in JavaScript exactly when it is non-empty. */
  predicate Truthy(s: string) {
    s != ""
  }

  /** `a || b` on two string fields. */
  function Or(a: string, b: string): string {
    if Truthy(a) then a else b
  }
}
