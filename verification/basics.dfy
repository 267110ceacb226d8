/** Small helper datatypes shared by the rest of the model. */
module Basics {

  /** A value that may be absent: JavaScript's `undefined` slot, or "no cell selected". */
  datatype Option<+T> = None | Some(value: T)

  /** True iff no element of `s` occurs twice. */
  predicate NoDup<T(==)>(s: seq<T>)
  {
    forall i, j | 0 <= i < j < |s| :: s[i] != s[j]
  }
}
