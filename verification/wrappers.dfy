/** The optional value the evaluator returns: `None` when a candidate
    expression is rejected, `Some(v)` when it evaluates to `v`. */
module Wrappers {

  datatype Option<+T> = None | Some(value: T)
}
