/** The Option datatype used for results that Python signals by an exception or None. */
module Wrappers {

  datatype Option<+T> = None | Some(value: T)

  function Min(a: int, b: int): int { if a <= b then a else b }
}
