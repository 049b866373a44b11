/**
  An optional value, used where the source signals "nothing" with a sentinel, and the
  integer Min and Max.
 */
module Wrappers {

  datatype Option<+T> = None | Some(value: T)

  function Min(a: int, b: int): int { if a <= b then a else b }

  function Max(a: int, b: int): int { if a <= b then b else a }
}
