/** Rounding of numbers to those a format can represent. */
module Roundings {
  type Rounding = real -> real

  ghost predicate Monotone(round: Rounding) {
    forall x: real, y: real :: x <= y ==> round(x) <= round(y)
  }
}
