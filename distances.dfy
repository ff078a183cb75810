/** Values shared by both shortest-path implementations: optional values and
    tentative distances that may be infinite. */
module Distances {

  /** `null` in the browser code, `None` in the server code. */
  datatype Option<+T> = None | Some(value: T)

  /** A tentative distance: a finite integer, or JavaScript's `Infinity` /
      Python's `float('infinity')`. */
  datatype Dist = Fin(n: int) | Inf

  /** The numeric `<` of both languages on such values: `Infinity < Infinity`
      is false and every finite number is below infinity. */
  predicate Less(a: Dist, b: Dist)
  {
    match a
    case Inf => false
    case Fin(x) => (match b case Inf => true case Fin(y) => x < y)
  }

  /** `a <= b`, i.e. not `b < a`. */
  predicate Le(a: Dist, b: Dist)
  {
    !Less(b, a)
  }

  /** `dist + weight`: adding a finite weight to infinity stays infinite. */
  function Plus(a: Dist, w: int): Dist
  {
    match a
    case Inf => Inf
    case Fin(x) => Fin(x + w)
  }
}
