/**
 * Search costs: a natural number or the "infinity" sentinel that the heuristic
 * and the IDA* probe return (`float('inf')` in the source).
 */
module Costs {

  datatype Cost = Fin(n: nat) | Inf

  /** `a < b` on costs, with infinity above every number and not below itself. */
  predicate Less(a: Cost, b: Cost) {
    match (a, b)
    case (Fin(x), Fin(y)) => x < y
    case (Fin(_), Inf) => true
    case (Inf, _) => false
  }

  /** `c > t` for a numeric threshold `t`. */
  predicate Exceeds(c: Cost, t: nat) {
    Less(Fin(t), c)
  }

  /** `g + h`, where a number plus infinity is infinity. */
  function Plus(g: nat, h: Cost): Cost {
    match h
    case Fin(x) => Fin(g + x)
    case Inf => Inf
  }
}
