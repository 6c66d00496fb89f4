/** Distances as the source's double holds them: a finite value, or
    positive infinity for "no path yet". */
module Distances {

  datatype Dist = Finite(value: real) | Infinite

  /** a < b, with infinity above every finite value. */
  predicate Below(a: Dist, b: Dist) {
    a.Finite? && (b.Infinite? || a.value < b.value)
  }

  /** a <= b, with infinity above every finite value. */
  predicate NotAbove(a: Dist, b: Dist) {
    b.Infinite? || (a.Finite? && a.value <= b.value)
  }

  /** d + w; infinity stays infinity. */
  function Plus(d: Dist, w: real): (r: Dist)
    ensures r.Finite? <==> d.Finite?
  {
    if d.Finite? then Finite(d.value + w) else Infinite
  }

  /** a + b; infinity plus anything is infinity (no value is negative
      infinity). */
  function Add(a: Dist, b: Dist): (r: Dist)
    ensures r.Finite? <==> a.Finite? && b.Finite?
  {
    if a.Finite? && b.Finite? then Finite(a.value + b.value) else Infinite
  }

  /** A finite value below zero. */
  predicate Negative(d: Dist) {
    d.Finite? && d.value < 0.0
  }
}
