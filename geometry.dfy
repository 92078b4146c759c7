/**
 * Distance and clamping helpers shared by the managers. The source compares
 * Euclidean distances `sqrt(dx^2 + dy^2) < R`; for a non-negative range R this
 * is the same test as `dx^2 + dy^2 < R^2`, which is what the model computes.
 */
module Geometry {
  import opened Config

  /** Squared Euclidean distance between two points. */
  function Dist2(x1: real, y1: real, x2: real, y2: real): (d: real)
    ensures d >= 0.0
  {
    (x1 - x2) * (x1 - x2) + (y1 - y2) * (y1 - y2)
  }

  /** `distance(a, b) < range`, stated on squares. */
  predicate Within(x1: real, y1: real, x2: real, y2: real, range: real) {
    Dist2(x1, y1, x2, y2) < range * range
  }

  function Min(a: real, b: real): (r: real)
    ensures r <= a && r <= b && (r == a || r == b)
  {
    if a <= b then a else b
  }

  function Max(a: real, b: real): (r: real)
    ensures r >= a && r >= b && (r == a || r == b)
  {
    if a >= b then a else b
  }

  /** `Math.max(lo, Math.min(hi, v))`. */
  function Clamp(lo: real, hi: real, v: real): (r: real)
    ensures lo <= hi ==> lo <= r <= hi
    ensures lo <= v <= hi ==> r == v
    ensures v < lo ==> r == lo
    ensures lo <= hi < v ==> r == hi
  {
    Max(lo, Min(hi, v))
  }
}
