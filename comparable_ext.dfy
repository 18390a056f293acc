/**
 * The clamping helpers that the `Comparable` extension adds to every ordered
 * type: `limit(min:max:)` bounds a value in place, `limited(min:max:)` and
 * `limited(_:_:)` return the bounded copy. Modelled over `int`.
 */
module ComparableExt {

  /** `Swift.min(x, y)`: `y` when `y < x`, otherwise `x`. */
  function Min(x: int, y: int): (r: int)
    ensures r <= x && r <= y && (r == x || r == y)
  {
    if y < x then y else x
  }

  /** `Swift.max(x, y)`: `y` when `y >= x`, otherwise `x`. */
  function Max(x: int, y: int): (r: int)
    ensures r >= x && r >= y && (r == x || r == y)
  {
    if y >= x then y else x
  }

  /**
   * `value.limited(min: lo, max: hi)`: the value bounded first from above by
   * `hi`, then from below by `lo`. The lower bound is applied last, so it wins
   * when the bounds are inverted.
   */
  function Limited(value: int, lo: int, hi: int): (r: int)
    ensures lo <= hi ==> lo <= r <= hi
    ensures lo <= value <= hi ==> r == value
    ensures value < lo ==> r == lo
    ensures lo <= hi && hi < value ==> r == hi
    ensures hi < lo ==> r == lo
  {
    Max(Min(value, hi), lo)
  }

  /** `value.limited(lo, hi)`: the unlabelled spelling of `Limited`. */
  function LimitedUnlabelled(value: int, lo: int, hi: int): (r: int)
    ensures r == Limited(value, lo, hi)
  {
    Limited(value, lo, hi)
  }

  /**
   * `value.limit(min: lo, max: hi)`, the `mutating` form: the receiver is an
   * in-out value, so the method takes its old value and returns its new one.
   */
  method Limit(value: int, lo: int, hi: int) returns (value': int)
    ensures value' == Limited(value, lo, hi)
    ensures lo <= value <= hi ==> value' == value
  {
    value' := Max(Min(value, hi), lo);
  }

  /** Clamping twice with the same bounds is the same as clamping once. */
  lemma LimitedIdempotent(value: int, lo: int, hi: int)
    ensures Limited(Limited(value, lo, hi), lo, hi) == Limited(value, lo, hi)
  {
  }
}
