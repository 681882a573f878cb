/** Scalar helpers. */
module Numeric {

  /** A rate that only ever slows things down. */
  type NonNegReal = r: real | 0.0 <= r

  function Abs(v: real): real {
    if v < 0.0 then -v else v
  }

  /** `v` lies between `a` and `b`, in whichever order they come. */
  predicate Between(v: real, a: real, b: real) {
    (a <= v <= b) || (b <= v <= a)
  }

  /** The game's `approach`: moves `current` toward `target` by at most `step`
      and never past it. The helper module that defines `approach` is not part
      of this model; this is the behaviour its call sites rely on. */
  function Approach(current: real, target: real, step: real): (r: real)
    requires step >= 0.0
    ensures Between(r, current, target)
    ensures Abs(r - current) <= step
    ensures r == target <==> Abs(target - current) <= step
    ensures r != target ==> Abs(r - current) == step
  {
    if current < target then
      (if current + step < target then current + step else target)
    else
      (if current - step > target then current - step else target)
  }
}
