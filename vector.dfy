/**
 * The integrator's state: a fixed-size vector of reals with componentwise
 * addition, scaling and the norm `abs`, the sum of the absolute values of the
 * components. A scalar state is a vector of length one.
 */
module Vector {

  type Vec = seq<real>

  /** Absolute value of a real. */
  function Abs(x: real): (r: real)
    ensures r >= 0.0
    ensures r == x || r == -x
  {
    if x < 0.0 then -x else x
  }

  /** The norm: sum of the absolute values of the components. It is never
      negative (and NormZero: zero exactly for the zero vector). */
  function Norm(a: Vec): (r: real)
    ensures r >= 0.0
    decreases |a|
  {
    if a == [] then 0.0 else Abs(a[0]) + Norm(a[1..])
  }

  /** The norm is zero exactly for the zero vector. */
  lemma {:induction false} NormZero(a: Vec)
    ensures Norm(a) == 0.0 <==> forall i :: 0 <= i < |a| ==> a[i] == 0.0
    decreases |a|
  {
    if a != [] {
      NormZero(a[1..]);
      assert forall i :: 1 <= i < |a| ==> a[i] == a[1..][i - 1];
    }
  }

  /** One forward Euler step of length `h` along `slope`: `s + slope * h`,
      component by component. */
  function Euler(s: Vec, slope: Vec, h: real): (r: Vec)
    requires |s| == |slope|
    ensures |r| == |s|
    decreases |s|
  {
    if s == [] then [] else [s[0] + slope[0] * h] + Euler(s[1..], slope[1..], h)
  }

  /** Component `i` of an Euler step. */
  lemma {:induction false} EulerAt(s: Vec, slope: Vec, h: real, i: int)
    requires |s| == |slope| && 0 <= i < |s|
    ensures Euler(s, slope, h)[i] == s[i] + slope[i] * h
    decreases |s|
  {
    if i > 0 {
      EulerAt(s[1..], slope[1..], h, i - 1);
    }
  }

  /** A step of length zero stays put. */
  lemma {:induction false} EulerZero(s: Vec, slope: Vec)
    requires |s| == |slope|
    ensures Euler(s, slope, 0.0) == s
    decreases |s|
  {
    if s != [] {
      EulerZero(s[1..], slope[1..]);
    }
  }
}
