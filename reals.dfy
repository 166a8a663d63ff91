/** Absolute value and maximum on the reals that stand for Python floats,
    and the nested lists (or two-dimensional arrays) of them. */
module Reals {

  type Matrix = seq<seq<real>>

  function Abs(x: real): (r: real)
    ensures r >= 0.0 && (r == x || r == -x)
  {
    if x < 0.0 then -x else x
  }

  function Max(x: real, y: real): (r: real)
    ensures r >= x && r >= y && (r == x || r == y)
  {
    if x < y then y else x
  }
}
