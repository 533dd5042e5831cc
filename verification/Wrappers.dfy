/** What several modules share. */
module Wrappers {
  /** The usual optional value; `None` also stands for a C++ read that throws. */
  datatype Option<+T> = None | Some(value: T)

  /** `std::find_if`: the first position of `x`, or the length. */
  function Position(xs: seq<nat>, x: nat): (i: nat)
    ensures i <= |xs| && (i < |xs| ==> xs[i] == x)
    ensures x !in xs[..i] && (i == |xs| <==> x !in xs)
  {
    if xs == [] || xs[0] == x then 0 else 1 + Position(xs[1..], x)
  }
}
