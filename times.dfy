/** Logical times, shared by the fixed-width and the sparse vector clocks. */
module Times {
  /** `std::max` on two times. */
  function Max(a: nat, b: nat): (m: nat)
    ensures m >= a && m >= b && (m == a || m == b)
  {
    if a < b then b else a
  }
}
