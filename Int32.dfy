/** The range of Rust's `i32`, which is the type of every evaluation in the program. */
module Int32 {
  import opened Wrappers

  const MIN: int := -0x8000_0000
  const MAX: int := 0x7fff_ffff

  predicate InRange(x: int) {
    MIN <= x <= MAX
  }

  /**
   * Unary minus on `i32` as a debug build performs it: the result when it is
   * representable, `None` where Rust reports "attempt to negate with overflow".
   */
  function Negate(x: int): (r: Option<int>)
    requires InRange(x)
    ensures r.Some? <==> x != MIN
    ensures r.Some? ==> InRange(r.value) && r.value + x == 0
  {
    if InRange(-x) then Some(-x) else None
  }
}
