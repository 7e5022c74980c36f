/**
 The fixed-width integer operations the converter relies on: `u32`
 multiplication and addition (which panic on overflow in a debug build) and
 the saturating `f64 as u32` cast. A panic is modelled as `None`.
 */
module MachineInts {

  datatype Option<+T> = None | Some(value: T)

  const U32_LIMIT: nat := 0x1_0000_0000
  const U32_MAX: nat := 0xFFFF_FFFF

  predicate IsU32(x: int) {
    0 <= x < U32_LIMIT
  }

  /** `a * b` on `u32`: `None` when the product does not fit. */
  function CheckedMulU32(a: nat, b: nat): (r: Option<nat>)
    requires IsU32(a) && IsU32(b)
    ensures r.Some? <==> a * b < U32_LIMIT
    ensures r.Some? ==> r.value == a * b
  {
    if a * b < U32_LIMIT then Some(a * b) else None
  }

  /** `a + b` on `u32`: `None` when the sum does not fit. */
  function CheckedAddU32(a: nat, b: nat): (r: Option<nat>)
    requires IsU32(a) && IsU32(b)
    ensures r.Some? <==> a + b <= U32_MAX
    ensures r.Some? ==> r.value == a + b
  {
    if a + b < U32_LIMIT then Some(a + b) else None
  }

  /** `x as u32` for a value already rounded to an integer: Rust's float-to-int
      cast saturates, sending negatives to 0 and large values to `u32::MAX`. */
  function SaturatingU32(x: int): (r: nat)
    ensures IsU32(r)
    ensures IsU32(x) ==> r == x
    ensures x < 0 ==> r == 0
    ensures x > U32_MAX ==> r == U32_MAX
  {
    if x < 0 then 0 else if x > U32_MAX then U32_MAX else x
  }
}
