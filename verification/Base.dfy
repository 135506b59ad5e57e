/** Machine integers, byte strings and the failure-compatible wrappers shared by every module. */
module Base {
  const TWO_TO_64: int := 0x1_0000_0000_0000_0000

  type byte = b: int | 0 <= b < 256
  type uint64 = n: int | 0 <= n < TWO_TO_64

  datatype Option<+T> = None | Some(value: T)

  /** `smath.Add64`: None stands for the overflow error. */
  function Add64(a: uint64, b: uint64): (r: Option<uint64>)
    ensures r.Some? <==> a + b < TWO_TO_64
    ensures r.Some? ==> r.value - b == a
  {
    if a + b < TWO_TO_64 then Some(a + b) else None
  }

  /** `smath.Sub`: None stands for the underflow error. */
  function Sub64(a: uint64, b: uint64): (r: Option<uint64>)
    ensures r.Some? <==> b <= a
    ensures r.Some? ==> r.value + b == a
  {
    if b <= a then Some(a - b) else None
  }

  lemma ProductOrder(a: int, b: int, n: nat)
    requires a * n < b * n
    ensures a < b
  {
    assert (b - a) * n > 0;
  }
}
