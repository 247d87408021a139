/** The C integers that the code's results depend on. */
module CTypes {

  const SIZE_T_SIZE: nat := 0x1_0000_0000_0000_0000
  const UINT32_SIZE: nat := 0x1_0000_0000

  type Byte = b: nat | b < 256
  type Limb = x: nat | x < 0x1_0000_0000

  /** A count kept in a 32-bit unsigned. */
  function Uint32(n: nat): (r: nat)
    ensures r <= n && r < UINT32_SIZE && (r == n <==> n < UINT32_SIZE)
  {
    n % 0x1_0000_0000
  }

  /** The count is the low 32 bits. */
  lemma Uint32IsLow(n: nat)
    ensures UINT32_SIZE == 0x1_0000_0000
    ensures 0 <= Uint32(n) < 0x1_0000_0000 && (n - Uint32(n)) % 0x1_0000_0000 == 0
  {
  }

  /** A `size_t` of the caller's, read and written through a pointer. */
  class SizeRef {
    var value: nat

    constructor (n: nat)
      ensures value == n
    {
      value := n;
    }
  }
}
