/** The fixed-width C integer types the virtual machine uses, as bounded integers. */
module Words {
  const U32_RANGE := 0x1_0000_0000

  type uint8 = n: int | 0 <= n < 0x100
  type uint16 = n: int | 0 <= n < 0x1_0000
  type uint32 = n: int | 0 <= n < 0x1_0000_0000
  type uint64 = n: int | 0 <= n < 0x1_0000_0000_0000_0000

  /** Conversion to `unsigned int`: reduction modulo 2^32, spelled out for values already in range. */
  function Wrap32(n: nat): uint32 {
    if n < 0x1_0000_0000 then n else n % 0x1_0000_0000
  }

  lemma WrapIsRemainder(n: nat)
    ensures Wrap32(n) == n % 0x1_0000_0000
  {
  }

  lemma WrapTwice(a: nat, b: nat)
    ensures Wrap32(Wrap32(a) + b) == Wrap32(a + b)
  {
  }
}
