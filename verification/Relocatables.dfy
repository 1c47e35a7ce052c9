/** Addresses and memory values (src/relocatable.h, src/relocatable.c, felt_equal of src/utils.c). */
module Relocatables {
  import opened Words

  /** A field element is four limbs; two are compared limb by limb. */
  type Felt = limbs: seq<uint64> | |limbs| == 4 witness [0, 0, 0, 0]

  datatype Relocatable = Relocatable(segmentIndex: uint32, offset: uint32)

  datatype MaybeRelocatable = FeltValue(felt: Felt) | Pointer(address: Relocatable)

  function FeltEqual(a: Felt, b: Felt): (equal: bool)
    ensures equal <==> a == b
  {
    a[0] == b[0] && a[1] == b[1] && a[2] == b[2] && a[3] == b[3]
  }

  /** The equality on which the write-once guard rests is equality of values. */
  function MaybeRelocatableEqual(a: MaybeRelocatable, b: MaybeRelocatable): (equal: bool)
    ensures equal <==> a == b
  {
    if a.FeltValue? && b.FeltValue? then FeltEqual(a.felt, b.felt)
    else if a.Pointer? && b.Pointer? then
      a.address.segmentIndex == b.address.segmentIndex && a.address.offset == b.address.offset
    else false
  }

  /** The table's key comparison: zero for equal keys, like the library's comparators, and one for others. */
  function KeyCompare(a: Relocatable, b: Relocatable): (order: int)
    ensures order == 0 <==> a == b
    ensures order == 1 <==> a != b
  {
    if a.segmentIndex == b.segmentIndex && a.offset == b.offset then 0 else 1
  }
}
