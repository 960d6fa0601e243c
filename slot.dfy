/**
 * Slot resolution: the key's 64-bit hash gets its top bit forced on, and the
 * slot is that tagged hash modulo the number of entries. There is no probing.
 */
module Slot {

  /** The top bit of a 64-bit word. */
  const OccupiedBit: bv64 := 0x8000_0000_0000_0000

  /** The low 63 bits of a 64-bit word. */
  const LowMask: bv64 := 0x7FFF_FFFF_FFFF_FFFF

  /**
   * The tagged hash: the key's hash with the top bit ORed in. It is never 0
   * and keeps the low 63 bits of the key's hash.
   */
  function Tag(keyHash: bv64): (t: bv64)
    ensures t & OccupiedBit == OccupiedBit
    ensures t != 0
    ensures t & LowMask == keyHash & LowMask
  {
    OccupiedBit | keyHash
  }

  /**
   * `get_slot_and_hash`, given the key's hash and the array length: returns
   * the pair (slot, tagged hash). The computation uses unsigned 64-bit
   * operations; since both operands are non-negative and below 2^64, the
   * integer `%` below is the `u64` remainder. A length of 0 would be a division
   * by zero, so the caller must supply at least one entry.
   */
  function Locate(keyHash: bv64, len: nat): (r: (nat, bv64))
    requires 0 < len
    ensures r.1 == Tag(keyHash)
    ensures r.0 < len
    ensures r.0 == (r.1 as int) % len
  {
    var tagged := Tag(keyHash);
    ((tagged as int) % len, tagged)
  }

  /** Two key hashes get the same tagged hash exactly when their low 63 bits agree. */
  lemma SameFragmentSameTag(h1: bv64, h2: bv64)
    ensures h1 & LowMask == h2 & LowMask ==> Tag(h1) == Tag(h2)
    ensures Tag(h1) == Tag(h2) ==> h1 & LowMask == h2 & LowMask
  {
  }

  /**
   * Key hashes that agree in their low 63 bits are indistinguishable to the
   * table: they get the same slot and the same tagged hash, whatever the length.
   */
  lemma SameFragmentSameLocation(h1: bv64, h2: bv64, len: nat)
    requires 0 < len
    requires h1 & LowMask == h2 & LowMask
    ensures Locate(h1, len) == Locate(h2, len)
  {
    SameFragmentSameTag(h1, h2);
  }

}
