/**
 * The control-byte vocabulary of the hash table: one metadata byte per slot.
 * `Empty`, `Deleted` and `Sentinel` are fixed byte values; a full slot holds
 * a 7-bit fingerprint, so its top bit is clear.
 */
module Ctrl {

  /** A slot never occupied since the last clear or rehash. */
  const Empty: bv8 := 0x80
  /** A tombstone left by erase. */
  const Deleted: bv8 := 0xFE
  /** The byte after the last real group that bounds a scan. */
  const Sentinel: bv8 := 0xFF

  /** A full slot in the sense of `EveBackend::matchFull`: none of the three markers. */
  predicate IsFull(b: bv8)
  {
    b != Empty && b != Deleted && b != Sentinel
  }

  /** A full slot in the sense of `SseBackend::matchFull`: the top bit is clear. */
  predicate TopBitClear(b: bv8)
  {
    b & 0x80 == 0
  }

  /** The bytes the table ever writes: a fingerprint below 0x80 or one of the markers. */
  predicate IsControl(b: bv8)
  {
    b < 0x80 || b == Empty || b == Deleted || b == Sentinel
  }

  /** On the bytes the table writes, the two notions of "full" coincide. */
  lemma FullRulesAgree(b: bv8)
    requires IsControl(b)
    ensures IsFull(b) <==> TopBitClear(b)
  {
  }

  /** Every marker has its top bit set, whatever else the byte holds. */
  lemma TopBitClearIsFull(b: bv8)
    requires TopBitClear(b)
    ensures IsFull(b)
  {
  }
}
