/** Go's 64-bit integers.  Every operation on them carries an obligation that it does not wrap. */
module MachineInts {
  newtype int64 = x: int | -0x8000_0000_0000_0000 <= x <= 0x7fff_ffff_ffff_ffff
  newtype uint64 = x: int | 0 <= x <= 0xffff_ffff_ffff_ffff

  const MAX_INT64: int := 0x7fff_ffff_ffff_ffff
  const MIN_INT64: int := -0x8000_0000_0000_0000

  predicate FitsInt64(x: int) {
    MIN_INT64 <= x <= MAX_INT64
  }
}
