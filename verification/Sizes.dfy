/** Sizes that several parts agree on. */
module Sizes {
  /** One more than the largest word of 64 bits. */
  const WORD: nat := 0x1_0000_0000_0000_0000

  /** The largest `int`, and so the length of the longest slice. */
  const MAX_INT: int := 0x7fff_ffff_ffff_ffff

  /** What an indexed value may take before it is escaped, its type included. */
  const MAX_INDEX_VALUE: int := 4096
}
