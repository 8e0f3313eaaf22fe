/**
 * The block header layout shared by the allocators, and the request
 * rounding they all apply.
 */
module Layout {
  /** `sizeof(header_t)`: three 8-byte words (a size, a flag, a pointer) padded
      to the 16-byte alignment of the header union. */
  const HEADER_SIZE: nat := 32

  /** `(size + HEADER_SIZE + 15) & ~15`: the request plus its header, rounded
      up to a multiple of 16. */
  function RoundRequest(size: nat): (total: nat)
    ensures total % 16 == 0
    ensures size + HEADER_SIZE <= total < size + HEADER_SIZE + 16
  {
    (size + HEADER_SIZE + 15) / 16 * 16
  }

  /** A request that is already a multiple of 16 only gains its header. */
  lemma RoundAligned(size: nat)
    requires size % 16 == 0
    ensures RoundRequest(size) == size + HEADER_SIZE
  {
    var t := RoundRequest(size);
    assert t == t / 16 * 16 && size == size / 16 * 16;
  }
}
