/** Geometry of the simulated machine (src/constants.rs). */
module Constants {

  /** `1 << n`: the source builds its bounds from bit widths. */
  function Pow2(n: nat): (r: nat)
    ensures r >= 1
  {
    if n == 0 then 1 else 2 * Pow2(n - 1)
  }

  const SEGMENT_SIZE_BITS: nat := 9
  const PAGE_SIZE_BITS: nat := 9
  const FRAME_SIZE_BITS: nat := 9

  const PAGE_SIZE: nat := 512
  const PAGE_COUNT: nat := 1024
  const SEGMENT_WORD_COUNT: nat := 2
  const SEGMENT_SIZE_OFFSET: nat := 0
  const SEGMENT_PAGE_TABLE_OFFSET: nat := 1

  const MAX_SEGMENT_OFFSET: int := Pow2(SEGMENT_SIZE_BITS) - 1
  const MAX_SEGMENT_SIZE: int := PAGE_SIZE * PAGE_COUNT - Pow2(SEGMENT_SIZE_BITS) * SEGMENT_WORD_COUNT
  const MIN_POSITIVE_PAGE_OFFSET: int := (Pow2(SEGMENT_SIZE_BITS) * SEGMENT_WORD_COUNT) / PAGE_SIZE
  const MAX_PAGE_OFFSET: int := PAGE_COUNT as int - 1

  /** Number of words of the flat physical memory and of the disk. */
  const MEMORY_WORDS: nat := PAGE_SIZE * PAGE_COUNT

  /** The derived bounds have the values the rest of the system relies on. */
  lemma DerivedValues()
    ensures PAGE_SIZE == Pow2(PAGE_SIZE_BITS)
    ensures MAX_SEGMENT_OFFSET == 511
    ensures MAX_SEGMENT_SIZE == 523264
    ensures MIN_POSITIVE_PAGE_OFFSET == 2
    ensures MAX_PAGE_OFFSET == 1023
    ensures MEMORY_WORDS == 524288
  {
  }

  /**
   * The size slot and the page-table slot of a segment are two distinct
   * offsets below SEGMENT_WORD_COUNT, so the slots `2s + a` of different
   * segments never collide.
   */
  lemma SegmentSlotsDisjoint(s: nat, a: nat, t: nat, b: nat)
    requires a in {SEGMENT_SIZE_OFFSET, SEGMENT_PAGE_TABLE_OFFSET}
    requires b in {SEGMENT_SIZE_OFFSET, SEGMENT_PAGE_TABLE_OFFSET}
    requires s * SEGMENT_WORD_COUNT + a == t * SEGMENT_WORD_COUNT + b
    ensures s == t && a == b
    ensures SEGMENT_SIZE_OFFSET != SEGMENT_PAGE_TABLE_OFFSET
    ensures SEGMENT_SIZE_OFFSET < SEGMENT_WORD_COUNT && SEGMENT_PAGE_TABLE_OFFSET < SEGMENT_WORD_COUNT
  {
  }

  /**
   * The whole segment table (every segment up to MAX_SEGMENT_OFFSET, two
   * words each) lies in the first MIN_POSITIVE_PAGE_OFFSET frames, and that
   * number of reserved frames is SEGMENT_WORD_COUNT, the number of frames
   * the free-frame scan skips.
   */
  lemma SegmentTableInReservedFrames(s: nat)
    requires s <= MAX_SEGMENT_OFFSET
    ensures s * SEGMENT_WORD_COUNT + SEGMENT_PAGE_TABLE_OFFSET < MIN_POSITIVE_PAGE_OFFSET * PAGE_SIZE
    ensures (MAX_SEGMENT_OFFSET + 1) * SEGMENT_WORD_COUNT == MIN_POSITIVE_PAGE_OFFSET * PAGE_SIZE
    ensures MIN_POSITIVE_PAGE_OFFSET == SEGMENT_WORD_COUNT
  {
    DerivedValues();
  }
}
