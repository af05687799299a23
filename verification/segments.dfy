/** Segmented addressing of the graphics microcode (CHleDmemState): a display-list
    address names one of sixteen segment bases in bits 24..27 and a 24-bit offset
    in bits 0..23; bits 28..31 play no part. */
module Segments {
  import opened Common

  const SEGMENT_COUNT: nat := 16
  const OFFSET_SPAN: int := 0x100_0000   // 2^24: one segment's reach
  const KSEG0_TAG: int := 0x8000_0000    // bit 31: the cached virtual alias of physical memory

  /** The sixteen segment base addresses. */
  type SegmentTable = s: seq<u32> | |s| == SEGMENT_COUNT witness ZeroSegments()

  function ZeroSegments(): seq<u32>
  {
    seq(SEGMENT_COUNT, _ => 0)
  }

  /** Bits 24..27: the segment selector. */
  function SegmentOf(address: u32): (k: nat)
    ensures k < SEGMENT_COUNT
  {
    (address / OFFSET_SPAN) % 16
  }

  /** Bits 0..23: the offset inside the segment. */
  function OffsetOf(address: u32): (o: u32)
    ensures o < OFFSET_SPAN
  {
    address % OFFSET_SPAN
  }

  /** Segment base plus offset, wrapping like the source's `uint32_t` sum. */
  function SegmentedToPhysical(segments: SegmentTable, address: u32): u32
  {
    Wrap32(segments[SegmentOf(address)] + OffsetOf(address))
  }

  /** The physical address tagged with bit 31. */
  function SegmentedToVirtual(segments: SegmentTable, address: u32): (r: u32)
    ensures r >= KSEG0_TAG
    ensures r % KSEG0_TAG == SegmentedToPhysical(segments, address) % KSEG0_TAG
  {
    var p := SegmentedToPhysical(segments, address);
    if p >= KSEG0_TAG then p else p + KSEG0_TAG
  }

  /** Selector and offset are functions of the low 28 bits. */
  lemma FieldsOfLow28(address: u32)
    ensures SegmentOf(address) == (address % 0x1000_0000) / OFFSET_SPAN
    ensures OffsetOf(address) == (address % 0x1000_0000) % OFFSET_SPAN
  {
    var q, l := address / 0x1000_0000, address % 0x1000_0000;
    assert address == q * 0x1000_0000 + l;
    assert address / OFFSET_SPAN == q * 16 + l / OFFSET_SPAN;
    assert address % OFFSET_SPAN == l % OFFSET_SPAN;
  }

  /** The physical address is the segment base plus the low 24 bits, modulo 2^32,
      and it depends on nothing but those: the top nibble of the address and every
      other segment slot are irrelevant. */
  lemma PhysicalAddressFrame(segments: SegmentTable, address: u32, other: u32, k: nat, base: u32)
    requires other % 0x1000_0000 == address % 0x1000_0000
    requires k < SEGMENT_COUNT && k != SegmentOf(address)
    ensures (SegmentedToPhysical(segments, address) - segments[SegmentOf(address)]) % TWO_32
            == address % OFFSET_SPAN
    ensures SegmentedToPhysical(segments, other) == SegmentedToPhysical(segments, address)
    ensures SegmentedToPhysical(segments[k := base], address) == SegmentedToPhysical(segments, address)
  {
    FieldsOfLow28(address);
    FieldsOfLow28(other);
  }
}
