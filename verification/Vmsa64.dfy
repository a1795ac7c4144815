/** VMSAv8-64 stage-1 descriptors for the 4 KB granule (Arm DDI 0487, section D8.3), and the
    hardware walk over a memory of translation tables.

    A 64-bit descriptor word is kept as three parts: its two type bits in `kind`, its address field,
    bits 47:12, as a number in `address`, and all its other bits, in place, in `attributes`.
    `Vmsa64Encoding` shows that the word operations of the program do to the parts what the model does.
  */
module Vmsa64 {
  const SIZE_4KB: nat := 0x1000
  const TT_ENTRY_COUNT: nat := 512

  const TT_TYPE_MASK: bv64 := 0x3
  const TT_TYPE_TABLE_ENTRY: bv2 := 0x3
  const TT_TYPE_BLOCK_ENTRY: bv2 := 0x1
  const TT_TYPE_BLOCK_ENTRY_LEVEL3: bv2 := 0x3

  const TT_ATTR_INDX_MASK: bv64 := 0x1C
  const TT_ATTR_INDX_DEVICE_MEMORY: bv64 := 0x0
  const TT_ATTR_INDX_MEMORY_NON_CACHEABLE: bv64 := 0x4
  const TT_ATTR_INDX_MEMORY_WRITE_THROUGH: bv64 := 0x8
  const TT_ATTR_INDX_MEMORY_WRITE_BACK: bv64 := 0xC
  const TT_NS: bv64 := 0x20
  const TT_AP_MASK: bv64 := 0xC0
  const TT_AP_RW_RW: bv64 := 0x40
  const TT_AP_NO_RO: bv64 := 0x80
  const TT_AP_RO_RO: bv64 := 0xC0
  const TT_SH_INNER_SHAREABLE: bv64 := 0x300
  const TT_AF: bv64 := 0x400
  const TT_PXN_MASK: bv64 := 0x20_0000_0000_0000
  const TT_UXN_MASK: bv64 := 0x40_0000_0000_0000
  const TT_XN_MASK: bv64 := 0x40_0000_0000_0000
  const TT_ATTRIBUTES_MASK: bv64 := 0xFFF0_0000_0000_0FFC
  const TT_ADDRESS_MASK_BLOCK_ENTRY: bv64 := 0xFFFF_FFFF_F000
  const TT_TABLE_AP_NO_PERMISSION: bv64 := 0x0
  const TT_TABLE_NS: bv64 := 0x8000_0000_0000_0000

  /** The architecture's address space bound: 48-bit virtual addresses. */
  const SPACE_48: nat := 0x1_0000_0000_0000

  type Level = l: nat | l <= 3

  datatype Descriptor = Descriptor(kind: bv2, attributes: bv64, address: nat)

  const INVALID := Descriptor(0, 0, 0)

  /** A mask for a descriptor word that clears the address field, in the same parts. */
  datatype Mask = Mask(kind: bv2, attributes: bv64)

  type Memory = map<nat, seq<Descriptor>>

  /** TT_BLOCK_ENTRY_SIZE_AT_LEVEL: bytes covered by one entry. */
  function BlockSize(level: Level): nat {
    if level == 3 then 0x1000
    else if level == 2 then 0x20_0000
    else if level == 1 then 0x4000_0000
    else 0x80_0000_0000
  }

  /** TT_ADDRESS_OFFSET_AT_LEVEL. */
  function AddressOffset(level: Level): nat {
    12 + (3 - level) * 9
  }

  /** Bytes covered by `n` entries; the products are by constants, which keeps proofs linear. */
  function Span(level: Level, n: nat): nat {
    if level == 3 then n * 0x1000
    else if level == 2 then n * 0x20_0000
    else if level == 1 then n * 0x4000_0000
    else n * 0x80_0000_0000
  }

  /** The entry index of `va` in a table of the given level (TT_GET_ENTRY_FOR_ADDRESS). */
  function EntryIndex(level: Level, va: nat): (i: nat)
    ensures i < TT_ENTRY_COUNT
  {
    va / BlockSize(level) % TT_ENTRY_COUNT
  }

  /** Shift the address right and back left by the offset of the level. */
  function BlockStart(level: Level, va: nat): (a: nat)
    ensures a <= va < a + BlockSize(level)
  {
    va / BlockSize(level) * BlockSize(level)
  }

  /** `a & TT_ADDRESS_MASK_BLOCK_ENTRY`, on numbers. */
  function AddressField(a: nat): nat {
    a % SPACE_48 / SIZE_4KB * SIZE_4KB
  }

  predicate IsTableType(d: Descriptor) {
    d.kind == TT_TYPE_TABLE_ENTRY
  }

  predicate IsBlockType(d: Descriptor) {
    d.kind == TT_TYPE_BLOCK_ENTRY
  }

  /** What a virtual address translates to.  The type bits of the leaf depend on its level only and
      are not part of the mapping. */
  datatype Mapping = Unmapped | Mapped(address: nat, attributes: bv64)

  function LeafMapping(d: Descriptor, level: Level, va: nat): Mapping {
    Mapped(d.address + va % BlockSize(level), d.attributes)
  }

  /** The hardware walk from table `t` at `level`.  Reserved encodings and dangling table addresses
      fault, like invalid entries. */
  function WalkFrom(m: Memory, t: nat, level: Level, va: nat): Mapping
    decreases 3 - level
  {
    if t !in m || |m[t]| != TT_ENTRY_COUNT then
      Unmapped
    else
      var d := m[t][EntryIndex(level, va)];
      if level == 3 then
        if IsTableType(d) then LeafMapping(d, 3, va) else Unmapped
      else if IsTableType(d) then
        WalkFrom(m, d.address, level + 1, va)
      else if IsBlockType(d) && level != 0 then
        LeafMapping(d, level, va)
      else
        Unmapped
  }

  /** The root table: its address, its level, and how many of its entries are in use. */
  datatype Geometry = Geometry(root: nat, level: Level, count: nat) {
    ghost predicate Valid() {
      level <= 1 && 0 < count <= TT_ENTRY_COUNT
    }

    function Limit(): nat {
      Span(level, count)
    }
  }

  function Walk(m: Memory, g: Geometry, va: nat): Mapping {
    if va < g.Limit() then WalkFrom(m, g.root, g.level, va) else Unmapped
  }
}
