/** What updating a region means for the flat map from addresses to mappings, and why each step of the
    page-table editor achieves it. */
module RegionMapping {
  import opened Arithmetic
  import opened Vmsa64
  import opened TranslationTree

  const MIN_T0SZ: nat := 16
  const BITS_PER_LEVEL: nat := 9

  datatype Status = Success | InvalidParameter | OutOfResources | Unsupported

  /** A position in the tree: an entry, the last entry of its table, and the size of its block. */
  datatype Cursor = NoEntry | Entry(table: nat, index: nat, last: nat, level: Level, size: nat)

  function RootLevel(t0sz: nat): nat
    requires t0sz >= MIN_T0SZ
  {
    (t0sz - MIN_T0SZ) / BITS_PER_LEVEL
  }

  function RootEntryCount(t0sz: nat): nat
    requires t0sz >= MIN_T0SZ
  {
    Pow2(BITS_PER_LEVEL - (t0sz - MIN_T0SZ) % BITS_PER_LEVEL)
  }

  predicate SupportedT0SZ(t0sz: nat) {
    MIN_T0SZ <= t0sz <= 33
  }

  function RootGeometry(rootTable: nat, t0sz: nat): (g: Geometry)
    requires SupportedT0SZ(t0sz)
  {
    Geometry(rootTable, RootLevel(t0sz), RootEntryCount(t0sz))
  }

  lemma RootGeometryValid(rootTable: nat, t0sz: nat)
    requires SupportedT0SZ(t0sz)
    ensures RootGeometry(rootTable, t0sz).Valid()
  {
    var k := BITS_PER_LEVEL - (t0sz - MIN_T0SZ) % BITS_PER_LEVEL;
    Pow2Grows(k, 9);
    Pow2Values();
  }

  /** The root table spans exactly the address space that T0SZ selects. */
  lemma RootTableSpansAddressSpace(rootTable: nat, t0sz: nat)
    requires SupportedT0SZ(t0sz)
    ensures RootGeometry(rootTable, t0sz).Limit() == Pow2(64 - t0sz)
    ensures RootGeometry(rootTable, t0sz).Limit() <= SPACE_48
  {
    var k := BITS_PER_LEVEL - (t0sz - MIN_T0SZ) % BITS_PER_LEVEL;
    Pow2Values();
    Pow2Adds(k, if RootLevel(t0sz) == 0 then 39 else 30);
    Pow2Grows(64 - t0sz, 48);
  }

  /** The mapping of one address after its entry is masked and or-ed. */
  function UpdatedMapping(before: Mapping, va: nat, attributes: bv64, mask: Mask): Mapping {
    Mapped(va, (if before.Mapped? then before.attributes & mask.attributes else 0) | attributes)
  }

  /** Exactly the addresses in [lo, hi) are remapped. */
  ghost predicate RegionUpdated(
    m: Memory, m': Memory, g: Geometry, lo: nat, hi: nat, attributes: bv64, mask: Mask)
  {
    forall va: nat :: Walk(m', g, va) ==
      if lo <= va < hi then UpdatedMapping(Walk(m, g, va), va, attributes, mask) else Walk(m, g, va)
  }

  ghost predicate SameWalk(m: Memory, m': Memory, g: Geometry) {
    forall va: nat :: Walk(m', g, va) == Walk(m, g, va)
  }

  lemma UpdatedAttributesOk(before: bv64, attributes: bv64, mask: bv64)
    requires AttributesOk(before) && AttributesOk(attributes)
    ensures AttributesOk((before & mask) | attributes)
    ensures (0 & mask) | attributes == attributes
  {
  }

  lemma SplitAttributes(attributes: bv64)
    requires AttributesOk(attributes)
    ensures attributes & TT_ATTRIBUTES_MASK == attributes
  {
  }

  lemma AddressFieldExact(a: nat)
    requires a % SIZE_4KB == 0 && a < SPACE_48
    ensures AddressField(a) == a
  {
  }

  /** 512 blocks that together cover the block at `base`. */
  function SubBlocks(kind: bv2, attributes: bv64, base: nat, level: Level): (words: seq<Descriptor>)
    ensures |words| == TT_ENTRY_COUNT
  {
    seq(TT_ENTRY_COUNT, (i: nat) => Descriptor(kind, attributes, base + Span(level, i)))
  }

  /** The entry a walk to `va` uses in a table of the tree. */
  lemma EntryAt(m: Memory, g: Geometry, places: Places, t: nat, level: Level, va: nat)
    requires WellFormed(m, g, places) && t in places && places[t].level == level
    requires Covers(g, places, t, va)
    ensures t in m && |m[t]| == TT_ENTRY_COUNT
    ensures EntryIndex(level, va) < EntryCount(g, t)
    ensures EntryOk(g, places, t, EntryIndex(level, va), m[t][EntryIndex(level, va)])
    ensures InEntry(places, t, EntryIndex(level, va), va)
    ensures t == g.root <==> level == g.level
    ensures BlockStart(level, va) == EntryBase(places[t], EntryIndex(level, va))
  {
    assert PlaceOk(m, g, places, t);
    IndexInTable(level, places[t].base, EntryCount(g, t), va);
    assert EntriesOk(m, g, places, t);
  }

  /** The word the inner loop stores over `d`: mask it, then or in address, attributes and type. */
  function UpdatedEntry(d: Descriptor, level: Level, a: nat, attributes: bv64, mask: Mask): Descriptor {
    Descriptor((d.kind & mask.kind) | LeafType(level), (d.attributes & mask.attributes) | attributes, AddressField(a))
  }

  lemma UpdatedEntryOk(d: Descriptor, level: Level, a: nat, attributes: bv64, mask: Mask)
    requires d == INVALID || LeafOk(d, level, a)
    requires level != 0 && a % SIZE_4KB == 0 && a < SPACE_48 && AttributesOk(attributes)
    ensures LeafOk(UpdatedEntry(d, level, a, attributes, mask), level, a)
    ensures forall va: nat :: Mapped(va, UpdatedEntry(d, level, a, attributes, mask).attributes)
                              == UpdatedMapping(EntryMapping(d, va), va, attributes, mask)
  {
    AddressFieldExact(a);
    UpdatedAttributesOk(d.attributes, attributes, mask.attributes);
  }

  lemma BlocksAligned(level: Level, base: nat, i: nat)
    requires base % Span(level, TT_ENTRY_COUNT) == 0
    ensures (base + Span(level, i)) % SIZE_4KB == 0
  {
    var k := base / Span(level, TT_ENTRY_COUNT);
    var pages := BlockSize(level) / SIZE_4KB;
    assert base == k * Span(level, TT_ENTRY_COUNT);
    assert base + Span(level, i) == (TT_ENTRY_COUNT * k + i) * pages * SIZE_4KB;
    DivModUnique(base + Span(level, i), (TT_ENTRY_COUNT * k + i) * pages, SIZE_4KB, 0);
  }

  lemma BlockSizeAligned(level: Level, start: nat, length: nat)
    requires start % SIZE_4KB == 0 && length % SIZE_4KB == 0 && BlockSize(level) <= length
    ensures (start + BlockSize(level)) % SIZE_4KB == 0
    ensures (length - BlockSize(level)) % SIZE_4KB == 0
  {
  }

  lemma EntryBaseAligned(m: Memory, g: Geometry, places: Places, t: nat, i: nat)
    requires Writable(m, g, places, t, i) && g.Limit() <= SPACE_48
    ensures EntryBase(places[t], i) % SIZE_4KB == 0
    ensures EntryBase(places[t], i) + BlockSize(places[t].level) <= SPACE_48
  {
    assert PlaceOk(m, g, places, t);
    BlocksAligned(places[t].level, places[t].base, i);
    WalkOfEntry(m, g, places, t, i, EntryBase(places[t], i) + BlockSize(places[t].level) - 1);
  }

  /** One step of the inner loop moves the frontier of the updated region by one block. */
  lemma StoreStep(
    m0: Memory, m: Memory, g: Geometry, places: Places, t: nat, i: nat, lo: nat, attributes: bv64, mask: Mask)
    requires Writable(m, g, places, t, i) && places[t].level != 0 && g.Limit() <= SPACE_48
    requires AttributesOk(attributes)
    requires lo <= EntryBase(places[t], i)
    requires RegionUpdated(m0, m, g, lo, EntryBase(places[t], i), attributes, mask)
    ensures var a := EntryBase(places[t], i);
            var m' := WriteEntry(m, t, i, UpdatedEntry(m[t][i], places[t].level, a, attributes, mask));
            && WellFormed(m', g, places)
            && RegionUpdated(m0, m', g, lo, a + BlockSize(places[t].level), attributes, mask)
  {
    var a := EntryBase(places[t], i);
    EntryBaseAligned(m, g, places, t, i);
    assert EntriesOk(m, g, places, t);
    assert EntryOk(g, places, t, i, m[t][i]);
    UpdatedEntryOk(m[t][i], places[t].level, a, attributes, mask);
    var d := UpdatedEntry(m[t][i], places[t].level, a, attributes, mask);
    StoreLeaf(m, g, places, t, i, d);
    var m' := WriteEntry(m, t, i, d);
    var hi := a + BlockSize(places[t].level);
    forall va: nat
      ensures Walk(m', g, va) ==
        if lo <= va < hi then UpdatedMapping(Walk(m0, g, va), va, attributes, mask) else Walk(m0, g, va)
    {
      if InEntry(places, t, i, va) {
        WalkOfEntry(m, g, places, t, i, va);
      }
    }
  }

  /** The allocator's pages are distinct, usable as tables, and outside the tree. */
  ghost predicate PoolOk(free: seq<nat>, m: Memory, places: Places) {
    && (forall k: nat | k < |free| :: PageOk(free[k], m) && free[k] !in places)
    && (forall j: nat, k: nat | j < k < |free| :: free[j] != free[k])
  }

  predicate PageOk(page: nat, m: Memory) {
    && page != 0 && page % SIZE_4KB == 0 && page < SPACE_48
    && page in m && |m[page]| == TT_ENTRY_COUNT
  }

  /** The pages in the tree and the pages still free. */
  ghost function PagesOf(free: seq<nat>, places: Places): set<nat> {
    places.Keys + (set p | p in free)
  }

  lemma PoolTake(free: seq<nat>, m: Memory, places: Places, m': Memory, place: Place)
    requires free != [] && PoolOk(free, m, places)
    requires forall x | x in m :: x in m' && |m'[x]| == |m[x]|
    ensures PoolOk(free[1..], m', places[free[0] := place])
    ensures PagesOf(free[1..], places[free[0] := place]) == PagesOf(free, places)
  {
    assert free == [free[0]] + free[1..];
  }

  /** Hanging table `sub` with the given words below the entry the walk to `va` uses. */
  function Attached(m: Memory, t: nat, i: nat, sub: nat, words: seq<Descriptor>): Memory
    requires t in m && i < |m[t]| && t != sub
  {
    WriteEntry(m[sub := words], t, i, Link(sub))
  }

  lemma AttachAt(
    m: Memory, g: Geometry, places: Places, free: seq<nat>, t: nat, level: Level, va: nat, words: seq<Descriptor>)
    requires WellFormed(m, g, places) && t in places && places[t].level == level != 3
    requires free != [] && PoolOk(free, m, places)
    requires Covers(g, places, t, va)
    requires t in m && |m[t]| == TT_ENTRY_COUNT
    requires !IsLink(m, places, t, EntryIndex(level, va))
    requires Refines(m, places, t, EntryIndex(level, va), words)
    ensures var i := EntryIndex(level, va);
            var m' := Attached(m, t, i, free[0], words);
            var places' := places[free[0] := Below(places, t, i)];
            && WellFormed(m', g, places') && SameWalk(m, m', g) && Covers(g, places', free[0], va)
            && PoolOk(free[1..], m', places') && PagesOf(free[1..], places') == PagesOf(free, places)
  {
    var i := EntryIndex(level, va);
    EntryAt(m, g, places, t, level, va);
    AttachTable(m, g, places, t, i, free[0], words);
    PoolTake(free, m, places, Attached(m, t, i, free[0], words), Below(places, t, i));
  }

  /** A block split in 512 says at every address what the block said. */
  lemma SplitAt(m: Memory, g: Geometry, places: Places, t: nat, level: Level, va: nat)
    requires WellFormed(m, g, places) && t in places && places[t].level == level != 3
    requires Covers(g, places, t, va)
    requires t in m && |m[t]| == TT_ENTRY_COUNT
    requires IsBlockType(m[t][EntryIndex(level, va)])
    ensures var attributes := m[t][EntryIndex(level, va)].attributes;
            && attributes & TT_ATTRIBUTES_MASK == attributes
            && attributes & TT_NS == 0
            && Refines(m, places, t, EntryIndex(level, va),
                       SubBlocks(LeafType(level + 1), attributes, BlockStart(level, va), level + 1))
  {
    EntryAt(m, g, places, t, level, va);
    SplitAttributes(m[t][EntryIndex(level, va)].attributes);
  }

  function ZeroWords(): (words: seq<Descriptor>)
    ensures |words| == TT_ENTRY_COUNT
  {
    seq(TT_ENTRY_COUNT, (i: nat) => INVALID)
  }

  lemma AlignedBlock(level: Level, va: nat)
    requires va % BlockSize(level) == 0
    ensures BlockStart(level, va) == va
    ensures level != 3 ==> va % BlockSize(level + 1) == 0
  {
    var k := va / BlockSize(level);
    assert va == k * BlockSize(level);
    if level != 3 {
      DivModUnique(va, TT_ENTRY_COUNT * k, BlockSize(level + 1), 0);
    }
  }

  lemma AlignedAtLevel(x: nat, level: Level)
    requires x > 0
    ensures x % BlockSize(level) == 0 <==> AddressOffset(level) <= LowBitSet64(x)
  {
    Pow2Values();
    LowBitSetDivides(x, AddressOffset(level));
  }

  lemma AlignmentInRange(x: nat)
    requires 0 < x < SPACE_48 && x % SIZE_4KB == 0
    ensures 12 <= LowBitSet64(x) < 48
  {
    Pow2Values();
    LowBitSetDivides(x, 12);
    LowBitSetDivides(x, 48);
    DivModUnique(x, 0, SPACE_48, x);
  }

  /** The alignment the program goes by: of the start, or of the size when the start is zero. */
  predicate LevelAligned(regionStart: nat, blockEntrySize: nat, level: Level)
    requires blockEntrySize > 0
  {
    AddressOffset(level) <= LowBitSet64(if regionStart == 0 then blockEntrySize else regionStart)
  }

  lemma LevelAlignedDivides(regionStart: nat, blockEntrySize: nat, level: Level)
    requires blockEntrySize > 0 && LevelAligned(regionStart, blockEntrySize, level)
    ensures regionStart % BlockSize(level) == 0
  {
    if regionStart != 0 {
      AlignedAtLevel(regionStart, level);
    }
  }

  /** The coarsest level whose blocks are aligned at the start and no longer than the size. */
  method PickLevel(regionStart: nat, blockEntrySize: nat) returns (pageLevel: Level)
    requires regionStart % SIZE_4KB == 0 && regionStart < SPACE_48
    requires blockEntrySize % SIZE_4KB == 0 && 0 < blockEntrySize < SPACE_48
    ensures pageLevel != 0 && BlockSize(pageLevel) <= blockEntrySize
    ensures LevelAligned(regionStart, blockEntrySize, pageLevel)
    ensures pageLevel == 1 || blockEntrySize < BlockSize(pageLevel - 1)
            || !LevelAligned(regionStart, blockEntrySize, pageLevel - 1)
  {
    var aligned := if regionStart == 0 then blockEntrySize else regionStart;
    var alignment := LowBitSet64(aligned);
    AlignmentInRange(aligned);
    var level := 3 - (alignment - 12) / 9;
    pageLevel := if level > 1 then level else 1;
    while blockEntrySize < BlockSize(pageLevel)
      invariant 1 <= pageLevel <= 3 && AddressOffset(pageLevel) <= alignment
      invariant pageLevel == 1 || blockEntrySize < BlockSize(pageLevel - 1)
                || alignment < AddressOffset(pageLevel - 1)
      decreases 3 - pageLevel
    {
      pageLevel := pageLevel + 1;
    }
  }
}
