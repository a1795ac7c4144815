/** The AArch64 page-table editor: it maps regions by walking, splitting and extending the tree of
    translation tables in place. */
module ArmMmuLibAArch64 {
  import opened Arithmetic
  import opened Vmsa64
  import opened TranslationTree
  import opened RegionMapping
  import opened TableDepth
  import Terminated
  import opened MemoryAttributes

  /** Scan for the top set bit; bit 0 is never looked at. */
  method LookupAddresstoRootTable(maxAddress: nat) returns (t0sz: nat)
    requires maxAddress < Pow2(64)
    ensures maxAddress < 2 <==> t0sz == 64
    ensures maxAddress >= 2 ==> t0sz < 64 && Pow2(63 - t0sz) <= maxAddress < Pow2(64 - t0sz)
  {
    var topBit := 63;
    while topBit != 0
      invariant topBit <= 63 && maxAddress < Pow2(topBit + 1)
      decreases topBit
    {
      if maxAddress / Pow2(topBit) % 2 == 1 {
        TopBitSet(maxAddress, topBit);
        return 64 - (topBit + 1);
      }
      TopBitClear(maxAddress, topBit);
      topBit := topBit - 1;
    }
    assert Pow2(1) == 2;
    t0sz := 64 - topBit;
  }

  lemma TopBitSet(x: nat, k: nat)
    requires 1 <= k && x < Pow2(k + 1) && x / Pow2(k) % 2 == 1
    ensures Pow2(k) <= x && x >= 2
  {
    Pow2Grows(1, k);
    assert x == x / Pow2(k) * Pow2(k) + x % Pow2(k);
    assert x / Pow2(k) >= 1 ==> x / Pow2(k) * Pow2(k) >= Pow2(k);
  }

  lemma TopBitClear(x: nat, k: nat)
    requires x < Pow2(k + 1) && x / Pow2(k) % 2 == 0
    ensures x < Pow2(k)
  {
    var q := x / Pow2(k);
    assert x == q * Pow2(k) + x % Pow2(k);
    assert q >= 2 ==> q * Pow2(k) >= 2 * Pow2(k);
  }

  const MAX_ALLOC_ADDRESS: nat := SPACE_48 - 1

  /** At most 48 bits of address are used. */
  function AddressBits(physicalAddressBits: nat): nat {
    if physicalAddressBits <= 48 then physicalAddressBits else 48
  }

  lemma MaxAddressBits(bits: nat)
    requires 32 <= bits <= 52
    ensures var limit := Pow2(bits) - 1;
            (if limit <= MAX_ALLOC_ADDRESS then limit else MAX_ALLOC_ADDRESS) == Pow2(AddressBits(bits)) - 1
    ensures 2 <= Pow2(AddressBits(bits)) - 1 < Pow2(64)
  {
    Pow2Values();
    Pow2Grows(2, AddressBits(bits));
    Pow2Grows(AddressBits(bits), 64);
    assert Pow2(2) == 4;
    if bits <= 48 {
      Pow2Grows(bits, 48);
    } else {
      Pow2Grows(48, bits);
    }
  }

  lemma TopBitUnique(b: nat, n: nat)
    requires n > 0 && Pow2(n - 1) <= Pow2(b) - 1 < Pow2(n)
    ensures n == b
  {
    if n < b {
      Pow2Grows(n + 1, b);
    } else if n > b {
      Pow2Grows(b, n - 1);
    }
  }

  /** The address space covers what the processor can address, and no more than 48 bits. */
  method ChooseT0SZ(physicalAddressBits: nat) returns (t0sz: nat)
    requires 32 <= physicalAddressBits <= 52
    ensures SupportedT0SZ(t0sz) && t0sz == 64 - AddressBits(physicalAddressBits)
  {
    var limit := Pow2(physicalAddressBits) - 1;
    var maxAddress := if limit <= MAX_ALLOC_ADDRESS then limit else MAX_ALLOC_ADDRESS;
    MaxAddressBits(physicalAddressBits);
    t0sz := LookupAddresstoRootTable(maxAddress);
    TopBitUnique(AddressBits(physicalAddressBits), 64 - t0sz);
  }

  /** The walk of every address is what the regions say. */
  ghost predicate MapsExactly(m: Memory, g: Geometry, regions: seq<Region>, el: ExceptionLevel) {
    forall va: nat :: Walk(m, g, va) == MappingOf(regions, va, el)
  }

  lemma MapsOneMore(m: Memory, m': Memory, g: Geometry, before: seq<Region>, r: Region, el: ExceptionLevel)
    requires MapsExactly(m, g, before, el)
    requires FilledUpTo(m, m', g, r, r.virtualBase + r.length, el)
    ensures MapsExactly(m', g, before + [r], el)
  {
    assert (before + [r])[..|before|] == before;
  }

  lemma EmptyTree(m: Memory, g: Geometry)
    requires g.Valid() && g.root in m && |m[g.root]| == TT_ENTRY_COUNT
    requires forall i: nat | i < g.count :: m[g.root][i] == INVALID
    ensures WellFormed(m, g, map[g.root := Place(g.level, 0, 0, 0)])
    ensures forall va: nat :: Walk(m, g, va) == Unmapped
  {
    var places: Places := map[g.root := Place(g.level, 0, 0, 0)];
    assert WellFormed(m, g, places);
    forall va: nat
      ensures Walk(m, g, va) == Unmapped
    {
      if va < g.Limit() {
        IndexInTable(g.level, 0, g.count, va);
      }
    }
  }

  /** The regions before the terminator. */
  function Regions(memoryTable: seq<Region>): (r: seq<Region>)
    ensures r <= memoryTable
    ensures forall k: nat | k < |r| :: memoryTable[k].length != 0
    ensures |r| == |memoryTable| || memoryTable[|r|].length == 0
  {
    Terminated.Before(memoryTable, (r: Region) => r.length == 0)
  }

  predicate WholePages(r: Region) {
    r.length % SIZE_4KB == 0
  }

  predicate AllWholePages(regions: seq<Region>) {
    forall k: nat | k < |regions| :: WholePages(regions[k])
  }

  predicate PageAligned(r: Region) {
    r.virtualBase % SIZE_4KB == 0
  }

  predicate AllAligned(regions: seq<Region>) {
    forall k: nat | k < |regions| :: PageAligned(regions[k])
  }

  predicate RegionsFit(regions: seq<Region>, limit: nat) {
    forall k: nat | k < |regions| ::
      regions[k].virtualBase + regions[k].length <= limit && regions[k].length < SPACE_48
  }

  lemma FilledRegion(m: Memory, m': Memory, g: Geometry, region: Region, reached: nat, el: ExceptionLevel)
    requires RegionUpdated(m, m', g, region.virtualBase, reached, RegionBits(region.attributes, el) | TT_AF, CLEAR_ALL)
    ensures FilledUpTo(m, m', g, region, reached, el)
  {
    forall va: nat
      ensures Walk(m', g, va) == if region.virtualBase <= va < reached then RegionMappingAt(region, va, el)
                                 else Walk(m, g, va)
    {
      FillForgets(Walk(m, g, va), va, RegionBits(region.attributes, el) | TT_AF);
    }
  }

  /** The region has overwritten the mappings up to `reached`. */
  ghost predicate FilledUpTo(m: Memory, m': Memory, g: Geometry, region: Region, reached: nat, el: ExceptionLevel) {
    forall va: nat :: Walk(m', g, va) ==
      if region.virtualBase <= va < reached then RegionMappingAt(region, va, el) else Walk(m, g, va)
  }

  /** So many pages are enough for these regions, one after another. */
  function PagesNeeded(regions: seq<Region>): nat {
    if regions == [] then 0
    else
      var r := regions[|regions| - 1];
      PagesNeeded(regions[..|regions| - 1]) + (if r.length == 0 then 0 else PagesBound(r.virtualBase, r.length))
  }

  lemma PagesNeededNext(before: seq<Region>, r: Region)
    requires r.length != 0
    ensures PagesNeeded(before + [r]) == PagesNeeded(before) + PagesBound(r.virtualBase, r.length)
  {
    assert (before + [r])[..|before|] == before;
  }

  lemma {:induction false} PagesNeededGrows(regions: seq<Region>, k: nat)
    requires k <= |regions|
    ensures PagesNeeded(regions[..k]) <= PagesNeeded(regions)
  {
    if k == |regions| {
      assert regions[..k] == regions;
    } else {
      var n := |regions| - 1;
      PagesNeededGrows(regions[..n], k);
      assert regions[..n][..k] == regions[..k];
    }
  }

  lemma RegionAt(memoryTable: seq<Region>, k: nat)
    requires k <= |Regions(memoryTable)| && k < |memoryTable| && memoryTable[k].length != 0
    ensures k < |Regions(memoryTable)| && Regions(memoryTable)[k] == memoryTable[k]
  {
  }

  lemma PrefixGrows(regions: seq<Region>, k: nat)
    requires k < |regions|
    ensures regions[..k + 1] == regions[..k] + [regions[k]]
  {
  }

  /** The next region of the table fits, and needs no more pages than are set aside for it. */
  lemma NextRegion(regions: seq<Region>, k: nat, limit: nat)
    requires k < |regions| && RegionsFit(regions, limit) && regions[k].length != 0
    ensures var r := regions[k];
            && r.virtualBase + r.length <= limit && r.length < SPACE_48
            && (!WholePages(r) ==> !AllWholePages(regions))
            && (AllAligned(regions) ==> PageAligned(r))
            && PagesNeeded(regions[..k]) + PagesBound(r.virtualBase, r.length) <= PagesNeeded(regions)
  {
    PagesNeededNext(regions[..k], regions[k]);
    PrefixGrows(regions, k);
    PagesNeededGrows(regions, k + 1);
  }

  class ArmMmu {
    /** All physical pages the library may use, as tables of 512 words. */
    var memory: Memory
    /** The pages the allocator still has; their contents are arbitrary. */
    var free: seq<nat>
    /** TTBR0 and TCR.T0SZ. */
    var ttbr0: nat
    var t0sz: nat
    ghost var places: Places

    ghost function Root(): Geometry
      reads this
      requires SupportedT0SZ(t0sz)
    {
      RootGeometry(ttbr0, t0sz)
    }

    /** Every page the library owns, free or in use as a table of the tree. */
    ghost function Pages(): set<nat>
      reads this
    {
      PagesOf(free, places)
    }

    ghost predicate Valid()
      reads this
    {
      && SupportedT0SZ(t0sz)
      && PoolOk(free, memory, places)
      && WellFormed(memory, Root(), places)
    }

    /** `c` is an entry that may be written with a block at `start`, within `length`. */
    ghost predicate CursorOk(c: Cursor, start: nat, length: nat)
      reads this
      requires SupportedT0SZ(t0sz)
    {
      && c.Entry?
      && Writable(memory, Root(), places, c.table, c.index)
      && c.level == places[c.table].level && c.level != 0
      && c.size == BlockSize(c.level) <= length
      && start == EntryBase(places[c.table], c.index)
      && c.last + 1 == EntryCount(Root(), c.table)
    }

    /** No tables yet, and these pages to make them from. */
    constructor (pages: seq<nat>)
      requires forall k: nat | k < |pages| :: pages[k] != 0 && pages[k] % SIZE_4KB == 0 && pages[k] < SPACE_48
      requires forall j: nat, k: nat | j < k < |pages| :: pages[j] != pages[k]
      ensures free == pages && PoolOk(free, memory, map[])
    {
      free := pages;
      memory := map p | p in pages :: ZeroWords();
      ttbr0, t0sz := 0, MIN_T0SZ;
      places := map[];
    }

    /** AllocatePages (1): a page, or 0 when none is left. */
    method AllocatePage() returns (page: nat)
      modifies `free
      ensures old(free) == [] ==> page == 0 && free == []
      ensures old(free) != [] ==> page == old(free)[0] && free == old(free)[1..]
    {
      if free == [] {
        return 0;
      }
      page := free[0];
      free := free[1..];
    }

    /** The walk the region's start takes is at `table`, whose level is `level`. */
    ghost predicate At(table: nat, level: nat, va: nat)
      reads this
      requires SupportedT0SZ(t0sz)
    {
      && table in places && table in memory && |memory[table]| == TT_ENTRY_COUNT
      && places[table].level == level
      && Covers(Root(), places, table, va)
    }

    /** Write the 512 blocks of a new table. */
    method PopulateSubTable(sub: nat, kind: bv2, attributes: bv64, base: nat, level: Level)
      requires sub in memory && |memory[sub]| == TT_ENTRY_COUNT
      modifies `memory
      ensures memory == old(memory)[sub := SubBlocks(kind, attributes, base, level)]
    {
      var i := 0;
      while i < TT_ENTRY_COUNT
        invariant i <= TT_ENTRY_COUNT
        invariant sub in memory && |memory[sub]| == TT_ENTRY_COUNT
        invariant memory == old(memory)[sub := memory[sub]]
        invariant memory[sub][..i] == SubBlocks(kind, attributes, base, level)[..i]
      {
        memory := WriteEntry(memory, sub, i, Descriptor(kind, attributes, base + Span(level, i)));
        i := i + 1;
      }
      assert memory[sub] == SubBlocks(kind, attributes, base, level);
    }

    /** Replace a block by a table of smaller blocks for the same addresses, built from the virtual
        address alone. */
    method SplitBlockEntry(table: nat, index: nat, level: Level, regionStart: nat) returns (sub: nat)
      requires Valid() && At(table, level, regionStart) && level != 3
      requires index == EntryIndex(level, regionStart)
      requires IsBlockType(memory[table][index])
      modifies `memory, `free, `places
      ensures Valid() && SameWalk(old(memory), memory, Root()) && Pages() == old(Pages())
      ensures sub == 0 ==> free == [] == old(free) && memory == old(memory) && places == old(places)
      ensures sub != 0 ==> At(sub, level + 1, regionStart) && |free| == |old(free)| - 1
      ensures sub != 0 ==> Deepened(old(memory), memory, Root(), regionStart, level)
    {
      ghost var g, m, ps := Root(), memory, places;
      SplitAt(m, g, ps, table, level, regionStart);
      var attributes := memory[table][index].attributes & TT_ATTRIBUTES_MASK;
      var tableAttributes := TT_TABLE_AP_NO_PERMISSION;
      if attributes & TT_NS != 0 {
        tableAttributes := TT_TABLE_NS;
      }
      var blockEntryAddress := BlockStart(level, regionStart);
      var kind := if level + 1 == 3 then TT_TYPE_BLOCK_ENTRY_LEVEL3 else TT_TYPE_BLOCK_ENTRY;

      sub := AllocatePage();
      if sub == 0 {
        return;
      }
      PopulateSubTable(sub, kind, attributes, blockEntryAddress, level + 1);
      LinkTable(table, index, sub, tableAttributes);
      ghost var words := SubBlocks(kind, attributes, blockEntryAddress, level + 1);
      AttachAt(m, g, ps, old(free), table, level, regionStart, words);
      AttachAtDeepens(m, g, ps, table, level, regionStart, sub, words);
    }

    /** Point an entry at a table. */
    method LinkTable(table: nat, index: nat, sub: nat, tableAttributes: bv64)
      requires table in memory && index < |memory[table]| && PageOk(sub, memory)
      requires table in places && places[table].level != 3
      modifies `memory, `places
      ensures memory == WriteEntry(old(memory), table, index, Descriptor(TT_TYPE_TABLE_ENTRY, tableAttributes, sub))
      ensures places == old(places)[sub := Below(old(places), table, index)]
    {
      AddressFieldExact(sub);
      memory := WriteEntry(memory, table, index,
                           Descriptor(TT_TYPE_TABLE_ENTRY, tableAttributes, AddressField(sub)));
      places := places[sub := Below(places, table, index)];
    }

    /** ZeroMem over one table. */
    method ZeroTable(t: nat)
      requires t in memory && |memory[t]| == TT_ENTRY_COUNT
      modifies `memory
      ensures memory == old(memory)[t := ZeroWords()]
    {
      memory := memory[t := ZeroWords()];
    }

    /** Hang an empty table below an invalid entry. */
    method CreateTable(table: nat, index: nat, level: Level, regionStart: nat) returns (sub: nat)
      requires Valid() && At(table, level, regionStart) && level != 3
      requires index == EntryIndex(level, regionStart)
      requires !IsBlockType(memory[table][index]) && !IsTableType(memory[table][index])
      modifies `memory, `free, `places
      ensures Valid() && SameWalk(old(memory), memory, Root()) && Pages() == old(Pages())
      ensures sub == 0 ==> free == [] == old(free) && memory == old(memory) && places == old(places)
      ensures sub != 0 ==> At(sub, level + 1, regionStart) && |free| == |old(free)| - 1
      ensures sub != 0 ==> Deepened(old(memory), memory, Root(), regionStart, level)
    {
      ghost var g, m, ps := Root(), memory, places;
      EntryAt(m, g, ps, table, level, regionStart);
      sub := AllocatePage();
      if sub == 0 {
        return;
      }
      ZeroTable(sub);
      LinkTable(table, index, sub, 0);
      AttachAt(m, g, ps, old(free), table, level, regionStart, ZeroWords());
      AttachAtDeepens(m, g, ps, table, level, regionStart, sub, ZeroWords());
    }

    /** One turn of the walk: follow a table, or make one if the picked level is still further down. */
    method Descend(table: nat, indexLevel: Level, pageLevel: Level, regionStart: nat)
      returns (ok: bool, next: nat, nextPageLevel: Level, index: nat)
      requires Valid() && At(table, indexLevel, regionStart) && indexLevel <= pageLevel && pageLevel >= 1
      requires regionStart % BlockSize(pageLevel) == 0
      modifies `memory, `free, `places
      ensures Valid() && SameWalk(old(memory), memory, Root()) && Pages() == old(Pages())
      ensures !ok ==> free == [] == old(free) && indexLevel < pageLevel && memory == old(memory)
      ensures !ok ==> Depth(memory, Root(), regionStart) == indexLevel
      ensures ok ==> index == EntryIndex(indexLevel, regionStart)
      ensures ok ==> nextPageLevel == pageLevel || (nextPageLevel == pageLevel + 1 == indexLevel + 1)
      ensures ok ==> regionStart % BlockSize(nextPageLevel) == 0
      ensures ok && indexLevel < nextPageLevel ==> At(next, indexLevel + 1, regionStart)
      ensures ok && indexLevel == nextPageLevel ==>
                next == table && At(table, indexLevel, regionStart) && !IsLink(memory, places, table, index)
      ensures ok ==> StepCost(old(memory), memory, Root(), regionStart, |old(free)| - |free|,
                              indexLevel, pageLevel, nextPageLevel)
    {
      ghost var g := Root();
      ok, next, nextPageLevel := true, table, pageLevel;
      index := EntryIndex(indexLevel, regionStart);
      EntryAt(memory, g, places, table, indexLevel, regionStart);
      DepthPassesThrough(memory, g, places, table, regionStart);
      var entry := memory[table][index];
      if indexLevel != 3 && IsTableType(entry) {
        LinkCovers(memory, g, places, table, index, regionStart);
        next := entry.address;
        if indexLevel == pageLevel {
          AlignedBlock(pageLevel, regionStart);
          nextPageLevel := pageLevel + 1;
        }
      } else if IsBlockType(entry) {
        if indexLevel != pageLevel {
          next := SplitBlockEntry(table, index, indexLevel, regionStart);
          ok := next != 0;
        }
      } else {
        if indexLevel != pageLevel {
          next := CreateTable(table, index, indexLevel, regionStart);
          ok := next != 0;
        }
      }
    }

    /** Find the entry to write for `regionStart`, at the coarsest level that its alignment, the
        remaining size and the existing tables allow; tables are made on the way.  `goal` is the level
        that was aimed for. */
    method GetBlockEntryListFromAddress(regionStart: nat, blockEntrySize: nat) returns (c: Cursor, ghost goal: Level)
      requires Valid()
      requires regionStart + blockEntrySize <= Root().Limit() && blockEntrySize < SPACE_48
      modifies `memory, `free, `places
      ensures Valid() && SameWalk(old(memory), memory, Root()) && Pages() == old(Pages())
      ensures c.NoEntry? && regionStart % SIZE_4KB == 0 && blockEntrySize % SIZE_4KB == 0 && blockEntrySize != 0
              ==> free == []
      ensures c.Entry? ==> regionStart % SIZE_4KB == 0 && CursorOk(c, regionStart, blockEntrySize)
      ensures regionStart % SIZE_4KB != 0 ==> memory == old(memory) && free == old(free)
      ensures DepthGrows(old(memory), memory, Root())
      ensures c.Entry? ==> goal == c.level == Depth(memory, Root(), regionStart)
      ensures c.Entry? ==> |old(free)| == |free| + (goal - Depth(old(memory), Root(), regionStart))
      ensures regionStart % SIZE_4KB == 0 && blockEntrySize % SIZE_4KB == 0 && blockEntrySize != 0 ==>
                && (goal > Depth(old(memory), Root(), regionStart) ==> Picked(regionStart, blockEntrySize, goal))
                && (c.NoEntry? ==> |old(free)| < goal - Depth(old(memory), Root(), regionStart))
    {
      goal := 0;
      if regionStart % SIZE_4KB != 0 {
        return NoEntry, goal;
      }
      if blockEntrySize % SIZE_4KB != 0 || blockEntrySize == 0 {
        return NoEntry, goal;
      }
      RootGeometryValid(ttbr0, t0sz);
      RootTableSpansAddressSpace(ttbr0, t0sz);

      var pageLevel: Level := PickLevel(regionStart, blockEntrySize);
      LevelAlignedDivides(regionStart, blockEntrySize, pageLevel);
      ghost var m, g, picked := memory, Root(), pageLevel;
      var table, index := ttbr0, 0;
      var indexLevel: nat := RootLevel(t0sz);
      while indexLevel <= pageLevel
        invariant Valid() && SameWalk(m, memory, g) && Pages() == old(Pages())
        invariant 1 <= pageLevel <= 3 && indexLevel <= pageLevel + 1
        invariant BlockSize(pageLevel) <= blockEntrySize && regionStart % BlockSize(pageLevel) == 0
        invariant At(table, if indexLevel <= pageLevel then indexLevel else pageLevel, regionStart)
        invariant indexLevel == pageLevel + 1 ==>
                    && index == EntryIndex(pageLevel, regionStart)
                    && !IsLink(memory, places, table, index)
        invariant WalkCost(m, memory, g, regionStart, |old(free)| - |free|, indexLevel, pageLevel, picked)
        decreases 4 - indexLevel
      {
        ghost var before, left := memory, |free|;
        var ok, next, nextPageLevel;
        ok, next, nextPageLevel, index := Descend(table, indexLevel, pageLevel, regionStart);
        if !ok {
          return NoEntry, pageLevel;
        }
        WalkCostStep(m, before, memory, g, regionStart, |old(free)| - left, |old(free)| - |free|,
                     indexLevel, pageLevel, nextPageLevel, picked);
        table, pageLevel := next, nextPageLevel;
        indexLevel := indexLevel + 1;
      }
      EntryAt(memory, g, places, table, pageLevel, regionStart);
      DepthOfEntry(memory, g, places, table, index, regionStart);
      AlignedBlock(pageLevel, regionStart);
      var count := if pageLevel == RootLevel(t0sz) then RootEntryCount(t0sz) else TT_ENTRY_COUNT;
      goal := pageLevel;
      c := Entry(table, index, count - 1, pageLevel, BlockSize(pageLevel));
    }

    /** One turn of the inner loop: mask and or one entry. */
    method StoreEntry(
      c: Cursor, index: nat, start: nat, attributes: bv64, mask: Mask, ghost m0: Memory, ghost lo: nat)
      requires Valid() && AttributesOk(attributes)
      requires c.Entry? && CursorOk(c.(index := index), start, c.size)
      requires lo <= start && RegionUpdated(m0, memory, Root(), lo, start, attributes, mask)
      modifies `memory
      ensures Valid() && RegionUpdated(m0, memory, Root(), lo, start + c.size, attributes, mask)
      ensures c.table in old(memory) && index < |old(memory)[c.table]|
      ensures memory == WriteEntry(old(memory), c.table, index,
                                   UpdatedEntry(old(memory)[c.table][index], c.level, start, attributes, mask))
      ensures SameDepth(old(memory), memory, Root()) && Depth(memory, Root(), start + c.size - 1) == c.level
      ensures (start + c.size) % BlockSize(c.level) == 0
    {
      ghost var g := Root();
      RootTableSpansAddressSpace(ttbr0, t0sz);
      StoreStep(m0, memory, g, places, c.table, index, lo, attributes, mask);
      StoreStepDepth(memory, g, places, c.table, index, attributes, mask);
      assert PlaceOk(memory, g, places, c.table);
      EntryEndAligned(c.level, places[c.table].base, index);
      memory := WriteEntry(memory, c.table, index,
                           UpdatedEntry(memory[c.table][index], c.level, start, attributes, mask));
    }

    /** The inner loop: fill the entries of one table from `c` on, until the region or the table ends
        or the next entry links a table. */
    method FillEntries(
      c: Cursor, regionStart: nat, regionLength: nat, attributes: bv64, mask: Mask, ghost m0: Memory, ghost lo: nat)
      returns (start: nat, length: nat)
      requires Valid() && AttributesOk(attributes)
      requires regionStart % SIZE_4KB == 0 && regionLength % SIZE_4KB == 0
      requires CursorOk(c, regionStart, regionLength)
      requires lo <= regionStart && RegionUpdated(m0, memory, Root(), lo, regionStart, attributes, mask)
      modifies `memory
      ensures Valid()
      ensures start % SIZE_4KB == 0 && length % SIZE_4KB == 0
      ensures start + length == regionStart + regionLength && regionStart < start
      ensures RegionUpdated(m0, memory, Root(), lo, start, attributes, mask)
      ensures SameDepth(old(memory), memory, Root())
      ensures start % BlockSize(c.level) == 0 && Depth(memory, Root(), start - 1) == c.level
    {
      ghost var g := Root();
      start, length := regionStart, regionLength;
      var index: nat := c.index;
      while true
        invariant Valid() && start + length == regionStart + regionLength && regionStart <= start
        invariant start % SIZE_4KB == 0 && length % SIZE_4KB == 0
        invariant RegionUpdated(m0, memory, g, lo, start, attributes, mask)
        invariant CursorOk(c.(index := index), start, length)
        invariant SameDepth(old(memory), memory, g)
        decreases length
      {
        BlockSizeAligned(c.level, start, length);
        StoreEntry(c, index, start, attributes, mask, m0, lo);
        start := start + c.size;
        length := length - c.size;
        index := index + 1;
        if c.level != 3 && index <= c.last && IsTableType(memory[c.table][index]) {
          break;
        }
        if !(length >= c.size && index <= c.last) {
          break;
        }
      }
    }

    /** Map [regionStart, regionStart + regionLength) to itself: every entry is masked, then or-ed.
        `reached` is the end of the part that has been mapped when the call returns. */
    method UpdateRegionMapping(regionStart: nat, regionLength: nat, attributes: bv64, mask: Mask)
      returns (status: Status, ghost reached: nat)
      requires Valid()
      requires regionStart + regionLength <= Root().Limit() && regionLength < SPACE_48
      requires AttributesOk(attributes)
      modifies `memory, `free, `places
      ensures Valid() && Pages() == old(Pages())
      ensures status != Unsupported
      ensures status == InvalidParameter <==> regionLength == 0 || regionLength % SIZE_4KB != 0
      ensures regionStart <= reached <= regionStart + regionLength
      ensures RegionUpdated(old(memory), memory, Root(), regionStart, reached, attributes, mask)
      ensures status == Success ==> reached == regionStart + regionLength
      ensures status == OutOfResources ==> reached < regionStart + regionLength
      ensures status == OutOfResources && regionStart % SIZE_4KB == 0 ==>
                free == [] && |old(free)| < PagesBound(regionStart, regionLength)
      ensures regionLength > 0 ==> |old(free)| <= |free| + PagesBound(regionStart, regionLength)
      ensures status != InvalidParameter && regionStart % SIZE_4KB != 0 ==> status == OutOfResources
      ensures status == InvalidParameter || regionStart % SIZE_4KB != 0 ==>
                reached == regionStart && memory == old(memory) && free == old(free)
    {
      reached := regionStart;
      if regionLength == 0 || regionLength % SIZE_4KB != 0 {
        return InvalidParameter, reached;
      }
      ghost var account := Account(regionStart, regionStart + regionLength - 1, |free|);
      var start: nat, length: nat := regionStart, regionLength;
      while length != 0
        invariant Valid() && start + length == regionStart + regionLength && regionStart <= start
        invariant length % SIZE_4KB == 0 && Pages() == old(Pages())
        invariant start == regionStart || (start % SIZE_4KB == 0 && regionStart % SIZE_4KB == 0)
        invariant start == regionStart ==> memory == old(memory) && free == old(free)
        invariant RegionUpdated(old(memory), memory, Root(), regionStart, start, attributes, mask)
        invariant Balanced(memory, Root(), account, start, |free|)
        decreases length
      {
        reached := start;
        var ok;
        ok, start, length := UpdateBlocks(start, length, attributes, mask, old(memory), account);
        if !ok {
          return OutOfResources, reached;
        }
      }
      reached := start;
      status := Success;
    }

    /** One turn of that loop: find an entry and fill the table from it on. */
    method UpdateBlocks(
      regionStart: nat, regionLength: nat, attributes: bv64, mask: Mask, ghost m0: Memory, ghost account: Account)
      returns (ok: bool, start: nat, length: nat)
      requires Valid() && AttributesOk(attributes) && regionLength % SIZE_4KB == 0
      requires 0 < regionLength < SPACE_48 && regionStart + regionLength == account.end + 1 <= Root().Limit()
      requires account.from <= regionStart
      requires RegionUpdated(m0, memory, Root(), account.from, regionStart, attributes, mask)
      requires Balanced(memory, Root(), account, regionStart, |free|)
      modifies `memory, `free, `places
      ensures Valid() && Pages() == old(Pages())
      ensures regionStart % SIZE_4KB != 0 ==> !ok && memory == old(memory) && free == old(free)
      ensures !ok ==> RegionUpdated(m0, memory, Root(), account.from, regionStart, attributes, mask)
      ensures !ok && regionStart % SIZE_4KB == 0 ==> free == [] && account.free < AccountBound(account)
      ensures ok ==>
                && regionStart < start && start + length == regionStart + regionLength
                && start % SIZE_4KB == 0 && length % SIZE_4KB == 0
                && RegionUpdated(m0, memory, Root(), account.from, start, attributes, mask)
                && Balanced(memory, Root(), account, start, |free|)
                && account.free <= |free| + AccountBound(account)
    {
      ok, start, length := true, regionStart, regionLength;
      ghost var m, before := memory, |free|;
      var c;
      ghost var goal;
      c, goal := GetBlockEntryListFromAddress(start, length);
      if c.NoEntry? {
        if start % SIZE_4KB == 0 {
          Overdrawn(m, Root(), account, start, length, goal, before);
        }
        ok := false;
        return;
      }
      ghost var m' := memory;
      start, length := FillEntries(c, start, length, attributes, mask, m0, account.from);
      Settle(m, m', memory, Root(), account, regionStart, start, length, goal, before, |free|);
    }

    method FillTranslationTable(region: Region, el: ExceptionLevel) returns (status: Status, ghost reached: nat)
      requires Valid()
      requires region.virtualBase + region.length <= Root().Limit() && region.length < SPACE_48
      modifies `memory, `free, `places
      ensures Valid() && Pages() == old(Pages())
      ensures status != Unsupported
      ensures status == InvalidParameter <==> region.length == 0 || !WholePages(region)
      ensures status == OutOfResources && region.virtualBase % SIZE_4KB == 0 ==>
                free == [] && |old(free)| < PagesBound(region.virtualBase, region.length)
      ensures region.length > 0 ==> |old(free)| <= |free| + PagesBound(region.virtualBase, region.length)
      ensures region.virtualBase <= reached <= region.virtualBase + region.length
      ensures status == Success ==> reached == region.virtualBase + region.length
      ensures FilledUpTo(old(memory), memory, Root(), region, reached, el)
      ensures status == InvalidParameter || !PageAligned(region) ==> memory == old(memory) && free == old(free)
    {
      RegionBitsOk(region.attributes, el);
      var bits := RegionBits(region.attributes, el) | TT_AF;
      status, reached := UpdateRegionMapping(region.virtualBase, region.length, bits, CLEAR_ALL);
      FilledRegion(old(memory), memory, Root(), region, reached, el);
    }

    /** The five calls on a live address space (ArmSetMemoryAttributes and the set and clear NoExec and
        ReadOnly calls): each passes its bits and its mask to UpdateRegionMapping. */
    method Perform(call: Call, baseAddress: nat, length: nat, el: ExceptionLevel)
      returns (status: Status, ghost reached: nat)
      requires Valid()
      requires baseAddress + length <= Root().Limit() && length < SPACE_48
      modifies `memory, `free, `places
      ensures Valid() && Pages() == old(Pages())
      ensures status != Unsupported
      ensures status == InvalidParameter <==> length == 0 || length % SIZE_4KB != 0
      ensures baseAddress <= reached <= baseAddress + length
      ensures IsRun([old(memory), memory], Root(), [Step(call, baseAddress, reached)], el)
      ensures EffectOnWalk(old(memory), memory, Root(), call, baseAddress, reached, el)
      ensures status == Success ==> reached == baseAddress + length
      ensures status == OutOfResources ==> reached < baseAddress + length
      ensures status == OutOfResources && baseAddress % SIZE_4KB == 0 ==>
                free == [] && |old(free)| < PagesBound(baseAddress, length)
    {
      CallBitsOk(call, el);
      var bits, mask := call.Bits(el), call.BlockEntryMask();
      status, reached := UpdateRegionMapping(baseAddress, length, bits, mask);
      UpdateHasEffect(old(memory), memory, Root(), old(places), call, baseAddress, reached, mask, bits, el);
    }

    /** Point the registers at a new root table with no mappings. */
    method CreateRootTable(newT0sz: nat) returns (root: nat)
      requires SupportedT0SZ(newT0sz) && PoolOk(free, memory, map[])
      modifies this
      ensures t0sz == newT0sz
      ensures root == 0 <==> old(free) == []
      ensures root == 0 ==> free == []
      ensures root != 0 ==> Valid() && ttbr0 == root
      ensures root != 0 ==> Pages() == (set p | p in old(free)) && free == old(free)[1..]
      ensures root != 0 ==> forall va: nat :: Walk(memory, Root(), va) == Unmapped
    {
      t0sz := newT0sz;
      root := AllocatePage();
      if root == 0 {
        return;
      }
      ttbr0 := root;
      RootGeometryValid(root, newT0sz);
      var count := RootEntryCount(newT0sz);
      memory := memory[root := ZeroWords()[..count] + memory[root][count..]];
      places := map[root := Place(RootLevel(newT0sz), 0, 0, 0)];
      EmptyTree(memory, Root());
      PoolTake(old(free), old(memory), map[], memory, Place(RootLevel(newT0sz), 0, 0, 0));
    }

    /** Build the tables for a terminated list of regions, in order, in a new root table. */
    method ArmConfigureMmu(memoryTable: seq<Region>, physicalAddressBits: nat, el: ExceptionLevel)
      returns (status: Status)
      requires PoolOk(free, memory, map[])
      requires 32 <= physicalAddressBits <= 52
      requires |Regions(memoryTable)| < |memoryTable|
      requires RegionsFit(Regions(memoryTable), Pow2(AddressBits(physicalAddressBits)))
      modifies this
      ensures status == Unsupported <==> el.EL3?
      ensures status == Success ==> Valid() && Pages() == (set p | p in old(free))
      ensures status == Success ==> Root().Limit() == Pow2(AddressBits(physicalAddressBits))
      ensures status == Success ==> MapsExactly(memory, Root(), Regions(memoryTable), el)
      ensures status == Success ==> MapsKinds(memory, Root(), Regions(memoryTable), el)
      ensures status == Success ==> AllWholePages(Regions(memoryTable))
      ensures status == InvalidParameter ==> !AllWholePages(Regions(memoryTable))
      ensures status == OutOfResources && AllAligned(Regions(memoryTable)) ==>
                |free| <= 1 && |old(free)| <= PagesNeeded(Regions(memoryTable))
    {
      var newT0sz := ChooseT0SZ(physicalAddressBits);
      if el.EL3? {
        return Unsupported;
      }
      var root := CreateRootTable(newT0sz);
      if root == 0 {
        return OutOfResources;
      }
      RootTableSpansAddressSpace(root, newT0sz);
      status := FillFrom(memoryTable, el);
      if status == Success {
        FlatMapSaysKinds(memory, Root(), Regions(memoryTable), el);
      } else {
        free := free + [root];
      }
    }

    /** The loop of ArmConfigureMmu over the terminated list. */
    method FillFrom(memoryTable: seq<Region>, el: ExceptionLevel) returns (status: Status)
      requires Valid() && |Regions(memoryTable)| < |memoryTable|
      requires RegionsFit(Regions(memoryTable), Root().Limit())
      requires MapsExactly(memory, Root(), [], el)
      modifies `memory, `free, `places
      ensures Valid() && Pages() == old(Pages())
      ensures status != Unsupported
      ensures status == Success ==> MapsExactly(memory, Root(), Regions(memoryTable), el)
      ensures status == Success ==> AllWholePages(Regions(memoryTable))
      ensures status == InvalidParameter ==> !AllWholePages(Regions(memoryTable))
      ensures status == OutOfResources && AllAligned(Regions(memoryTable)) ==>
                free == [] && |old(free)| < PagesNeeded(Regions(memoryTable))
    {
      ghost var regions := Regions(memoryTable);
      ghost var filled := [];
      var k := 0;
      while memoryTable[k].length != 0
        invariant k <= |regions| && filled == regions[..k] && AllWholePages(filled)
        invariant Valid() && Pages() == old(Pages()) && MapsExactly(memory, Root(), filled, el)
        invariant |old(free)| <= |free| + PagesNeeded(filled)
        decreases |regions| - k
      {
        RegionAt(memoryTable, k);
        NextRegion(regions, k, Root().Limit());
        PrefixGrows(regions, k);
        status := FillNext(filled, memoryTable[k], el);
        if status != Success {
          return;
        }
        filled := filled + [memoryTable[k]];
        k := k + 1;
      }
      assert filled == regions;
      status := Success;
    }

    method FillNext(ghost before: seq<Region>, region: Region, el: ExceptionLevel) returns (status: Status)
      requires Valid() && region.length != 0
      requires region.virtualBase + region.length <= Root().Limit() && region.length < SPACE_48
      requires MapsExactly(memory, Root(), before, el)
      modifies `memory, `free, `places
      ensures Valid() && Pages() == old(Pages())
      ensures status != Unsupported && (status == InvalidParameter <==> !WholePages(region))
      ensures status == OutOfResources && PageAligned(region) ==>
                free == [] && |old(free)| < PagesBound(region.virtualBase, region.length)
      ensures status == Success ==> |old(free)| <= |free| + PagesNeeded(before + [region]) - PagesNeeded(before)
      ensures status == Success ==> MapsExactly(memory, Root(), before + [region], el)
    {
      ghost var reached;
      status, reached := FillTranslationTable(region, el);
      PagesNeededNext(before, region);
      if status == Success {
        MapsOneMore(old(memory), memory, Root(), before, region, el);
      }
    }
  }

  /** A region that starts in the middle of a page is reported as EFI_OUT_OF_RESOURCES with a page left. */
  method UnalignedStartIsOutOfResources() returns (mmu: ArmMmu, status: Status)
    ensures mmu.Valid() && status == OutOfResources && mmu.free == [0x2000]
  {
    mmu := new ArmMmu([0x1000, 0x2000]);
    var root := mmu.CreateRootTable(25);
    RootTableSpansAddressSpace(root, 25);
    Pow2Values();
    ghost var reached;
    status, reached := mmu.UpdateRegionMapping(0x800, SIZE_4KB, TT_AF, CLEAR_ALL);
  }
}
