/** MemoryPeim: pick the RAM configuration, select the platform descriptors that apply, report them as
    HOBs, and hand the selected ones to the page-table editor. */
module MemoryInitPei {
  import opened Arithmetic
  import opened Vmsa64
  import opened RegionMapping
  import opened MemoryAttributes
  import opened ArmMmuLibAArch64
  import Terminated

  const SIZE_MB: nat := 0x10_0000
  const UINT64_RANGE: nat := 0x1_0000_0000_0000_0000
  const MAX_ARM_MEMORY_REGION_DESCRIPTOR_COUNT: nat := 128

  datatype HobOption = NoHob | AddMem | AddDev | HobOnlyNoCacheSetting | Mem4G | Mem6G | Mem8G | MaxMem

  datatype PlatformRegion = PlatformRegion(
    address: nat, length: nat, option: HobOption,
    resourceType: nat, resourceAttribute: nat, memoryType: nat, armAttributes: RegionAttributes)

  datatype Hob =
    | ResourceDescriptor(resourceType: nat, resourceAttribute: nat, start: nat, length: nat)
    | MemoryAllocation(start: nat, length: nat, memoryType: nat)

  /** The banks of the device tree's memory nodes, added up in 64 bits. */
  function TotalMemory(banks: seq<nat>): nat {
    if banks == [] then 0 else (TotalMemory(banks[..|banks| - 1]) + banks[|banks| - 1]) % UINT64_RANGE
  }

  function MemoryConfig(total: nat): HobOption {
    if 7168 * SIZE_MB < total < 8704 * SIZE_MB then Mem8G
    else if 5120 * SIZE_MB < total < 6656 * SIZE_MB then Mem6G
    else Mem4G
  }

  function Sum(banks: seq<nat>): nat {
    if banks == [] then 0 else banks[0] + Sum(banks[1..])
  }

  lemma {:induction false} SumOfLast(banks: seq<nat>)
    requires banks != []
    ensures Sum(banks) == Sum(banks[..|banks| - 1]) + banks[|banks| - 1]
  {
    if |banks| > 1 {
      SumOfLast(banks[1..]);
      assert banks[1..][..|banks| - 2] == banks[..|banks| - 1][1..];
    }
  }

  lemma {:induction false} TotalIsSum(banks: seq<nat>)
    ensures TotalMemory(banks) == Sum(banks) % UINT64_RANGE
  {
    if banks != [] {
      TotalIsSum(banks[..|banks| - 1]);
      SumOfLast(banks);
    }
  }

  /** Totals between 5 and 6.5 GiB and between 7 and 8.5 GiB select their own configurations; any other
      total, also one beyond, selects the one for 4 GiB. */
  lemma ConfigOfTotal(banks: seq<nat>)
    ensures var total := Sum(banks) % UINT64_RANGE;
            var config := MemoryConfig(TotalMemory(banks));
            && (config == Mem6G <==> 0x1_4000_0000 < total < 0x1_A000_0000)
            && (config == Mem8G <==> 0x1_C000_0000 < total < 0x2_2000_0000)
            && (config == Mem4G <==> total <= 0x1_4000_0000 || 0x1_A000_0000 <= total <= 0x1_C000_0000
                                     || 0x2_2000_0000 <= total)
  {
    TotalIsSum(banks);
  }

  predicate SizeSpecific(o: HobOption) {
    o.Mem4G? || o.Mem6G? || o.Mem8G?
  }

  /** A descriptor is mapped unless it is for HOBs only or for another RAM size. */
  predicate InMmuTable(d: PlatformRegion, config: HobOption) {
    d.option != HobOnlyNoCacheSetting && (SizeSpecific(d.option) ==> d.option == config)
  }

  predicate Reported(d: PlatformRegion, config: HobOption) {
    if SizeSpecific(d.option) then d.option == config
    else d.option.AddMem? || d.option.AddDev? || d.option.HobOnlyNoCacheSetting?
  }

  function ToRegion(d: PlatformRegion): Region {
    Region(d.address, d.length, d.armAttributes)
  }

  function DescriptorHobs(d: PlatformRegion): seq<Hob> {
    [ResourceDescriptor(d.resourceType, d.resourceAttribute, d.address, d.length),
     MemoryAllocation(d.address, d.length, d.memoryType)]
  }

  /** The descriptors before the terminator. */
  function Listed(platformMap: seq<PlatformRegion>): (r: seq<PlatformRegion>)
    ensures r <= platformMap
    ensures forall k: nat | k < |r| :: platformMap[k].length != 0
    ensures |r| == |platformMap| || platformMap[|r|].length == 0
  {
    Terminated.Before(platformMap, (d: PlatformRegion) => d.length == 0)
  }

  /** The regions that the page-table editor is given for the first `n` descriptors. */
  function Selected(ds: seq<PlatformRegion>, config: HobOption, n: nat): (r: seq<Region>)
    requires n <= |ds|
  {
    if n == 0 then []
    else Selected(ds, config, n - 1) + (if InMmuTable(ds[n - 1], config) then [ToRegion(ds[n - 1])] else [])
  }

  function HobsOf(ds: seq<PlatformRegion>, config: HobOption, n: nat): seq<Hob>
    requires n <= |ds|
  {
    if n == 0 then []
    else HobsOf(ds, config, n - 1) + (if Reported(ds[n - 1], config) then DescriptorHobs(ds[n - 1]) else [])
  }

  function AllSelected(platformMap: seq<PlatformRegion>, config: HobOption): seq<Region> {
    Selected(Listed(platformMap), config, |Listed(platformMap)|)
  }

  function AllHobs(platformMap: seq<PlatformRegion>, config: HobOption): seq<Hob> {
    HobsOf(Listed(platformMap), config, |Listed(platformMap)|)
  }

  const TERMINATOR := Region(0, 0, UncachedUnbuffered)

  predicate Covers(d: PlatformRegion, va: nat) {
    d.address <= va < d.address + d.length
  }

  /** The platform map as one address sees it: the last selected descriptor that covers it decides. */
  ghost predicate DecidedBy(ds: seq<PlatformRegion>, config: HobOption, k: nat, va: nat) {
    && k < |ds| && InMmuTable(ds[k], config) && Covers(ds[k], va)
    && forall j: nat | k < j < |ds| && InMmuTable(ds[j], config) :: !Covers(ds[j], va)
  }

  ghost predicate Unselected(ds: seq<PlatformRegion>, config: HobOption, va: nat) {
    forall j: nat | j < |ds| && InMmuTable(ds[j], config) :: !Covers(ds[j], va)
  }

  /** Every address is mapped as the kind of the descriptor that decides it, or not at all. */
  ghost predicate MapsPlatform(m: Memory, g: Geometry, ds: seq<PlatformRegion>, config: HobOption, el: ExceptionLevel) {
    && (forall va: nat, k: nat | DecidedBy(ds, config, k, va) ::
          MappedAs(Walk(m, g, va), va, ds[k].armAttributes, el))
    && forall va: nat | Unselected(ds, config, va) :: Walk(m, g, va) == Unmapped
  }

  function PlatformMapping(
    ds: seq<PlatformRegion>, config: HobOption, n: nat, va: nat, el: ExceptionLevel): Mapping
    requires n <= |ds|
  {
    MappingOf(Selected(ds, config, n), va, el)
  }

  lemma MappingOfLast(ds: seq<PlatformRegion>, config: HobOption, n: nat, va: nat, el: ExceptionLevel)
    requires n < |ds|
    ensures PlatformMapping(ds, config, n + 1, va, el) ==
              if InMmuTable(ds[n], config) && Covers(ds[n], va)
              then RegionMappingAt(ToRegion(ds[n]), va, el)
              else PlatformMapping(ds, config, n, va, el)
  {
    var before, all := Selected(ds, config, n), Selected(ds, config, n + 1);
    if InMmuTable(ds[n], config) {
      assert all[..|all| - 1] == before;
    } else {
      assert all == before;
    }
  }

  lemma {:induction false} DecidedMapping(
    ds: seq<PlatformRegion>, config: HobOption, n: nat, k: nat, va: nat, el: ExceptionLevel)
    requires k < n <= |ds| && DecidedBy(ds, config, k, va)
    ensures PlatformMapping(ds, config, n, va, el) == RegionMappingAt(ToRegion(ds[k]), va, el)
  {
    MappingOfLast(ds, config, n - 1, va, el);
    if k != n - 1 {
      DecidedMapping(ds, config, n - 1, k, va, el);
    }
  }

  lemma LastSelectedDescriptorWins(
    ds: seq<PlatformRegion>, config: HobOption, n: nat, k: nat, va: nat, el: ExceptionLevel)
    requires k < n <= |ds| && DecidedBy(ds, config, k, va)
    ensures MappedAs(PlatformMapping(ds, config, n, va, el), va, ds[k].armAttributes, el)
  {
    DecidedMapping(ds, config, n, k, va, el);
    RegionMappedAs(ToRegion(ds[k]), va, el);
  }

  lemma {:induction false} UnselectedIsUnmapped(
    ds: seq<PlatformRegion>, config: HobOption, n: nat, va: nat, el: ExceptionLevel)
    requires n <= |ds| && Unselected(ds, config, va)
    ensures PlatformMapping(ds, config, n, va, el) == Unmapped
  {
    if n != 0 {
      MappingOfLast(ds, config, n - 1, va, el);
      UnselectedIsUnmapped(ds, config, n - 1, va, el);
    }
  }

  lemma FlatMapSaysPlatform(m: Memory, g: Geometry, ds: seq<PlatformRegion>, config: HobOption, el: ExceptionLevel)
    requires forall va: nat :: Walk(m, g, va) == PlatformMapping(ds, config, |ds|, va, el)
    ensures MapsPlatform(m, g, ds, config, el)
  {
    forall va: nat, k: nat | DecidedBy(ds, config, k, va)
      ensures MappedAs(Walk(m, g, va), va, ds[k].armAttributes, el)
    {
      LastSelectedDescriptorWins(ds, config, |ds|, k, va, el);
    }
    forall va: nat | Unselected(ds, config, va)
      ensures Walk(m, g, va) == Unmapped
    {
      UnselectedIsUnmapped(ds, config, |ds|, va, el);
    }
  }

  // ----- What the HOBs say -----

  predicate ReportsResource(h: Hob, va: nat, resourceType: nat, attribute: nat) {
    h.ResourceDescriptor? && h.resourceType == resourceType && h.resourceAttribute == attribute
    && h.start <= va < h.start + h.length
  }

  predicate ReportsAllocation(h: Hob, va: nat, memoryType: nat) {
    h.MemoryAllocation? && h.memoryType == memoryType && h.start <= va < h.start + h.length
  }

  ghost predicate DescribedAs(
    ds: seq<PlatformRegion>, config: HobOption, n: nat, va: nat, resourceType: nat, attribute: nat)
    requires n <= |ds|
  {
    exists k: nat | k < n && Reported(ds[k], config) ::
      Covers(ds[k], va) && ds[k].resourceType == resourceType && ds[k].resourceAttribute == attribute
  }

  ghost predicate AllocatedAs(ds: seq<PlatformRegion>, config: HobOption, n: nat, va: nat, memoryType: nat)
    requires n <= |ds|
  {
    exists k: nat | k < n && Reported(ds[k], config) :: Covers(ds[k], va) && ds[k].memoryType == memoryType
  }

  lemma DescriptorHobsReport(d: PlatformRegion, va: nat, resourceType: nat, attribute: nat, memoryType: nat)
    ensures (exists h | h in DescriptorHobs(d) :: ReportsResource(h, va, resourceType, attribute))
            <==> Covers(d, va) && d.resourceType == resourceType && d.resourceAttribute == attribute
    ensures (exists h | h in DescriptorHobs(d) :: ReportsAllocation(h, va, memoryType))
            <==> Covers(d, va) && d.memoryType == memoryType
  {
    var hobs := DescriptorHobs(d);
    assert hobs[0] in hobs && hobs[1] in hobs;
  }

  /** The HOBs report an address with a resource type and attributes, and as allocated with a memory type,
      exactly if a reported descriptor with those covers it. */
  lemma {:induction false} HobsReport(
    ds: seq<PlatformRegion>, config: HobOption, n: nat, va: nat,
    resourceType: nat, attribute: nat, memoryType: nat)
    requires n <= |ds|
    ensures (exists h | h in HobsOf(ds, config, n) :: ReportsResource(h, va, resourceType, attribute))
            <==> DescribedAs(ds, config, n, va, resourceType, attribute)
    ensures (exists h | h in HobsOf(ds, config, n) :: ReportsAllocation(h, va, memoryType))
            <==> AllocatedAs(ds, config, n, va, memoryType)
  {
    if n != 0 {
      HobsReport(ds, config, n - 1, va, resourceType, attribute, memoryType);
      DescriptorHobsReport(ds[n - 1], va, resourceType, attribute, memoryType);
    }
  }

  /** The table MemoryPeim builds ends with the terminator and holds nothing else of length zero. */
  lemma RegionsOfTable(rs: seq<Region>)
    requires forall r | r in rs :: r.length != 0
    ensures Regions(rs + [TERMINATOR]) == rs
  {
    var table := rs + [TERMINATOR];
    assert forall k: nat | k < |rs| :: table[k] == rs[k] && rs[k] in rs;
    Terminated.BeforeFirst(table, (r: Region) => r.length == 0, |rs|);
  }

  lemma {:induction false} SelectedFit(ds: seq<PlatformRegion>, config: HobOption, n: nat, limit: nat)
    requires n <= |ds|
    requires DescriptorsFit(ds, limit) && forall k: nat | k < |ds| :: ds[k].length != 0
    ensures RegionsFit(Selected(ds, config, n), limit)
    ensures forall r | r in Selected(ds, config, n) :: r.length != 0
  {
    if n != 0 {
      SelectedFit(ds, config, n - 1, limit);
    }
  }

  lemma {:induction false} SelectedGrows(ds: seq<PlatformRegion>, config: HobOption, k: nat)
    requires k <= |ds|
    ensures |Selected(ds, config, k)| <= |Selected(ds, config, |ds|)|
    decreases |ds| - k
  {
    if k < |ds| {
      SelectedGrows(ds, config, k + 1);
    }
  }

  ghost predicate DescriptorsFit(ds: seq<PlatformRegion>, limit: nat) {
    forall k: nat | k < |ds| :: ds[k].address + ds[k].length <= limit && ds[k].length < SPACE_48
  }

  method StoreRegion(memoryTable: array<Region>, index: nat, r: Region)
    requires index < memoryTable.Length
    modifies memoryTable
    ensures memoryTable[..index + 1] == old(memoryTable[..index]) + [r]
  {
    memoryTable[index] := r;
  }

  /** One pass through the loop: report and store the descriptor, unless its option says otherwise. */
  method Process(d: PlatformRegion, config: HobOption, memoryTable: array<Region>, index: nat)
    returns (next: nat, hobs: seq<Hob>)
    requires index < memoryTable.Length
    modifies memoryTable
    ensures next == index + (if InMmuTable(d, config) then 1 else 0)
    ensures memoryTable[..next] == old(memoryTable[..index]) + (if InMmuTable(d, config) then [ToRegion(d)] else [])
    ensures hobs == if Reported(d, config) then DescriptorHobs(d) else []
  {
    next, hobs := index, [];
    if SizeSpecific(d.option) && d.option != config {
      return;
    }
    if d.option != NoHob && d.option != MaxMem {
      hobs := DescriptorHobs(d);
    }
    if d.option == HobOnlyNoCacheSetting {
      return;
    }
    StoreRegion(memoryTable, index, ToRegion(d));
    next := index + 1;
  }

  /** The loop over the descriptors: the table and the HOBs it produces. */
  method SelectRegions(platformMap: seq<PlatformRegion>, config: HobOption)
    returns (memoryTable: array<Region>, index: nat, hobs: seq<Hob>)
    requires |Listed(platformMap)| < |platformMap|
    requires |AllSelected(platformMap, config)| < MAX_ARM_MEMORY_REGION_DESCRIPTOR_COUNT
    ensures fresh(memoryTable) && memoryTable.Length == MAX_ARM_MEMORY_REGION_DESCRIPTOR_COUNT
    ensures index < memoryTable.Length
    ensures memoryTable[..index + 1] == AllSelected(platformMap, config) + [TERMINATOR]
    ensures hobs == AllHobs(platformMap, config)
  {
    ghost var ds := Listed(platformMap);
    memoryTable := new Region[MAX_ARM_MEMORY_REGION_DESCRIPTOR_COUNT](i => TERMINATOR);
    index, hobs := 0, [];
    var k := 0;
    while platformMap[k].length != 0
      invariant k <= |ds|
      invariant index == |Selected(ds, config, k)| < MAX_ARM_MEMORY_REGION_DESCRIPTOR_COUNT
      invariant memoryTable[..index] == Selected(ds, config, k)
      invariant hobs == HobsOf(ds, config, k)
      decreases |ds| - k
    {
      SelectedGrows(ds, config, k + 1);
      var added;
      index, added := Process(platformMap[k], config, memoryTable, index);
      hobs := hobs + added;
      k := k + 1;
    }
    StoreRegion(memoryTable, index, TERMINATOR);
  }

  /** Add up the banks and pick the configuration. */
  method SelectConfig(banks: seq<nat>) returns (config: HobOption)
    ensures config == MemoryConfig(TotalMemory(banks))
  {
    var memoryTotal, node := 0, 0;
    while node < |banks|
      invariant node <= |banks| && memoryTotal == TotalMemory(banks[..node])
    {
      memoryTotal := (memoryTotal + banks[node]) % UINT64_RANGE;
      assert banks[..node + 1][..node] == banks[..node];
      node := node + 1;
    }
    assert banks[..node] == banks;
    config := Mem4G;
    if 3072 * SIZE_MB < memoryTotal < 4608 * SIZE_MB {
      config := Mem4G;
    }
    if 5120 * SIZE_MB < memoryTotal < 6656 * SIZE_MB {
      config := Mem6G;
    }
    if 7168 * SIZE_MB < memoryTotal < 8704 * SIZE_MB {
      config := Mem8G;
    }
  }

  /** After MemoryPeim, every address walks to the attributes of the last selected descriptor that covers
      it, and to nothing if none does, unless configuring the MMU failed. */
  method MemoryPeim(
    mmu: ArmMmu, platformMap: seq<PlatformRegion>, banks: seq<nat>, physicalAddressBits: nat, el: ExceptionLevel)
    returns (status: Status, hobs: seq<Hob>)
    requires PoolOk(mmu.free, mmu.memory, map[])
    requires 32 <= physicalAddressBits <= 52
    requires |Listed(platformMap)| < |platformMap|
    requires |AllSelected(platformMap, MemoryConfig(TotalMemory(banks)))| < MAX_ARM_MEMORY_REGION_DESCRIPTOR_COUNT
    requires DescriptorsFit(Listed(platformMap), Pow2(AddressBits(physicalAddressBits)))
    modifies mmu
    ensures hobs == AllHobs(platformMap, MemoryConfig(TotalMemory(banks)))
    ensures status == Unsupported <==> el.EL3?
    ensures status == InvalidParameter ==>
              !AllWholePages(AllSelected(platformMap, MemoryConfig(TotalMemory(banks))))
    ensures status == OutOfResources && AllAligned(AllSelected(platformMap, MemoryConfig(TotalMemory(banks)))) ==>
              |old(mmu.free)| <= PagesNeeded(AllSelected(platformMap, MemoryConfig(TotalMemory(banks))))
    ensures status == Success ==> mmu.Valid()
    ensures status == Success ==> forall va: nat ::
              Walk(mmu.memory, mmu.Root(), va)
              == MappingOf(AllSelected(platformMap, MemoryConfig(TotalMemory(banks))), va, el)
    ensures status == Success ==>
              MapsPlatform(mmu.memory, mmu.Root(), Listed(platformMap), MemoryConfig(TotalMemory(banks)), el)
  {
    var config := SelectConfig(banks);
    var memoryTable, index;
    memoryTable, index, hobs := SelectRegions(platformMap, config);
    ghost var selected := AllSelected(platformMap, config);
    SelectedFit(Listed(platformMap), config, |Listed(platformMap)|, Pow2(AddressBits(physicalAddressBits)));
    RegionsOfTable(selected);
    status := mmu.ArmConfigureMmu(memoryTable[..index + 1], physicalAddressBits, el);
    if status == Success {
      FlatMapSaysPlatform(mmu.memory, mmu.Root(), Listed(platformMap), config, el);
    }
  }
}
