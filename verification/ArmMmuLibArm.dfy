/** The ARMv7 page-table editor: ArmSetMemoryAttributes cuts a range into sections and pages and
    converts sections to page tables where the range needs it. */
module ArmMmuLibArm {
  import opened ArmV7Tables
  import opened ArmV7Ranges

  datatype Status = Success | OutOfResources | Unsupported

  const EFI_MEMORY_UC: bv64 := 0x1
  const EFI_MEMORY_WC: bv64 := 0x2
  const EFI_MEMORY_WT: bv64 := 0x4
  const EFI_MEMORY_WB: bv64 := 0x8
  const EFI_MEMORY_XP: bv64 := 0x4000
  const EFI_MEMORY_RO: bv64 := 0x2_0000
  const CACHE_ATTRIBUTE_MASK: bv64 := 0x101F
  const MAX_ADDRESS: nat := SPACE_32 - 1

  function CacheOf(gcd: bv64): Cache {
    if gcd & EFI_MEMORY_UC != 0 then StronglyOrdered
    else if gcd & EFI_MEMORY_WC != 0 then NonCacheable
    else if gcd & EFI_MEMORY_WT != 0 then WriteThrough
    else if gcd & EFI_MEMORY_WB != 0 then WriteBack
    else Keep
  }

  /** A memory type that is requested but not one of the four known ones is refused. */
  predicate SupportedType(gcd: bv64) {
    CacheOf(gcd) != Keep || gcd & CACHE_ATTRIBUTE_MASK == 0
  }

  function ChangeOf(gcd: bv64): Change {
    Change(gcd & EFI_MEMORY_XP != 0, gcd & EFI_MEMORY_RO != 0, CacheOf(gcd))
  }

  /** The memory type that the UEFI attributes ask for, as TEX, C and B: strongly ordered, normal not cached,
      write-through, write-back with allocation; of several the first. */
  predicate HasMemoryType(f: Fields, gcd: bv64) {
    if gcd & 0x1 != 0 then f.tex == 0 && !f.c && !f.b
    else if gcd & 0x2 != 0 then f.tex == 1 && !f.c && !f.b
    else if gcd & 0x4 != 0 then f.tex == 0 && f.c && !f.b
    else gcd & 0x8 != 0 && f.tex == 1 && f.c && f.b
  }

  /** Each attribute, by its place in the request and in the fields. */
  lemma RequestedFields(f: Fields, gcd: bv64)
    ensures var (c, g) := (ChangeOf(gcd), ChangedFields(f, ChangeOf(gcd)));
            && (c.xn <==> gcd & 0x4000 != 0)
            && g.ap == (if gcd & 0x2_0000 != 0 then 0x7 else 0x3)
            && g.s == f.s && g.nG == f.nG
            && (if gcd & 0xF != 0 then HasMemoryType(g, gcd) else g.tex == f.tex && g.c == f.c && g.b == f.b)
  {
  }

  lemma SupportedTypes(gcd: bv64)
    ensures SupportedType(gcd) <==> gcd & 0xF != 0 || gcd & 0x101F == 0
  {
  }

  /** An address in the part that a call has reached is mapped no-exec exactly if EFI_MEMORY_XP was asked for,
      read-only exactly if EFI_MEMORY_RO was, with the requested memory type, or the one it had if none was
      requested, and with the shareability and nG it had. */
  lemma AttributesAfterCall(before: State, after: State, lo: nat, hi: nat, end: nat, gcd: bv64, va: nat)
    requires RegionChanged(before, after, lo, hi, end, ChangeOf(gcd)) && lo <= va < hi && va < SPACE_32
    ensures var (w, r) := (WalkAt(before, va), WalkAt(after, va));
            && r.Mapped?
            && (r.xn <==> gcd & 0x4000 != 0)
            && r.fields.ap == (if gcd & 0x2_0000 != 0 then 0x7 else 0x3)
            && (gcd & 0xF != 0 ==> HasMemoryType(r.fields, gcd))
            && (w.Mapped? ==> r.fields.s == w.fields.s && r.fields.nG == w.fields.nG)
            && (w.Mapped? && gcd & 0xF == 0 ==>
                  r.fields.tex == w.fields.tex && r.fields.c == w.fields.c && r.fields.b == w.fields.b)
  {
    assert WalkAt(after, va) == Expected(before, va, lo, hi, end, ChangeOf(gcd));
    var p := Prepared(before, va, lo, hi, end);
    RequestedFields(if p.Mapped? then p.fields else NO_ACCESS, gcd);
  }

  lemma PageBlock(a: nat, va: nat)
    requires a % PAGE_SIZE == 0 && a < SPACE_32 && va < SPACE_32
    ensures SectionIndex(va) == SectionIndex(a) && PageIndex(va) == PageIndex(a) <==> a <= va < a + PAGE_SIZE
  {
    var i, j := SectionIndex(a), PageIndex(a);
    assert a == i * SECTION_SIZE + j * PAGE_SIZE;
    if a <= va < a + PAGE_SIZE {
      PageUnique(i, j, va);
    }
  }

  predicate InBounds(va: nat, base: nat, length: nat) {
    base <= va < base + length
  }

  /** A page is changed in a page table, or in a section that the range cuts and that is converted for it. */
  ghost predicate PagesAllowed(first: seq<Word>, base: nat, length: nat, lo: nat, end: nat)
    requires |first| == SECTION_COUNT && base + length <= SPACE_32
  {
    forall va: nat | InBounds(va, base, length) ::
      IsPageTable(first, SectionIndex(va)) || Cut(SectionIndex(va), lo, end)
  }

  ghost predicate PageTablesStay(before: seq<Word>, after: seq<Word>) {
    |before| == |after| && forall k: nat | k < |before| :: IsPageTable(before, k) ==> IsPageTable(after, k)
  }

  lemma PageAllowed(before: seq<Word>, first: seq<Word>, base: nat, length: nat, lo: nat, end: nat, a: nat)
    requires |before| == SECTION_COUNT && base <= a < base + length <= SPACE_32
    requires PagesAllowed(before, base, length, lo, end) && PageTablesStay(before, first)
    ensures IsPageTable(first, SectionIndex(a)) || Cut(SectionIndex(a), lo, end)
  {
    assert InBounds(a, base, length);
  }

  lemma OneSection(first: seq<Word>, k: nat, lo: nat, end: nat)
    requires |first| == SECTION_COUNT && k < SECTION_COUNT && IsPageTable(first, k)
    ensures PagesAllowed(first, k * SECTION_SIZE, SECTION_SIZE, lo, end)
    ensures k * SECTION_SIZE % PAGE_SIZE == 0
  {
    forall va: nat | InBounds(va, k * SECTION_SIZE, SECTION_SIZE)
      ensures IsPageTable(first, SectionIndex(va))
    {
      SectionUnique(k, va);
    }
  }

  lemma PageInSection(a: nat)
    requires a % PAGE_SIZE == 0 && a < SPACE_32
    ensures SectionIndex(a) * SECTION_SIZE <= a && a + PAGE_SIZE <= (SectionIndex(a) + 1) * SECTION_SIZE
  {
    assert a == SectionIndex(a) * SECTION_SIZE + PageIndex(a) * PAGE_SIZE;
  }

  /** The end of the part of the range that lies in the 32-bit address space. */
  function Clipped(base: nat, length: nat): nat {
    if base > MAX_ADDRESS then base
    else if length <= MAX_ADDRESS - base + 1 then base + length else SPACE_32
  }

  /** MIN (Length, MAX_ADDRESS - BaseAddress + 1) */
  function ClippedLength(base: nat, length: nat): (n: nat)
    requires base <= MAX_ADDRESS
    ensures base + n == Clipped(base, length) <= SPACE_32
  {
    if length <= MAX_ADDRESS - base + 1 then length else MAX_ADDRESS - base + 1
  }

  lemma ClippedPages(base: nat, length: nat)
    requires base <= MAX_ADDRESS && base % PAGE_SIZE == 0 && length % PAGE_SIZE == 0
    ensures ClippedLength(base, length) % PAGE_SIZE == 0
  {
    PageMultiple(SPACE_32 / PAGE_SIZE - base / PAGE_SIZE);
  }

  lemma PageMultiple(q: int)
    ensures (q * PAGE_SIZE) % PAGE_SIZE == 0
  {
  }

  lemma SectionMultiple(q: int)
    ensures (q * SECTION_SIZE) % SECTION_SIZE == 0 && (q * SECTION_SIZE) % PAGE_SIZE == 0
  {
    PageMultiple(q * 256);
    assert q * SECTION_SIZE == (q * 256) * PAGE_SIZE;
  }

  lemma PagesAdd(a: nat, b: nat)
    requires a % PAGE_SIZE == 0 && b % PAGE_SIZE == 0
    ensures (a + b) % PAGE_SIZE == 0
    ensures b <= a ==> (a - b) % PAGE_SIZE == 0
  {
    PageMultiple(a / PAGE_SIZE + b / PAGE_SIZE);
    PageMultiple(a / PAGE_SIZE - b / PAGE_SIZE);
  }

  lemma SectionsAdd(a: nat, b: nat)
    requires a % SECTION_SIZE == 0 && b % SECTION_SIZE == 0
    ensures (a + b) % SECTION_SIZE == 0
  {
    SectionMultiple(a / SECTION_SIZE + b / SECTION_SIZE);
  }

  /** A remainder of whole sections is a number of whole pages, and what it leaves is whole sections. */
  lemma SectionsArePages(a: nat)
    requires a % PAGE_SIZE == 0
    ensures (a % SECTION_SIZE) % PAGE_SIZE == 0
    ensures (a - a % SECTION_SIZE) % SECTION_SIZE == 0 && (a - a % SECTION_SIZE) % PAGE_SIZE == 0
    ensures (a + (SECTION_SIZE - a % SECTION_SIZE)) % SECTION_SIZE == 0
  {
    var q, p := a / SECTION_SIZE, a / PAGE_SIZE;
    assert a == q * SECTION_SIZE + a % SECTION_SIZE && a == p * PAGE_SIZE;
    SectionMultiple(q);
    SectionMultiple(q + 1);
    PageMultiple(p - q * 256);
  }

  /** As many whole sections as fit at a section boundary; otherwise pages up to the next boundary, or
      to the end if less than a section would be left after it. */
  function ChunkLength(base: nat, remaining: nat): nat
    requires remaining > 0
  {
    if base % SECTION_SIZE == 0 && remaining >= SECTION_SIZE then
      remaining - remaining % SECTION_SIZE
    else
      var toBoundary := SECTION_SIZE - base % SECTION_SIZE;
      if toBoundary + SECTION_SIZE > remaining then remaining else toBoundary
  }

  /** A chunk is whole pages, whole sections if it starts like one, and a chunk of pages ends at the end of
      the range or where a chunk of sections can start. */
  lemma ChunkLengthOk(base: nat, remaining: nat)
    requires base % PAGE_SIZE == 0 && remaining % PAGE_SIZE == 0 && remaining > 0
    ensures var chunk := ChunkLength(base, remaining);
            && 0 < chunk <= remaining && chunk % PAGE_SIZE == 0
            && (base + chunk) % PAGE_SIZE == 0 && (remaining - chunk) % PAGE_SIZE == 0
            && if base % SECTION_SIZE == 0 && remaining >= SECTION_SIZE then chunk % SECTION_SIZE == 0
               else chunk == remaining || ((base + chunk) % SECTION_SIZE == 0 && remaining - chunk >= SECTION_SIZE)
  {
    var chunk := ChunkLength(base, remaining);
    SectionsArePages(base);
    SectionsArePages(remaining);
    assert SECTION_SIZE % PAGE_SIZE == 0;
    PagesAdd(SECTION_SIZE, base % SECTION_SIZE);
    PagesAdd(base, chunk);
    PagesAdd(remaining, chunk);
  }

  /** Where the loop over the chunks can be: at the start of the range, between sections, or at the end. */
  predicate BetweenChunks(base: nat, remaining: nat, lo: nat) {
    && base % PAGE_SIZE == 0 && remaining % PAGE_SIZE == 0
    && (base == lo || base % SECTION_SIZE == 0 || remaining == 0)
  }

  lemma NextChunk(base: nat, remaining: nat, lo: nat)
    requires BetweenChunks(base, remaining, lo) && remaining > 0
    ensures var chunk := ChunkLength(base, remaining);
            && 0 < chunk <= remaining && chunk % PAGE_SIZE == 0
            && (base % SECTION_SIZE == 0 && remaining >= SECTION_SIZE ==> chunk % SECTION_SIZE == 0)
            && BetweenChunks(base + chunk, remaining - chunk, lo)
  {
    ChunkLengthOk(base, remaining);
    var chunk := ChunkLength(base, remaining);
    if base % SECTION_SIZE == 0 && chunk % SECTION_SIZE == 0 {
      SectionsAdd(base, chunk);
    }
  }

  /** A chunk of pages holds only addresses of sections that the range cuts. */
  lemma PageChunkIsCut(base: nat, remaining: nat, lo: nat, va: nat)
    requires lo <= base && remaining > 0 && (base == lo || base % SECTION_SIZE == 0)
    requires !(base % SECTION_SIZE == 0 && remaining >= SECTION_SIZE)
    requires base <= va < base + ChunkLength(base, remaining)
    ensures Cut(va / SECTION_SIZE, lo, base + remaining)
  {
    var k := base / SECTION_SIZE;
    assert base == k * SECTION_SIZE + base % SECTION_SIZE;
    if va < (k + 1) * SECTION_SIZE {
      SectionUnique(k, va);
    } else {
      SectionUnique(k + 1, va);
    }
  }

  lemma PageChunkAllowed(first: seq<Word>, base: nat, remaining: nat, lo: nat)
    requires lo <= base && remaining > 0 && (base == lo || base % SECTION_SIZE == 0)
    requires !(base % SECTION_SIZE == 0 && remaining >= SECTION_SIZE)
    requires |first| == SECTION_COUNT && base + remaining <= SPACE_32
    ensures ChunkLength(base, remaining) <= remaining
    ensures PagesAllowed(first, base, ChunkLength(base, remaining), lo, base + remaining)
  {
    forall va: nat | InBounds(va, base, ChunkLength(base, remaining))
      ensures Cut(va / SECTION_SIZE, lo, base + remaining)
    {
      PageChunkIsCut(base, remaining, lo, va);
    }
  }

  class ArmMmu {
    /** The first-level table and the pages that second-level tables are made of. */
    var first: seq<Word>
    var tables: Tables
    var free: seq<nat>
    ghost var owner: map<nat, nat>

    ghost predicate PoolOk()
      reads this
    {
      && (forall k: nat | k < |free| :: free[k] !in owner && free[k] in tables && |tables[free[k]]| == PAGE_COUNT)
      && (forall j: nat, k: nat | j < k < |free| :: free[j] != free[k])
      && 0 !in free
    }

    ghost predicate Valid()
      reads this
    {
      WellFormed(first, tables, owner) && PoolOk()
    }

    ghost function Now(): State
      reads this
    {
      State(first, tables, |free|)
    }

    method AllocatePage() returns (page: nat)
      modifies `free
      ensures old(free) == [] ==> page == 0 && free == []
      ensures old(free) != [] ==> page == old(free)[0] && free == old(free)[1..]
    {
      if free == [] {
        return 0;
      }
      page := free[0];
      free := free[1..];
    }

    method ConvertSectionToPages(i: nat) returns (status: Status)
      requires Valid() && i < SECTION_COUNT && first[i].kind != TYPE_PAGE_TABLE
      modifies this
      ensures Valid()
      ensures status == Success || status == OutOfResources
      ensures status == OutOfResources ==> free == [] && Now() == old(Now()) && owner == old(owner)
      ensures status == Success ==> first[i].kind == TYPE_PAGE_TABLE
      ensures status == Success ==>
                && first == old(first)[i := PageTableWord(first[i].address)]
                && tables == old(tables)[first[i].address := ConvertedPages(old(first[i]), i)]
                && first[i].address !in old(owner)
                && |free| == |old(free)| - 1
    {
      var section := first[i];
      var kind := PageKind(section.attributes & SECTION_XN_MASK != 0);
      var attributes := ToPageAttributes(section.attributes);
      var n := AllocatePage();
      if n == 0 {
        return OutOfResources;
      }
      var index := 0;
      while index < PAGE_COUNT
        invariant index <= PAGE_COUNT
        invariant n in tables && |tables[n]| == PAGE_COUNT && tables == old(tables)[n := tables[n]]
        invariant first == old(first) && owner == old(owner) && free == old(free)[1..]
        invariant tables[n][..index] == ConvertedPages(section, i)[..index]
      {
        tables := WritePage(tables, n, index, Word(kind, attributes, i * SECTION_SIZE + index * PAGE_SIZE));
        index := index + 1;
      }
      assert tables[n] == ConvertedPages(section, i);
      Convert(first, old(tables), owner, i, n);
      first := first[i := PageTableWord(n)];
      owner := owner[n := i];
      status := Success;
    }

    /** Convert section `i` if it is not a page table yet. */
    method ConvertIfSection(i: nat) returns (status: Status)
      requires Valid() && i < SECTION_COUNT
      modifies this
      ensures Valid()
      ensures status == Success || status == OutOfResources
      ensures status == OutOfResources ==> free == [] && Now() == old(Now()) && !IsPageTable(first, i)
      ensures status == Success ==> Converted(old(Now()), Now(), i)
    {
      status := Success;
      if first[i].kind != TYPE_PAGE_TABLE {
        ghost var s, t := Now(), owner;
        status := ConvertSectionToPages(i);
        if status == Success {
          Convert(s.first, s.tables, t, i, first[i].address);
        }
      }
    }

    /** Change one page of a page table. */
    method ChangePageEntry(a: nat, c: Change)
      requires Valid() && a % PAGE_SIZE == 0 && a < SPACE_32 && IsPageTable(first, SectionIndex(a))
      modifies `tables
      ensures Valid()
      ensures forall va: nat | va < SPACE_32 ::
                WalkAt(Now(), va) ==
                  if a <= va < a + PAGE_SIZE then Changed(WalkAt(old(Now()), va), va, c) else WalkAt(old(Now()), va)
    {
      var i, j := SectionIndex(a), PageIndex(a);
      assert EntryOk(tables, owner, i, first[i]);
      ghost var s := Now();
      ChangePage(first, tables, owner, i, j, c);
      var table := first[i].address;
      var current := tables[table][j];
      if current != UpdatedPage(current, c) {
        tables := WritePage(tables, table, j, UpdatedPage(current, c));
      }
      assert s.tables[table][j := current] == s.tables[table];
      forall va: nat | va < SPACE_32
        ensures WalkAt(Now(), va) == if a <= va < a + PAGE_SIZE then Changed(WalkAt(s, va), va, c) else WalkAt(s, va)
      {
        PageBlock(a, va);
      }
    }

    /** One turn of the loop of UpdatePageEntries. */
    method UpdatePageEntry(a: nat, c: Change, ghost s0: State, ghost lo: nat, ghost end: nat) returns (status: Status)
      requires Valid() && a % PAGE_SIZE == 0 && lo <= a && a + PAGE_SIZE <= end <= SPACE_32
      requires IsPageTable(first, SectionIndex(a)) || Cut(SectionIndex(a), lo, end)
      requires RegionChanged(s0, Now(), lo, a, end, c)
      modifies this
      ensures Valid()
      ensures status == Success || status == OutOfResources
      ensures status == Success ==> RegionChanged(s0, Now(), lo, a + PAGE_SIZE, end, c)
      ensures status == OutOfResources ==>
                free == [] && Now() == old(Now()) && ToConvert(first, SectionIndex(a), lo, end)
      ensures PageTablesStay(old(first), first)
    {
      ghost var s := Now();
      status := ConvertIfSection(SectionIndex(a));
      if status == Success {
        ghost var s1 := Now();
        ChangePageEntry(a, c);
        PageInSection(a);
        ConvertedThenChanged(s, s1, Now(), SectionIndex(a), lo, a, a + PAGE_SIZE, end, c);
        Advance(s0, s, Now(), SectionIndex(a), lo, a, a + PAGE_SIZE, end, c);
      }
    }

    /** The loop of UpdatePageEntries: change page after page, converting sections on the way. */
    method ChangePages(baseAddress: nat, length: nat, c: Change, ghost s0: State, ghost lo: nat, ghost end: nat)
      returns (status: Status, ghost reached: nat)
      requires Valid()
      requires baseAddress % PAGE_SIZE == 0 && length % PAGE_SIZE == 0 && baseAddress + length <= end <= SPACE_32
      requires lo <= baseAddress && RegionChanged(s0, Now(), lo, baseAddress, end, c)
      requires PagesAllowed(first, baseAddress, length, lo, end)
      modifies this
      ensures Valid() && baseAddress <= reached <= baseAddress + length
      ensures RegionChanged(s0, Now(), lo, reached, end, c)
      ensures status == Success ==> reached == baseAddress + length
      ensures status == OutOfResources ==>
                && free == [] && reached < baseAddress + length
                && ToConvert(first, SectionIndex(reached), lo, end)
      ensures status != Unsupported
      ensures PageTablesStay(old(first), first)
    {
      status := Success;
      var a, p, count := baseAddress, 0, length / PAGE_SIZE;
      while p < count
        invariant p <= count && Valid() && a == baseAddress + p * PAGE_SIZE && a % PAGE_SIZE == 0
        invariant status == Success && RegionChanged(s0, Now(), lo, a, end, c)
        invariant PageTablesStay(old(first), first)
      {
        PageAllowed(old(first), first, baseAddress, length, lo, end, a);
        status := UpdatePageEntry(a, c, s0, lo, end);
        if status != Success {
          reached := a;
          return;
        }
        PagesAdd(a, PAGE_SIZE);
        p := p + 1;
        a := a + PAGE_SIZE;
      }
      reached := a;
    }

    method UpdatePageEntries(
      baseAddress: nat, length: nat, gcd: bv64, ghost s0: State, ghost lo: nat, ghost end: nat)
      returns (status: Status, ghost reached: nat)
      requires Valid()
      requires baseAddress % PAGE_SIZE == 0 && length % PAGE_SIZE == 0 && baseAddress + length <= end <= SPACE_32
      requires lo <= baseAddress && RegionChanged(s0, Now(), lo, baseAddress, end, ChangeOf(gcd))
      requires PagesAllowed(first, baseAddress, length, lo, end)
      modifies this
      ensures Valid() && baseAddress <= reached <= baseAddress + length
      ensures RegionChanged(s0, Now(), lo, reached, end, ChangeOf(gcd))
      ensures status == Unsupported <==> !SupportedType(gcd)
      ensures status == Unsupported ==> Now() == old(Now()) && reached == baseAddress
      ensures status == Success ==> reached == baseAddress + length
      ensures status == OutOfResources ==>
                && free == [] && reached < baseAddress + length
                && ToConvert(first, SectionIndex(reached), lo, end)
      ensures PageTablesStay(old(first), first)
    {
      if !SupportedType(gcd) {
        return Unsupported, baseAddress;
      }
      status, reached := ChangePages(baseAddress, length, ChangeOf(gcd), s0, lo, end);
    }

    /** Change one section that is not a page table and lies inside the range. */
    method UpdateSectionEntry(i: nat, c: Change, ghost s0: State, ghost lo: nat, ghost end: nat)
      requires Valid() && i < SECTION_COUNT && !IsPageTable(first, i)
      requires lo <= i * SECTION_SIZE && (i + 1) * SECTION_SIZE <= end <= SPACE_32
      requires RegionChanged(s0, Now(), lo, i * SECTION_SIZE, end, c)
      modifies `first
      ensures Valid() && RegionChanged(s0, Now(), lo, (i + 1) * SECTION_SIZE, end, c)
    {
      ghost var s := Now();
      ChangeSection(first, tables, owner, i, c);
      var current := first[i];
      if current != UpdatedSection(current, c, i) {
        first := first[i := UpdatedSection(current, c, i)];
      }
      assert s.first[i := current] == s.first;
      forall va: nat | va < SPACE_32
        ensures SectionIndex(va) == i <==> i * SECTION_SIZE <= va < (i + 1) * SECTION_SIZE
      {
        SectionUnique(SectionIndex(va), va);
      }
      assert BlockDone(s, Now(), i, lo, i * SECTION_SIZE, (i + 1) * SECTION_SIZE, end, c);
      Advance(s0, s, Now(), i, lo, i * SECTION_SIZE, (i + 1) * SECTION_SIZE, end, c);
    }

    method UpdateSectionEntries(
      baseAddress: nat, length: nat, gcd: bv64, ghost s0: State, ghost lo: nat, ghost end: nat)
      returns (status: Status)
      requires Valid()
      requires baseAddress % SECTION_SIZE == 0 && length % SECTION_SIZE == 0 && length > 0
      requires baseAddress + length <= end <= SPACE_32
      requires lo <= baseAddress && RegionChanged(s0, Now(), lo, baseAddress, end, ChangeOf(gcd))
      modifies this
      ensures Valid()
      ensures status == if SupportedType(gcd) then Success else Unsupported
      ensures status == Success ==> RegionChanged(s0, Now(), lo, baseAddress + length, end, ChangeOf(gcd))
      ensures status == Unsupported ==> Now() == old(Now())
    {
      if !SupportedType(gcd) {
        return Unsupported;
      }
      status := ChangeSections(baseAddress / SECTION_SIZE, length / SECTION_SIZE, gcd, ChangeOf(gcd), s0, lo, end);
    }

    /** One turn of that loop. */
    method ChangeWholeSection(k: nat, gcd: bv64, ghost c: Change, ghost s0: State, ghost lo: nat, ghost end: nat)
      returns (status: Status)
      requires Valid() && k < SECTION_COUNT && SupportedType(gcd) && c == ChangeOf(gcd)
      requires lo <= k * SECTION_SIZE && (k + 1) * SECTION_SIZE <= end <= SPACE_32
      requires RegionChanged(s0, Now(), lo, k * SECTION_SIZE, end, c)
      modifies this
      ensures Valid() && status == Success
      ensures RegionChanged(s0, Now(), lo, (k + 1) * SECTION_SIZE, end, c)
    {
      if first[k].kind == TYPE_PAGE_TABLE {
        OneSection(first, k, lo, end);
        ghost var reached;
        status, reached := UpdatePageEntries(k * SECTION_SIZE, SECTION_SIZE, gcd, s0, lo, end);
        InsideIsNotCut(k, lo, end, reached);
      } else {
        UpdateSectionEntry(k, ChangeOf(gcd), s0, lo, end);
        status := Success;
      }
    }

    /** The loop of UpdateSectionEntries: page tables are forwarded to UpdatePageEntries. */
    method ChangeSections(
      firstLevelIdx: nat, count: nat, gcd: bv64, ghost c: Change, ghost s0: State, ghost lo: nat, ghost end: nat)
      returns (status: Status)
      requires Valid() && firstLevelIdx + count <= SECTION_COUNT
      requires SupportedType(gcd) && c == ChangeOf(gcd)
      requires lo <= firstLevelIdx * SECTION_SIZE && (firstLevelIdx + count) * SECTION_SIZE <= end <= SPACE_32
      requires RegionChanged(s0, Now(), lo, firstLevelIdx * SECTION_SIZE, end, c)
      modifies this
      ensures Valid() && status == Success
      ensures RegionChanged(s0, Now(), lo, (firstLevelIdx + count) * SECTION_SIZE, end, c)
    {
      status := Success;
      var i := 0;
      while i < count
        invariant i <= count && Valid() && status == Success
        invariant RegionChanged(s0, Now(), lo, (firstLevelIdx + i) * SECTION_SIZE, end, c)
      {
        status := ChangeWholeSection(firstLevelIdx + i, gcd, c, s0, lo, end);
        i := i + 1;
      }
    }

    /** Change the permissions, and the memory type if one is given, of a range of pages. */
    method ArmSetMemoryAttributes(baseAddress: nat, length: nat, gcd: bv64)
      returns (status: Status, ghost reached: nat)
      requires Valid()
      requires baseAddress % PAGE_SIZE == 0 && length % PAGE_SIZE == 0
      modifies this
      ensures Valid()
      ensures status == Unsupported <==> baseAddress > MAX_ADDRESS || (length != 0 && !SupportedType(gcd))
      ensures status == Unsupported ==> Now() == old(Now())
      ensures RegionChanged(old(Now()), Now(), baseAddress, reached, Clipped(baseAddress, length), ChangeOf(gcd))
      ensures status == Success ==> reached == Clipped(baseAddress, length)
      ensures status == Success ==>
                (Exact(old(Now()), Now(), baseAddress, reached, ChangeOf(gcd))
                 <==> CutSectionsArePlain(old(first), baseAddress, reached))
      ensures status == OutOfResources ==>
                && free == [] && baseAddress <= reached < Clipped(baseAddress, length)
                && ToConvert(old(first), reached / SECTION_SIZE, baseAddress, Clipped(baseAddress, length))
      ensures |old(free)| >= 2 ==> status != OutOfResources
    {
      ghost var s0 := Now();
      reached := baseAddress;
      ghost var end := Clipped(baseAddress, length);
      if baseAddress > MAX_ADDRESS {
        NothingChanged(s0, baseAddress, end, ChangeOf(gcd));
        return Unsupported, reached;
      }
      ClippedPages(baseAddress, length);
      var remaining := ClippedLength(baseAddress, length);
      if remaining == 0 {
        NothingChanged(s0, baseAddress, end, ChangeOf(gcd));
        ExactOnSuccess(s0, s0, owner, baseAddress, baseAddress, ChangeOf(gcd));
        return Success, reached;
      }
      ghost var owner0 := owner;
      status, reached := ChangeChunks(baseAddress, remaining, gcd);
      if status == Success {
        ExactOnSuccess(s0, Now(), owner0, baseAddress, reached, ChangeOf(gcd));
      }
    }

    /** The loop of ArmSetMemoryAttributes. */
    method ChangeChunks(baseAddress: nat, length: nat, gcd: bv64) returns (status: Status, ghost reached: nat)
      requires Valid() && length > 0 && baseAddress + length <= SPACE_32
      requires baseAddress % PAGE_SIZE == 0 && length % PAGE_SIZE == 0
      modifies this
      ensures Valid()
      ensures status == Unsupported <==> !SupportedType(gcd)
      ensures status == Unsupported ==> Now() == old(Now())
      ensures RegionChanged(old(Now()), Now(), baseAddress, reached, baseAddress + length, ChangeOf(gcd))
      ensures status == Success ==> reached == baseAddress + length
      ensures status == OutOfResources ==>
                && free == [] && baseAddress <= reached < baseAddress + length
                && ToConvert(old(first), reached / SECTION_SIZE, baseAddress, baseAddress + length)
      ensures |old(free)| >= 2 ==> status != OutOfResources
    {
      ghost var s0, end := Now(), baseAddress + length;
      NothingChanged(s0, baseAddress, end, ChangeOf(gcd));
      reached := baseAddress;
      var base: nat, remaining: nat := baseAddress, length;
      status := Success;
      while remaining > 0
        invariant Valid() && base + remaining == end && base >= baseAddress
        invariant BetweenChunks(base, remaining, baseAddress)
        invariant RegionChanged(s0, Now(), baseAddress, base, end, ChangeOf(gcd))
        invariant status == Success
        invariant !SupportedType(gcd) ==> remaining != 0 && Now() == s0
        decreases remaining
      {
        status, base, remaining, reached := ChangeChunk(base, remaining, gcd, s0, baseAddress, end);
        if status != Success {
          return;
        }
      }
      reached := base;
    }

    /** One turn of that loop. */
    method ChangeChunk(base: nat, remaining: nat, gcd: bv64, ghost s0: State, ghost lo: nat, ghost end: nat)
      returns (status: Status, next: nat, left: nat, ghost reached: nat)
      requires Valid() && BetweenChunks(base, remaining, lo) && remaining > 0
      requires lo <= base && base + remaining == end <= SPACE_32
      requires RegionChanged(s0, Now(), lo, base, end, ChangeOf(gcd))
      modifies this
      ensures Valid() && base < next && next + left == end && base <= reached <= next
      ensures BetweenChunks(next, left, lo)
      ensures RegionChanged(s0, Now(), lo, reached, end, ChangeOf(gcd))
      ensures status == Unsupported <==> !SupportedType(gcd)
      ensures status == Unsupported ==> Now() == old(Now()) && reached == base
      ensures status == Success ==> reached == next
      ensures status == OutOfResources ==>
                free == [] && reached < next && ToConvert(s0.first, reached / SECTION_SIZE, lo, end) && s0.left <= 1
    {
      NextChunk(base, remaining, lo);
      var chunkLength := ChunkLength(base, remaining);
      var asSections := base % SECTION_SIZE == 0 && remaining >= SECTION_SIZE;
      if !asSections {
        PageChunkAllowed(first, base, remaining, lo);
      }
      status, reached := UpdateChunk(base, chunkLength, asSections, gcd, s0, lo, end);
      next, left := base + chunkLength, remaining - chunkLength;
      if status == OutOfResources {
        OutOfPages(s0, Now(), lo, reached, end, ChangeOf(gcd));
      }
    }

    /** One chunk: sections at a section boundary if at least one fits, otherwise pages. */
    method UpdateChunk(
      base: nat, chunkLength: nat, asSections: bool, gcd: bv64, ghost s0: State, ghost lo: nat, ghost end: nat)
      returns (status: Status, ghost reached: nat)
      requires Valid() && lo <= base && 0 < chunkLength && base + chunkLength <= end <= SPACE_32
      requires if asSections then base % SECTION_SIZE == 0 && chunkLength % SECTION_SIZE == 0
               else base % PAGE_SIZE == 0 && chunkLength % PAGE_SIZE == 0
                    && PagesAllowed(first, base, chunkLength, lo, end)
      requires RegionChanged(s0, Now(), lo, base, end, ChangeOf(gcd))
      modifies this
      ensures Valid() && base <= reached <= base + chunkLength
      ensures RegionChanged(s0, Now(), lo, reached, end, ChangeOf(gcd))
      ensures status == Unsupported <==> !SupportedType(gcd)
      ensures status == Unsupported ==> Now() == old(Now()) && reached == base
      ensures status == Success ==> reached == base + chunkLength
      ensures status == OutOfResources ==>
                free == [] && reached < base + chunkLength && ToConvert(first, SectionIndex(reached), lo, end)
    {
      if asSections {
        status := UpdateSectionEntries(base, chunkLength, gcd, s0, lo, end);
        reached := if status == Success then base + chunkLength else base;
      } else {
        status, reached := UpdatePageEntries(base, chunkLength, gcd, s0, lo, end);
      }
    }
  }

  /** What a caller can check before the call. */
  ghost predicate CutSectionsArePlain(first: seq<Word>, lo: nat, end: nat) {
    forall k: nat | Cut(k, lo, end) :: IsPageTable(first, k) || PlainSection(first, k)
  }

  /** A complete call has its flat meaning if and only if each section that the range cuts is a page table or
      is mapped, secure and in domain 0. */
  lemma ExactOnSuccess(s0: State, s: State, owner: map<nat, nat>, lo: nat, end: nat, c: Change)
    requires WellFormed(s0.first, s0.tables, owner) && lo <= end <= SPACE_32
    requires RegionChanged(s0, s, lo, end, end, c)
    ensures Exact(s0, s, lo, end, c)
            <==> CutSectionsArePlain(s0.first, lo, end)
  {
    ExactlyWhen(s0, s, owner, lo, end, end, c);
    forall k: nat
      ensures Cut(k, lo, end) <==> FoundCut(k, lo, end, end)
    {
    }
  }

  /** Section `i` was a page table or has become one, with what that does to its translations. */
  ghost predicate Converted(s: State, s': State, i: nat) {
    var convert := !IsPageTable(s.first, i);
    && |s.first| == |s'.first| == SECTION_COUNT
    && (forall va: nat | va < SPACE_32 ::
          WalkAt(s', va) == if convert && SectionIndex(va) == i then AsPages(WalkAt(s, va), va) else WalkAt(s, va))
    && (forall j: nat | j < SECTION_COUNT :: IsPageTable(s'.first, j) <==> IsPageTable(s.first, j) || j == i)
    && s.left == s'.left + (if convert then 1 else 0)
  }

  lemma ConvertedThenChanged(
    s: State, s1: State, s2: State, k: nat, lo: nat, a: nat, b: nat, end: nat, c: Change)
    requires k < SECTION_COUNT && (IsPageTable(s.first, k) || Cut(k, lo, end)) && Converted(s, s1, k)
    requires s2.first == s1.first && s2.left == s1.left
    requires forall va: nat | va < SPACE_32 ::
               WalkAt(s2, va) == if a <= va < b then Changed(WalkAt(s1, va), va, c) else WalkAt(s1, va)
    ensures BlockDone(s, s2, k, lo, a, b, end, c)
  {
  }

  /** A section inside the range is not one that the range cuts. */
  lemma InsideIsNotCut(k: nat, lo: nat, end: nat, va: nat)
    requires lo <= k * SECTION_SIZE && (k + 1) * SECTION_SIZE <= end
    ensures va / SECTION_SIZE == k ==> !Cut(va / SECTION_SIZE, lo, end)
  {
  }

  /** A section that is still to be converted was to be converted from the start, and at most one other
      table has been made. */
  lemma OutOfPages(s0: State, s: State, lo: nat, reached: nat, end: nat, c: Change)
    requires RegionChanged(s0, s, lo, reached, end, c) && reached < end <= SPACE_32
    ensures ToConvert(s.first, reached / SECTION_SIZE, lo, end) ==>
              && ToConvert(s0.first, reached / SECTION_SIZE, lo, end)
              && s0.left <= s.left + 1
  {
    var k := reached / SECTION_SIZE;
    assert IsPageTable(s.first, k) <==> IsPageTable(s0.first, k) || FoundCut(k, lo, reached, end);
    if ToConvert(s.first, k, lo, end) {
      CutIsAtEnd(k, lo, end);
    }
  }
}
