/** The ARMv7 short-descriptor tables (ARM DDI 0406C, section B3.5): a first-level table of 4096
    sections or links to second-level tables of 256 small pages, and the hardware walk over them.

    A descriptor word is kept in three parts: its two low bits in `kind`, its address field as a number
    in `address`, and its other bits, in place, in `attributes`. */
module ArmV7Tables {
  import opened Arithmetic

  const SECTION_SIZE: nat := 0x10_0000
  const PAGE_SIZE: nat := 0x1000
  const SECTION_COUNT: nat := 4096
  const PAGE_COUNT: nat := 256
  const SPACE_32: nat := 0x1_0000_0000

  const TYPE_PAGE_TABLE: bv2 := 1
  const TYPE_SECTION: bv2 := 2
  const TYPE_PAGE: bv2 := 2
  const TYPE_PAGE_XN: bv2 := 3

  const SECTION_CACHE_POLICY_MASK: bv32 := 0x700C
  const SECTION_AP_MASK: bv32 := 0x8C00
  const SECTION_AP_RW_RW: bv32 := 0x0C00
  const SECTION_AP_RO_RO: bv32 := 0x8C00
  const SECTION_XN_MASK: bv32 := 0x10
  const SECTION_S_MASK: bv32 := 0x1_0000
  const SECTION_NG_MASK: bv32 := 0x2_0000
  const SECTION_SUPER: bv32 := 0x4_0000
  const SECTION_NS: bv32 := 0x8_0000
  const PAGE_CACHE_POLICY_MASK: bv32 := 0x1CC
  const PAGE_AP_MASK: bv32 := 0x230
  const PAGE_AP_RW_RW: bv32 := 0x30
  const PAGE_AP_RO_RO: bv32 := 0x230

  datatype Word = Word(kind: bv2, attributes: bv32, address: nat)

  const FAULT := Word(0, 0, 0)

  type Tables = map<nat, seq<Word>>

  /** The memory attributes of a translation: TEX, C, B, the access permissions APX:AP, S and nG. */
  datatype Fields = Fields(tex: bv32, c: bool, b: bool, ap: bv32, s: bool, nG: bool)

  const NO_ACCESS := Fields(0, false, false, 0, false, false)

  /** The NS bit and the domain of a first-level entry. */
  datatype Security = Security(ns: bool, domain: bv32)

  const SECURE := Security(false, 0)

  /** What an address translates to.  A fault remembers the level it happens at. */
  datatype Translation =
    | SectionFault
    | PageFault(security: Security)
    | Mapped(address: nat, xn: bool, fields: Fields, security: Security)

  /** A section: TEX in bits 14:12, C in 3, B in 2, APX in 15, AP in 11:10, S in 16, nG in 17. */
  function SectionFields(a: bv32): Fields {
    Fields((a >> 12) & 0x7, a & 0x8 != 0, a & 0x4 != 0, ((a >> 13) & 0x4) | ((a >> 10) & 0x3),
           a & 0x1_0000 != 0, a & 0x2_0000 != 0)
  }

  /** A small page: TEX in bits 8:6, C in 3, B in 2, APX in 9, AP in 5:4, S in 10, nG in 11. */
  function PageFields(a: bv32): Fields {
    Fields((a >> 6) & 0x7, a & 0x8 != 0, a & 0x4 != 0, ((a >> 7) & 0x4) | ((a >> 4) & 0x3),
           a & 0x400 != 0, a & 0x800 != 0)
  }

  /** A section: NS in bit 19, the domain in bits 8:5. */
  function SectionSecurity(a: bv32): Security {
    Security(a & 0x8_0000 != 0, (a >> 5) & 0xF)
  }

  /** A link to a page table: NS in bit 3, the domain in bits 8:5. */
  function PageTableSecurity(a: bv32): Security {
    Security(a & 0x8 != 0, (a >> 5) & 0xF)
  }

  /** ConvertSectionAttributesToPageAttributes for small pages, without XN. */
  function ToPageAttributes(a: bv32): bv32 {
    (((a & 0x7000) >> 6) | (a & 0xC))
    | ((a & SECTION_AP_MASK) >> 6)
    | (((a & SECTION_NG_MASK) >> 17) << 11)
    | (((a & SECTION_S_MASK) >> 16) << 10)
  }

  function SectionIndex(va: nat): (i: nat)
    requires va < SPACE_32
    ensures i < SECTION_COUNT
  {
    va / SECTION_SIZE
  }

  function PageIndex(va: nat): (j: nat)
    ensures j < PAGE_COUNT
  {
    va % SECTION_SIZE / PAGE_SIZE
  }

  function SectionTranslation(e: Word, va: nat): Translation {
    Mapped(e.address + va % SECTION_SIZE, e.attributes & 0x10 != 0, SectionFields(e.attributes),
           SectionSecurity(e.attributes))
  }

  function PageTranslation(e: Word, p: Word, va: nat): Translation {
    if p.kind == TYPE_PAGE || p.kind == TYPE_PAGE_XN
    then Mapped(p.address + va % PAGE_SIZE, p.kind == TYPE_PAGE_XN, PageFields(p.attributes),
                PageTableSecurity(e.attributes))
    else PageFault(PageTableSecurity(e.attributes))
  }

  function Walk(first: seq<Word>, tables: Tables, va: nat): Translation {
    if va >= SPACE_32 || |first| != SECTION_COUNT then SectionFault
    else
      var e := first[SectionIndex(va)];
      if e.kind == TYPE_SECTION then SectionTranslation(e, va)
      else if e.kind == TYPE_PAGE_TABLE && e.address in tables && |tables[e.address]| == PAGE_COUNT
      then PageTranslation(e, tables[e.address][PageIndex(va)], va)
      else SectionFault
  }

  /** Sections map to themselves; every linked table belongs to one first-level entry. */
  ghost predicate EntryOk(tables: Tables, owner: map<nat, nat>, i: nat, e: Word) {
    || e == FAULT
    || (e.kind == TYPE_SECTION && e.attributes & SECTION_SUPER == 0 && e.address == i * SECTION_SIZE)
    || (e.kind == TYPE_PAGE_TABLE && e.address in owner && owner[e.address] == i
        && e.address in tables && |tables[e.address]| == PAGE_COUNT)
  }

  predicate PageOk(p: Word) {
    p == FAULT || p.kind == TYPE_PAGE || p.kind == TYPE_PAGE_XN
  }

  ghost predicate TableOk(tables: Tables, t: nat)
    requires t in tables
  {
    forall j: nat {:trigger PageOk(tables[t][j])} | j < |tables[t]| :: PageOk(tables[t][j])
  }

  ghost predicate WellFormed(first: seq<Word>, tables: Tables, owner: map<nat, nat>) {
    && |first| == SECTION_COUNT
    && (forall i: nat {:trigger EntryOk(tables, owner, i, first[i])} | i < SECTION_COUNT ::
          EntryOk(tables, owner, i, first[i]))
    && (forall t {:trigger TableOk(tables, t)} | t in owner && t in tables :: TableOk(tables, t))
  }

  // ----- The change a call asks for -----

  datatype Cache = Keep | StronglyOrdered | NonCacheable | WriteThrough | WriteBack

  datatype Change = Change(xn: bool, readOnly: bool, cache: Cache)

  function PageCacheBits(c: Cache): bv32 {
    match c
    case Keep => 0
    case StronglyOrdered => 0
    case NonCacheable => 0x40
    case WriteThrough => 0x8
    case WriteBack => 0x4C
  }

  function SectionCacheBits(c: Cache): bv32 {
    match c
    case Keep => 0
    case StronglyOrdered => 0
    case NonCacheable => 0x1000
    case WriteThrough => 0x8
    case WriteBack => 0x100C
  }

  function PageEntryMask(c: Change): bv32 {
    PAGE_AP_MASK | (if c.cache.Keep? then 0 else PAGE_CACHE_POLICY_MASK)
  }

  function PageEntryValue(c: Change): bv32 {
    PageCacheBits(c.cache) | (if c.readOnly then PAGE_AP_RO_RO else PAGE_AP_RW_RW)
  }

  function SectionEntryMask(c: Change): bv32 {
    (SECTION_SUPER | SECTION_XN_MASK | SECTION_AP_MASK)
    | (if c.cache.Keep? then 0 else SECTION_CACHE_POLICY_MASK)
  }

  function SectionEntryValue(c: Change): bv32 {
    (SectionCacheBits(c.cache) | (if c.readOnly then SECTION_AP_RO_RO else SECTION_AP_RW_RW))
    | (if c.xn then SECTION_XN_MASK else 0)
  }

  function UpdatedAttributes(a: bv32, c: Change): bv32 {
    (a & !PageEntryMask(c)) | PageEntryValue(c)
  }

  function PageKind(xn: bool): bv2 {
    if xn then TYPE_PAGE_XN else TYPE_PAGE
  }

  function UpdatedPage(p: Word, c: Change): Word {
    Word(PageKind(c.xn), UpdatedAttributes(p.attributes, c), p.address)
  }

  function UpdatedSection(e: Word, c: Change, i: nat): Word {
    if e != FAULT
    then Word(TYPE_SECTION, (e.attributes & !SectionEntryMask(c)) | SectionEntryValue(c), e.address)
    else Word(TYPE_SECTION, SectionEntryValue(c), i * SECTION_SIZE)
  }

  /** What the change makes of the fields: read-write or read-only access at all privilege levels, and the
      TEX, C and B of the memory type if one is requested. */
  function ChangedFields(f: Fields, c: Change): Fields {
    var g := f.(ap := if c.readOnly then 0x7 else 0x3);
    match c.cache
    case Keep => g
    case StronglyOrdered => g.(tex := 0, c := false, b := false)
    case NonCacheable => g.(tex := 1, c := false, b := false)
    case WriteThrough => g.(tex := 0, c := true, b := false)
    case WriteBack => g.(tex := 1, c := true, b := true)
  }

  /** What the change makes of one translation. */
  function Changed(before: Translation, va: nat, c: Change): Translation {
    match before
    case Mapped(a, xn, fields, security) => Mapped(a, c.xn, ChangedFields(fields, c), security)
    case SectionFault => Mapped(va, c.xn, ChangedFields(NO_ACCESS, c), SECURE)
    case PageFault(security) => Mapped(va % PAGE_SIZE, c.xn, ChangedFields(NO_ACCESS, c), security)
  }

  /** `after` is `expected`, or `expected` with NS and domain reset by a conversion to pages. */
  predicate UpToSecurity(expected: Translation, after: Translation) {
    after == expected || (expected.Mapped? && after == expected.(security := SECURE))
  }

  /** Each reading of a word sees exactly the bits of its fields. */
  lemma SectionReadings(a: bv32, b: bv32)
    ensures SectionFields(a) == SectionFields(b) <==> (a ^ b) & 0x3_FC0C == 0
    ensures SectionSecurity(a) == SectionSecurity(b) <==> (a ^ b) & 0x8_01E0 == 0
  {
  }

  lemma PageReadings(a: bv32, b: bv32)
    ensures PageFields(a) == PageFields(b) <==> (a ^ b) & 0xFFC == 0
    ensures PageTableSecurity(a) == PageTableSecurity(b) <==> (a ^ b) & 0x1E8 == 0
  {
  }

  // ----- Bit facts -----

  /** Changing a section and converting it commute. */
  lemma ChangeThenConvert(a: bv32, c: Change)
    ensures ToPageAttributes((a & !SectionEntryMask(c)) | SectionEntryValue(c))
            == UpdatedAttributes(ToPageAttributes(a), c)
  {
  }

  /** For every word, a conversion keeps each field. */
  lemma ConvertKeepsFields(a: bv32)
    ensures PageFields(ToPageAttributes(a)) == SectionFields(a)
  {
  }

  /** For every word, updating a page-table entry gives each field what was requested. */
  lemma UpdatedPageFields(a: bv32, c: Change)
    ensures PageFields(UpdatedAttributes(a, c)) == ChangedFields(PageFields(a), c)
  {
  }

  /** The same for a section. */
  lemma UpdatedSectionFields(a: bv32, c: Change)
    ensures SectionFields((a & !SectionEntryMask(c)) | SectionEntryValue(c)) == ChangedFields(SectionFields(a), c)
  {
  }

  lemma ChangedSectionXn(a: bv32, c: Change)
    ensures (((a & !SectionEntryMask(c)) | SectionEntryValue(c)) & SECTION_XN_MASK != 0) == c.xn
  {
  }

  lemma ChangedSectionSuper(a: bv32, c: Change)
    ensures ((a & !SectionEntryMask(c)) | SectionEntryValue(c)) & SECTION_SUPER == 0
  {
  }

  lemma ChangedSectionSecurity(a: bv32, c: Change)
    ensures SectionSecurity((a & !SectionEntryMask(c)) | SectionEntryValue(c)) == SectionSecurity(a)
  {
  }

  lemma ValueOfZero(c: Change)
    ensures (0 & !SectionEntryMask(c)) | SectionEntryValue(c) == SectionEntryValue(c)
    ensures SectionFields(SectionEntryValue(c)) == ChangedFields(NO_ACCESS, c)
    ensures SectionFields(0) == PageFields(0) == NO_ACCESS
    ensures (SectionEntryValue(c) & SECTION_XN_MASK != 0) == c.xn
    ensures SectionEntryValue(c) & SECTION_SUPER == 0 && SectionSecurity(SectionEntryValue(c)) == SECURE
    ensures ToPageAttributes(0) == 0
  {
  }

  // ----- One edit of the tables -----

  lemma SectionUnique(i: nat, va: nat)
    requires i * SECTION_SIZE <= va < (i + 1) * SECTION_SIZE
    ensures va / SECTION_SIZE == i && va % SECTION_SIZE == va - i * SECTION_SIZE
  {
  }

  lemma PageUnique(i: nat, j: nat, va: nat)
    requires j < PAGE_COUNT
    requires i * SECTION_SIZE + j * PAGE_SIZE <= va < i * SECTION_SIZE + (j + 1) * PAGE_SIZE
    ensures va / SECTION_SIZE == i && PageIndex(va) == j
    ensures va % PAGE_SIZE == va - (i * SECTION_SIZE + j * PAGE_SIZE)
  {
    SectionUnique(i, va);
    DivModUnique(va, PAGE_COUNT * i + j, PAGE_SIZE, va - (i * SECTION_SIZE + j * PAGE_SIZE));
  }

  /** What a first-level entry that links no table says. */
  function SectionSays(e: Word, va: nat): Translation {
    if e.kind == TYPE_SECTION then SectionTranslation(e, va) else SectionFault
  }

  predicate SectionOk(e: Word, i: nat) {
    e == FAULT || (e.kind == TYPE_SECTION && e.attributes & SECTION_SUPER == 0 && e.address == i * SECTION_SIZE)
  }

  lemma ChangedSectionOk(e: Word, c: Change, i: nat)
    requires SectionOk(e, i)
    ensures SectionOk(UpdatedSection(e, c, i), i)
  {
    ChangedSectionSuper(e.attributes, c);
    ValueOfZero(c);
  }

  lemma ChangedTranslation(a: bv32, a': bv32, c: Change, address: nat, va: nat)
    requires SectionFields(a') == ChangedFields(SectionFields(a), c)
    requires (a' & SECTION_XN_MASK != 0) == c.xn && SectionSecurity(a') == SectionSecurity(a)
    ensures SectionTranslation(Word(TYPE_SECTION, a', address), va)
            == Changed(SectionTranslation(Word(TYPE_SECTION, a, address), va), va, c)
  {
  }

  lemma ChangedMappedSection(e: Word, c: Change, i: nat, va: nat)
    requires e != FAULT && e.kind == TYPE_SECTION
    ensures SectionSays(UpdatedSection(e, c, i), va) == Changed(SectionSays(e, va), va, c)
  {
    var a, a' := e.attributes, UpdatedSection(e, c, i).attributes;
    SectionFacts(a, a', c);
    ChangedTranslation(a, a', c, e.address, va);
    assert e == Word(TYPE_SECTION, a, e.address);
  }

  lemma SectionFacts(a: bv32, a': bv32, c: Change)
    requires a' == (a & !SectionEntryMask(c)) | SectionEntryValue(c)
    ensures SectionFields(a') == ChangedFields(SectionFields(a), c)
    ensures (a' & SECTION_XN_MASK != 0) == c.xn && SectionSecurity(a') == SectionSecurity(a)
  {
    UpdatedSectionFields(a, c);
    ChangedSectionXn(a, c);
    ChangedSectionSecurity(a, c);
  }

  lemma ChangedFaultSection(c: Change, i: nat, va: nat)
    requires va / SECTION_SIZE == i
    ensures SectionSays(UpdatedSection(FAULT, c, i), va) == Changed(SectionSays(FAULT, va), va, c)
  {
    ValueOfZero(c);
  }

  lemma ChangeSectionKeepsShape(first: seq<Word>, tables: Tables, owner: map<nat, nat>, i: nat, e: Word)
    requires WellFormed(first, tables, owner) && i < SECTION_COUNT && SectionOk(e, i)
    ensures WellFormed(first[i := e], tables, owner)
  {
    var first' := first[i := e];
    forall k: nat | k < SECTION_COUNT
      ensures EntryOk(tables, owner, k, first'[k])
    {
      assert EntryOk(tables, owner, k, first[k]);
    }
  }

  /** UpdateSectionEntries on an entry that is not a page table changes exactly that section. */
  lemma ChangeSection(first: seq<Word>, tables: Tables, owner: map<nat, nat>, i: nat, c: Change)
    requires WellFormed(first, tables, owner) && i < SECTION_COUNT
    requires first[i].kind != TYPE_PAGE_TABLE
    ensures var first' := first[i := UpdatedSection(first[i], c, i)];
            && WellFormed(first', tables, owner)
            && forall va: nat | va < SPACE_32 :: Walk(first', tables, va) ==
                 if SectionIndex(va) == i then Changed(Walk(first, tables, va), va, c) else Walk(first, tables, va)
  {
    var e := first[i];
    assert EntryOk(tables, owner, i, e);
    ChangedSectionOk(e, c, i);
    ChangeSectionKeepsShape(first, tables, owner, i, UpdatedSection(e, c, i));
    var first' := first[i := UpdatedSection(e, c, i)];
    forall va: nat | va < SPACE_32
      ensures Walk(first', tables, va) ==
        if SectionIndex(va) == i then Changed(Walk(first, tables, va), va, c) else Walk(first, tables, va)
    {
      if SectionIndex(va) == i {
        assert Walk(first, tables, va) == SectionSays(e, va);
        if e == FAULT {
          ChangedFaultSection(c, i, va);
        } else {
          ChangedMappedSection(e, c, i, va);
        }
      }
    }
  }

  lemma ChangedPageTranslation(e: Word, kind: bv2, a: bv32, a': bv32, address: nat, c: Change, va: nat)
    requires kind == TYPE_PAGE || kind == TYPE_PAGE_XN
    requires PageFields(a') == ChangedFields(PageFields(a), c)
    ensures PageTranslation(e, Word(PageKind(c.xn), a', address), va)
            == Changed(PageTranslation(e, Word(kind, a, address), va), va, c)
  {
  }

  lemma ChangedFaultTranslation(e: Word, a': bv32, c: Change, va: nat)
    requires PageFields(a') == ChangedFields(NO_ACCESS, c)
    ensures PageTranslation(e, Word(PageKind(c.xn), a', 0), va) == Changed(PageTranslation(e, FAULT, va), va, c)
  {
  }

  lemma ChangedFaultPage(e: Word, c: Change, va: nat)
    ensures PageOk(UpdatedPage(FAULT, c))
    ensures PageTranslation(e, UpdatedPage(FAULT, c), va) == Changed(PageTranslation(e, FAULT, va), va, c)
  {
    ValueOfZero(c);
    UpdatedPageFields(0, c);
    ChangedFaultTranslation(e, UpdatedAttributes(0, c), c, va);
  }

  lemma ChangedMappedPage(e: Word, p: Word, c: Change, va: nat)
    requires p.kind == TYPE_PAGE || p.kind == TYPE_PAGE_XN
    ensures PageOk(UpdatedPage(p, c))
    ensures PageTranslation(e, UpdatedPage(p, c), va) == Changed(PageTranslation(e, p, va), va, c)
  {
    UpdatedPageFields(p.attributes, c);
    ChangedPageTranslation(e, p.kind, p.attributes, UpdatedAttributes(p.attributes, c), p.address, c, va);
  }

  lemma ChangedPageWord(e: Word, p: Word, c: Change, va: nat)
    requires PageOk(p)
    ensures PageOk(UpdatedPage(p, c))
    ensures PageTranslation(e, UpdatedPage(p, c), va) == Changed(PageTranslation(e, p, va), va, c)
  {
    if p == FAULT {
      ChangedFaultPage(e, c, va);
    } else {
      ChangedMappedPage(e, p, c, va);
    }
  }

  function WritePage(tables: Tables, t: nat, j: nat, p: Word): Tables
    requires t in tables && j < |tables[t]|
  {
    tables[t := tables[t][j := p]]
  }

  lemma ChangePageKeepsShape(first: seq<Word>, tables: Tables, owner: map<nat, nat>, t: nat, j: nat, p: Word)
    requires WellFormed(first, tables, owner)
    requires t in tables && |tables[t]| == PAGE_COUNT && j < PAGE_COUNT && PageOk(p)
    ensures WellFormed(first, WritePage(tables, t, j, p), owner)
  {
    var tables' := WritePage(tables, t, j, p);
    forall k: nat | k < SECTION_COUNT
      ensures EntryOk(tables', owner, k, first[k])
    {
      assert EntryOk(tables, owner, k, first[k]);
    }
    forall u | u in owner && u in tables'
      ensures TableOk(tables', u)
    {
      assert TableOk(tables, u);
      forall k: nat | k < |tables'[u]|
        ensures PageOk(tables'[u][k])
      {
        assert (u == t && k == j) || PageOk(tables[u][k]);
      }
    }
  }

  /** UpdatePageEntries on one page of a page table changes exactly that page. */
  lemma ChangePage(first: seq<Word>, tables: Tables, owner: map<nat, nat>, i: nat, j: nat, c: Change)
    requires WellFormed(first, tables, owner) && i < SECTION_COUNT && j < PAGE_COUNT
    requires first[i].kind == TYPE_PAGE_TABLE
    requires first[i].address in tables && |tables[first[i].address]| == PAGE_COUNT
    ensures var t := first[i].address;
            var tables' := WritePage(tables, t, j, UpdatedPage(tables[t][j], c));
            && WellFormed(first, tables', owner)
            && forall va: nat | va < SPACE_32 :: Walk(first, tables', va) ==
                 if SectionIndex(va) == i && PageIndex(va) == j then Changed(Walk(first, tables, va), va, c)
                 else Walk(first, tables, va)
  {
    var e := first[i];
    var t := e.address;
    assert EntryOk(tables, owner, i, e);
    assert TableOk(tables, t);
    var p := tables[t][j];
    assert PageOk(p);
    var tables' := WritePage(tables, t, j, UpdatedPage(p, c));
    ChangedPageWord(e, p, c, 0);
    ChangePageKeepsShape(first, tables, owner, t, j, UpdatedPage(p, c));
    forall va: nat | va < SPACE_32
      ensures Walk(first, tables', va) ==
        if SectionIndex(va) == i && PageIndex(va) == j then Changed(Walk(first, tables, va), va, c)
        else Walk(first, tables, va)
    {
      assert EntryOk(tables, owner, SectionIndex(va), first[SectionIndex(va)]);
      ChangedPageWord(e, p, c, va);
    }
  }

  /** The page table that ConvertSectionToPages writes for a section entry. */
  function ConvertedPages(e: Word, i: nat): (words: seq<Word>)
    ensures |words| == PAGE_COUNT
  {
    seq(PAGE_COUNT, (j: nat) =>
      Word(PageKind(e.attributes & SECTION_XN_MASK != 0), ToPageAttributes(e.attributes),
           i * SECTION_SIZE + j * PAGE_SIZE))
  }

  function PageTableWord(n: nat): Word {
    Word(TYPE_PAGE_TABLE, 0, n)
  }

  lemma ConvertKeepsShape(first: seq<Word>, tables: Tables, owner: map<nat, nat>, i: nat, n: nat)
    requires WellFormed(first, tables, owner) && i < SECTION_COUNT && n !in owner
    requires first[i].kind != TYPE_PAGE_TABLE
    ensures WellFormed(first[i := PageTableWord(n)], tables[n := ConvertedPages(first[i], i)], owner[n := i])
  {
    var first' := first[i := PageTableWord(n)];
    var tables' := tables[n := ConvertedPages(first[i], i)];
    forall k: nat | k < SECTION_COUNT
      ensures EntryOk(tables', owner[n := i], k, first'[k])
    {
      assert EntryOk(tables, owner, k, first[k]);
    }
    forall u | u in owner[n := i] && u in tables'
      ensures TableOk(tables', u)
    {
      assert u == n || TableOk(tables, u);
    }
  }

  lemma ConvertedPageAt(e: Word, i: nat, n: nat, va: nat)
    requires SectionOk(e, i) && va / SECTION_SIZE == i
    ensures var before := SectionSays(e, va);
            var after := PageTranslation(PageTableWord(n), ConvertedPages(e, i)[PageIndex(va)], va);
            && (e.kind == TYPE_SECTION ==> before.Mapped? && after == before.(security := SECURE))
            && (e == FAULT ==> before.SectionFault? && after == Mapped(va, false, NO_ACCESS, SECURE))
  {
    var j := PageIndex(va);
    assert i * SECTION_SIZE + j * PAGE_SIZE + va % PAGE_SIZE == va;
    ValueOfZero(Change(false, false, Keep));
  }

  /** ConvertSectionToPages keeps every translation outside the section; inside, it keeps everything but
      NS and domain of a mapped section, and it maps an unmapped one to itself without access rights. */
  lemma Convert(first: seq<Word>, tables: Tables, owner: map<nat, nat>, i: nat, n: nat)
    requires WellFormed(first, tables, owner) && i < SECTION_COUNT && n !in owner
    requires first[i].kind != TYPE_PAGE_TABLE
    ensures var first' := first[i := PageTableWord(n)];
            var tables' := tables[n := ConvertedPages(first[i], i)];
            && WellFormed(first', tables', owner[n := i])
            && forall va: nat | va < SPACE_32 ::
                 var before, after := Walk(first, tables, va), Walk(first', tables', va);
                 if SectionIndex(va) != i then after == before
                 else if first[i] == FAULT then before.SectionFault? && after == Mapped(va, false, NO_ACCESS, SECURE)
                 else before.Mapped? && after == before.(security := SECURE)
  {
    var first' := first[i := PageTableWord(n)];
    var tables' := tables[n := ConvertedPages(first[i], i)];
    ConvertKeepsShape(first, tables, owner, i, n);
    assert EntryOk(tables, owner, i, first[i]);
    forall va: nat | va < SPACE_32
      ensures
        var before, after := Walk(first, tables, va), Walk(first', tables', va);
        if SectionIndex(va) != i then after == before
        else if first[i] == FAULT then before.SectionFault? && after == Mapped(va, false, NO_ACCESS, SECURE)
        else before.Mapped? && after == before.(security := SECURE)
    {
      assert EntryOk(tables, owner, SectionIndex(va), first[SectionIndex(va)]);
      if SectionIndex(va) == i {
        ConvertedPageAt(first[i], i, n, va);
      }
    }
  }

  /** Conversion preserves all translations exactly when the section is mapped, secure and in domain 0. */
  lemma ConvertPreservesExactlyWhen(first: seq<Word>, tables: Tables, owner: map<nat, nat>, i: nat, n: nat)
    requires WellFormed(first, tables, owner) && i < SECTION_COUNT && n !in owner
    requires first[i].kind != TYPE_PAGE_TABLE
    ensures (forall va: nat | va < SPACE_32 ::
               Walk(first[i := PageTableWord(n)], tables[n := ConvertedPages(first[i], i)], va)
               == Walk(first, tables, va))
            <==> first[i].kind == TYPE_SECTION && SectionSecurity(first[i].attributes) == SECURE
  {
    Convert(first, tables, owner, i, n);
    assert EntryOk(tables, owner, i, first[i]);
    var va := i * SECTION_SIZE;
    assert SectionIndex(va) == i;
    assert first[i].kind == TYPE_SECTION ==> Walk(first, tables, va) == SectionTranslation(first[i], va);
    forall va: nat | va < SPACE_32 && SectionIndex(va) == i && first[i].kind == TYPE_SECTION
      ensures Walk(first, tables, va) == SectionTranslation(first[i], va)
    {
    }
  }

  /** Changing a section directly and converting it first and changing its pages then come to the same
      for every address of the section, up to NS and domain. */
  lemma SectionAndPagesAgree(e: Word, i: nat, n: nat, c: Change, va: nat)
    requires SectionOk(e, i) && va / SECTION_SIZE == i
    ensures UpToSecurity(SectionSays(UpdatedSection(e, c, i), va),
                         PageTranslation(PageTableWord(n), UpdatedPage(ConvertedPages(e, i)[PageIndex(va)], c), va))
  {
    var p := ConvertedPages(e, i)[PageIndex(va)];
    ConvertedPageAt(e, i, n, va);
    ChangedPageWord(PageTableWord(n), p, c, va);
    if e == FAULT {
      ChangedFaultSection(c, i, va);
      ValueOfZero(c);
    } else {
      ChangedMappedSection(e, c, i, va);
    }
  }
}
