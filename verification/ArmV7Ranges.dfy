/** What changing a range of addresses does to every translation of the ARMv7 tables: a call works through
    its range page by page and section by section, and converts the sections that the range cuts. */
module ArmV7Ranges {
  import opened ArmV7Tables

  /** The memory at one moment, and how many pages the allocator still has. */
  datatype State = State(first: seq<Word>, tables: Tables, left: nat)

  function WalkAt(s: State, va: nat): Translation {
    Walk(s.first, s.tables, va)
  }

  /** Section `k` holds addresses of [lo, end) and others. */
  predicate Cut(k: nat, lo: nat, end: nat) {
    && lo < end && lo < (k + 1) * SECTION_SIZE && k * SECTION_SIZE < end
    && (k * SECTION_SIZE < lo || end < (k + 1) * SECTION_SIZE)
  }

  /** A call for [lo, end) that has come as far as `hi` has found section `k` cut. */
  predicate FoundCut(k: nat, lo: nat, hi: nat, end: nat) {
    Cut(k, lo, end) && lo < hi && k * SECTION_SIZE < hi
  }

  predicate IsPageTable(first: seq<Word>, k: nat) {
    k < |first| && first[k].kind == TYPE_PAGE_TABLE
  }

  /** What a conversion makes of a translation of its section. */
  function AsPages(w: Translation, va: nat): Translation {
    match w
    case SectionFault => Mapped(va, false, NO_ACCESS, SECURE)
    case PageFault(_) => w
    case Mapped(_, _, _, _) => w.(security := SECURE)
  }

  /** The translation that the change is applied to. */
  function Prepared(s: State, va: nat, lo: nat, hi: nat, end: nat): Translation
    requires va < SPACE_32
  {
    if FoundCut(SectionIndex(va), lo, hi, end) && !IsPageTable(s.first, SectionIndex(va))
    then AsPages(WalkAt(s, va), va) else WalkAt(s, va)
  }

  function Expected(s: State, va: nat, lo: nat, hi: nat, end: nat, c: Change): Translation
    requires va < SPACE_32
  {
    var w := Prepared(s, va, lo, hi, end);
    if lo <= va < hi then Changed(w, va, c) else w
  }

  /** The tables that have been made: at most one for each end of the range. */
  function TablesMade(lo: nat, hi: nat, end: nat): (n: nat)
    ensures n <= 2
  {
    if lo >= end then 0 else
      var (k, last) := (lo / SECTION_SIZE, (end - 1) / SECTION_SIZE);
      (if FoundCut(k, lo, hi, end) then 1 else 0) + (if last != k && FoundCut(last, lo, hi, end) then 1 else 0)
  }

  /** A call for [lo, end) has come as far as `hi`.  This fixes every translation: addresses in [lo, hi) are
      changed as asked, sections that the range cuts were converted when it reached them, unless they were
      page tables already, and nothing else has changed. */
  ghost predicate RegionChanged(before: State, after: State, lo: nat, hi: nat, end: nat, c: Change) {
    match after
    case State(first, tables, left) =>
      && |before.first| == |first| == SECTION_COUNT
      && (forall va: nat {:trigger Walk(first, tables, va)} | va < SPACE_32 ::
            Walk(first, tables, va) == Expected(before, va, lo, hi, end, c))
      && (forall k: nat {:trigger IsPageTable(first, k)} | k < SECTION_COUNT ::
            IsPageTable(first, k) <==> IsPageTable(before.first, k) || FoundCut(k, lo, hi, end))
      && before.left <= left + TablesMade(lo, hi, end)
  }

  /** Within one section, coming further can only find that section cut. */
  lemma FoundCutStep(j: nat, k: nat, lo: nat, a: nat, b: nat, end: nat)
    requires lo <= a < b <= end && k * SECTION_SIZE <= a && b <= (k + 1) * SECTION_SIZE
    ensures FoundCut(j, lo, b, end) <==> FoundCut(j, lo, a, end) || (j == k && Cut(k, lo, end))
  {
    if j < k {
      assert (j + 1) * SECTION_SIZE <= k * SECTION_SIZE;
    } else if j > k {
      assert (k + 1) * SECTION_SIZE <= j * SECTION_SIZE;
    }
  }

  /** Only the first and the last section of a range can be cut. */
  lemma CutIsAtEnd(k: nat, lo: nat, end: nat)
    requires Cut(k, lo, end)
    ensures k == lo / SECTION_SIZE || k == (end - 1) / SECTION_SIZE
  {
  }

  lemma TablesMadeStep(k: nat, lo: nat, a: nat, b: nat, end: nat)
    requires lo <= a < b <= end && k * SECTION_SIZE <= a && b <= (k + 1) * SECTION_SIZE
    ensures TablesMade(lo, b, end) ==
            TablesMade(lo, a, end) + (if Cut(k, lo, end) && !FoundCut(k, lo, a, end) then 1 else 0)
  {
    FoundCutStep(lo / SECTION_SIZE, k, lo, a, b, end);
    FoundCutStep((end - 1) / SECTION_SIZE, k, lo, a, b, end);
    if Cut(k, lo, end) {
      CutIsAtEnd(k, lo, end);
    }
  }

  /** The section of the next block becomes a page table if the range cuts it. */
  predicate ToConvert(first: seq<Word>, k: nat, lo: nat, end: nat) {
    Cut(k, lo, end) && !IsPageTable(first, k)
  }

  /** One block of the range, within section `k`, is done. */
  ghost predicate BlockDone(s: State, s': State, k: nat, lo: nat, a: nat, b: nat, end: nat, c: Change) {
    var convert := ToConvert(s.first, k, lo, end);
    && |s.first| == |s'.first| == SECTION_COUNT
    && (forall va: nat | va < SPACE_32 ::
          WalkAt(s', va) ==
            var w := if convert && SectionIndex(va) == k then AsPages(WalkAt(s, va), va) else WalkAt(s, va);
            if a <= va < b then Changed(w, va, c) else w)
    && (forall j: nat | j < SECTION_COUNT ::
          IsPageTable(s'.first, j) <==> IsPageTable(s.first, j) || (convert && j == k))
    && s.left == s'.left + (if convert then 1 else 0)
  }

  lemma AdvanceAt(s0: State, s: State, s': State, k: nat, lo: nat, a: nat, b: nat, end: nat, c: Change, va: nat)
    requires lo <= a < b <= end <= SPACE_32 && k * SECTION_SIZE <= a && b <= (k + 1) * SECTION_SIZE
    requires RegionChanged(s0, s, lo, a, end, c) && BlockDone(s, s', k, lo, a, b, end, c)
    requires va < SPACE_32
    ensures WalkAt(s', va) == Expected(s0, va, lo, b, end, c)
  {
    var j := SectionIndex(va);
    FoundCutStep(j, k, lo, a, b, end);
    assert IsPageTable(s.first, j) <==> IsPageTable(s0.first, j) || FoundCut(j, lo, a, end);
    assert WalkAt(s, va) == Expected(s0, va, lo, a, end, c);
    assert a <= va < b ==> j == k;
    assert lo <= va < a && j == k && Cut(k, lo, end) ==> FoundCut(k, lo, a, end);
  }

  lemma Advance(s0: State, s: State, s': State, k: nat, lo: nat, a: nat, b: nat, end: nat, c: Change)
    requires lo <= a < b <= end <= SPACE_32 && k * SECTION_SIZE <= a && b <= (k + 1) * SECTION_SIZE
    requires RegionChanged(s0, s, lo, a, end, c) && BlockDone(s, s', k, lo, a, b, end, c)
    ensures RegionChanged(s0, s', lo, b, end, c)
  {
    forall va: nat | va < SPACE_32
      ensures WalkAt(s', va) == Expected(s0, va, lo, b, end, c)
    {
      AdvanceAt(s0, s, s', k, lo, a, b, end, c, va);
    }
    forall j: nat | j < SECTION_COUNT
      ensures IsPageTable(s'.first, j) <==> IsPageTable(s0.first, j) || FoundCut(j, lo, b, end)
    {
      FoundCutStep(j, k, lo, a, b, end);
    }
    TablesMadeStep(k, lo, a, b, end);
    assert k < SECTION_COUNT;
    assert IsPageTable(s.first, k) <==> IsPageTable(s0.first, k) || FoundCut(k, lo, a, end);
  }

  lemma NothingChanged(s: State, lo: nat, end: nat, c: Change)
    requires |s.first| == SECTION_COUNT
    ensures RegionChanged(s, s, lo, lo, end, c)
  {
  }

  // ----- What callers want to know -----

  /** The flat meaning of a call: the reached part is changed and nothing else is. */
  ghost predicate Exact(before: State, after: State, lo: nat, hi: nat, c: Change) {
    forall va: nat | va < SPACE_32 ::
      WalkAt(after, va) == if lo <= va < hi then Changed(WalkAt(before, va), va, c) else WalkAt(before, va)
  }

  /** Section `k` is mapped, secure and in domain 0. */
  predicate PlainSection(first: seq<Word>, k: nat) {
    k < |first| && first[k].kind == TYPE_SECTION && SectionSecurity(first[k].attributes) == SECURE
  }

  /** A call has its flat meaning if and only if each section it has found cut is a page table or is mapped,
      secure and in domain 0. */
  lemma ExactlyWhen(before: State, after: State, owner: map<nat, nat>, lo: nat, hi: nat, end: nat, c: Change)
    requires WellFormed(before.first, before.tables, owner) && lo <= hi <= end <= SPACE_32
    requires RegionChanged(before, after, lo, hi, end, c)
    ensures Exact(before, after, lo, hi, c)
            <==> forall k: nat | FoundCut(k, lo, hi, end) ::
                   IsPageTable(before.first, k) || PlainSection(before.first, k)
  {
    if Exact(before, after, lo, hi, c) {
      forall k: nat | FoundCut(k, lo, hi, end)
        ensures IsPageTable(before.first, k) || PlainSection(before.first, k)
      {
        var va := if k * SECTION_SIZE < lo then k * SECTION_SIZE else end;
        SectionUnique(k, va);
        assert WalkAt(after, va) == WalkAt(before, va);
        assert EntryOk(before.tables, owner, k, before.first[k]);
      }
    }
    if forall k: nat | FoundCut(k, lo, hi, end) :: IsPageTable(before.first, k) || PlainSection(before.first, k) {
      forall va: nat | va < SPACE_32
        ensures WalkAt(after, va) == if lo <= va < hi then Changed(WalkAt(before, va), va, c) else WalkAt(before, va)
      {
        var k := SectionIndex(va);
        assert FoundCut(k, lo, hi, end) ==> IsPageTable(before.first, k) || PlainSection(before.first, k);
      }
    }
  }

  /** If the cut sections are mapped, secure and in domain 0 where the range meets them, a call replaces
      exactly the permissions, and the memory type if given, of the part it reached. */
  lemma FullyMappedIsExact(
    before: State, after: State, owner: map<nat, nat>, lo: nat, hi: nat, end: nat, c: Change)
    requires WellFormed(before.first, before.tables, owner) && lo <= hi <= end <= SPACE_32
    requires RegionChanged(before, after, lo, hi, end, c)
    requires forall va: nat | lo <= va < end && Cut(SectionIndex(va), lo, end) ::
               WalkAt(before, va).Mapped? && WalkAt(before, va).security == SECURE
    ensures Exact(before, after, lo, hi, c)
  {
    forall k: nat | FoundCut(k, lo, hi, end)
      ensures IsPageTable(before.first, k) || PlainSection(before.first, k)
    {
      var va := if lo < k * SECTION_SIZE then k * SECTION_SIZE else lo;
      SectionUnique(k, va);
      assert EntryOk(before.tables, owner, k, before.first[k]);
      assert WalkAt(before, va).Mapped? && WalkAt(before, va).security == SECURE;
    }
    ExactlyWhen(before, after, owner, lo, hi, end, c);
  }

  /** An updated address is mapped to itself if and only if it was, or its whole section was unmapped, or
      its page-table entry was zero and it lies in the first page. */
  lemma MappedToItselfWhen(before: State, after: State, lo: nat, hi: nat, end: nat, c: Change, va: nat)
    requires RegionChanged(before, after, lo, hi, end, c) && lo <= va < hi && va < SPACE_32
    ensures WalkAt(after, va).Mapped?
    ensures WalkAt(after, va).address == va
            <==> match WalkAt(before, va)
                 case SectionFault => true
                 case PageFault(_) => va < PAGE_SIZE
                 case Mapped(a, _, _, _) => a == va
  {
    assert WalkAt(after, va) == Expected(before, va, lo, hi, end, c);
  }

  // ----- Inputs at which the flat meaning fails -----

  /** Tables that map nothing but what entry `k` says. */
  function OneEntry(k: nat, e: Word): (first: seq<Word>)
    ensures |first| == SECTION_COUNT
    ensures forall j: nat | j < SECTION_COUNT :: first[j] == if j == k then e else FAULT
  {
    seq(SECTION_COUNT, (j: nat) => if j == k then e else FAULT)
  }

  /** A page table at 0x4000 without mappings, for the first section. */
  const EMPTY_PAGE_TABLE: Tables := map[0x4000 := seq(PAGE_COUNT, (j: nat) => FAULT)]

  /** Address 0x1000, whose page-table entry is zero, is mapped to address 0 by an update of its page. */
  lemma ZeroPageEntryIsMappedToZero(c: Change)
    ensures var first := OneEntry(0, PageTableWord(0x4000));
            var page := UpdatedPage(EMPTY_PAGE_TABLE[0x4000][1], c);
            && WellFormed(first, EMPTY_PAGE_TABLE, map[0x4000 := 0])
            && Walk(first, EMPTY_PAGE_TABLE, 0x1000) == PageFault(SECURE)
            && Walk(first, WritePage(EMPTY_PAGE_TABLE, 0x4000, 1, page), 0x1000).Mapped?
            && Walk(first, WritePage(EMPTY_PAGE_TABLE, 0x4000, 1, page), 0x1000).address == 0
  {
    var first := OneEntry(0, PageTableWord(0x4000));
    var owner: map<nat, nat> := map[0x4000 := 0];
    forall k: nat | k < SECTION_COUNT
      ensures EntryOk(EMPTY_PAGE_TABLE, owner, k, first[k])
    {
    }
    assert TableOk(EMPTY_PAGE_TABLE, 0x4000);
    ChangePage(first, EMPTY_PAGE_TABLE, owner, 0, 1, c);
  }

  /** Converting the non-secure section at 1 MB makes all its addresses secure. */
  lemma ConversionMakesSecure(va: nat)
    requires SECTION_SIZE <= va < 2 * SECTION_SIZE
    ensures var section := Word(TYPE_SECTION, SECTION_NS, SECTION_SIZE);
            var first := OneEntry(1, section);
            && WellFormed(first, map[], map[])
            && Walk(first, map[], va) == Mapped(va, false, NO_ACCESS, Security(true, 0))
            && Walk(first[1 := PageTableWord(0x4000)], map[0x4000 := ConvertedPages(section, 1)], va)
               == Mapped(va, false, NO_ACCESS, SECURE)
  {
    var section := Word(TYPE_SECTION, SECTION_NS, SECTION_SIZE);
    var first := OneEntry(1, section);
    var tables: Tables, owner: map<nat, nat> := map[], map[];
    forall k: nat | k < SECTION_COUNT
      ensures EntryOk(tables, owner, k, first[k])
    {
    }
    Convert(first, tables, owner, 1, 0x4000);
    SectionUnique(1, va);
  }
}
