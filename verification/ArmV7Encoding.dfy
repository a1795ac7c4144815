/** ARMv7 descriptors as 32-bit words: the word operations of the program do to a word what the model does to
    its parts. */
module ArmV7Encoding {
  import opened ArmV7Tables

  const TYPE_BITS: bv32 := 0x3
  const PAGE_ADDRESS: bv32 := 0xFFFF_F000
  const SECTION_ADDRESS: bv32 := 0xFFF0_0000

  /** The word `w` of a page-table entry consists of these parts; `address` is its address field as bits. */
  predicate PageParts(w: bv32, kind: bv2, attributes: bv32, address: bv32) {
    && w & TYPE_BITS == kind as bv32
    && w & PAGE_ADDRESS == address
    && w & !TYPE_BITS & !PAGE_ADDRESS == attributes
  }

  /** The same for a first-level entry that is a section. */
  predicate SectionParts(w: bv32, kind: bv2, attributes: bv32, address: bv32) {
    && w & TYPE_BITS == kind as bv32
    && w & SECTION_ADDRESS == address
    && w & !TYPE_BITS & !SECTION_ADDRESS == attributes
  }

  lemma PagePartsDetermineWord(w: bv32, w': bv32, kind: bv2, attributes: bv32, address: bv32)
    requires PageParts(w, kind, attributes, address) && PageParts(w', kind, attributes, address)
    ensures w == w'
  {
  }

  lemma SectionPartsDetermineWord(w: bv32, w': bv32, kind: bv2, attributes: bv32, address: bv32)
    requires SectionParts(w, kind, attributes, address) && SectionParts(w', kind, attributes, address)
    ensures w == w'
  {
  }

  lemma MaskedPage(w: bv32, kind: bv2, attributes: bv32, address: bv32, mask: bv32, value: bv32, newKind: bv2)
    requires PageParts(w, kind, attributes, address)
    requires mask & (TYPE_BITS | PAGE_ADDRESS) == 0 && value & (TYPE_BITS | PAGE_ADDRESS) == 0
    ensures PageParts((w & !(TYPE_BITS | mask)) | ((newKind as bv32) | value),
                      newKind, (attributes & !mask) | value, address)
  {
  }

  lemma PageBits(c: Change)
    ensures PageEntryMask(c) & (TYPE_BITS | PAGE_ADDRESS) == 0 && PageEntryValue(c) & (TYPE_BITS | PAGE_ADDRESS) == 0
  {
  }

  /** UpdatePageEntries, on the word of an entry, writes the parts of UpdatedPage. */
  lemma UpdatedPageWord(w: bv32, p: Word, address: bv32, c: Change)
    requires PageParts(w, p.kind, p.attributes, address)
    ensures var r := UpdatedPage(p, c);
            PageParts((w & !(TYPE_BITS | PageEntryMask(c))) | ((PageKind(c.xn) as bv32) | PageEntryValue(c)),
                      r.kind, r.attributes, address)
            && r.address == p.address
  {
    PageBits(c);
    MaskedPage(w, p.kind, p.attributes, address, PageEntryMask(c), PageEntryValue(c), PageKind(c.xn));
  }

  lemma MaskedSection(w: bv32, kind: bv2, attributes: bv32, address: bv32, mask: bv32, value: bv32, newKind: bv2)
    requires SectionParts(w, kind, attributes, address)
    requires mask & (TYPE_BITS | SECTION_ADDRESS) == 0 && value & (TYPE_BITS | SECTION_ADDRESS) == 0
    ensures SectionParts((w & !(TYPE_BITS | mask)) | ((newKind as bv32) | value),
                         newKind, (attributes & !mask) | value, address)
  {
  }

  lemma SectionBits(c: Change)
    ensures SectionEntryMask(c) & (TYPE_BITS | SECTION_ADDRESS) == 0
    ensures SectionEntryValue(c) & (TYPE_BITS | SECTION_ADDRESS) == 0
  {
  }

  /** UpdateSectionEntries, on the word of a mapped section, writes the parts of UpdatedSection. */
  lemma UpdatedSectionWord(w: bv32, e: Word, address: bv32, c: Change, i: nat)
    requires SectionParts(w, e.kind, e.attributes, address) && e != FAULT
    ensures var r := UpdatedSection(e, c, i);
            SectionParts((w & !(TYPE_BITS | SectionEntryMask(c))) | ((TYPE_SECTION as bv32) | SectionEntryValue(c)),
                         r.kind, r.attributes, address)
            && r.address == e.address
  {
    SectionBits(c);
    MaskedSection(w, e.kind, e.attributes, address, SectionEntryMask(c), SectionEntryValue(c), TYPE_SECTION);
  }

  /** On a zero word it writes them too, at the address of the section. */
  lemma MappedSectionWord(address: bv32, c: Change, i: nat)
    requires address & SECTION_ADDRESS == address
    ensures var r := UpdatedSection(FAULT, c, i);
            SectionParts(address | ((TYPE_SECTION as bv32) | SectionEntryValue(c)), r.kind, r.attributes, address)
  {
    SectionBits(c);
    MaskedSection(address, 0, 0, address, 0, SectionEntryValue(c), TYPE_SECTION);
  }

  /** ConvertSectionAttributesToPageAttributes for small pages: XN moves from bit 4 to bit 0. */
  function ConvertedBits(a: bv32): bv32 {
    ToPageAttributes(a) | ((a & SECTION_XN_MASK) >> 4)
  }

  lemma PageOfSectionBits(a: bv32)
    ensures ToPageAttributes(a) & (TYPE_BITS | PAGE_ADDRESS) == 0
    ensures (TYPE_PAGE as bv32) | ((a & SECTION_XN_MASK) >> 4) == PageKind(a & SECTION_XN_MASK != 0) as bv32
  {
  }

  lemma JoinedPage(address: bv32, kind: bv2, attributes: bv32)
    requires address & PAGE_ADDRESS == address && attributes & (TYPE_BITS | PAGE_ADDRESS) == 0
    ensures PageParts(address | ((kind as bv32) | attributes), kind, attributes, address)
  {
  }

  lemma OrMoves(address: bv32, t: bv32, a: bv32, xn: bv32)
    ensures address | (t | (a | xn)) == address | ((t | xn) | a)
  {
  }

  /** ConvertSectionToPages writes the parts of ConvertedPages; `address` is the page's address as bits. */
  lemma ConvertedPageWord(e: Word, i: nat, j: nat, address: bv32)
    requires j < PAGE_COUNT && address & PAGE_ADDRESS == address
    ensures var r := ConvertedPages(e, i)[j];
            PageParts(address | ((TYPE_PAGE as bv32) | ConvertedBits(e.attributes)), r.kind, r.attributes, address)
            && r.address == i * SECTION_SIZE + j * PAGE_SIZE
  {
    var a := e.attributes;
    PageOfSectionBits(a);
    OrMoves(address, TYPE_PAGE as bv32, ToPageAttributes(a), (a & SECTION_XN_MASK) >> 4);
    JoinedPage(address, PageKind(a & SECTION_XN_MASK != 0), ToPageAttributes(a));
  }
}
