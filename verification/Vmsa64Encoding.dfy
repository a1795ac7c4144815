/** Descriptors as 64-bit words: the word operations of the program do to a word what the model does to its
    parts. */
module Vmsa64Encoding {
  import opened Vmsa64
  import opened TranslationTree
  import opened RegionMapping
  import opened MemoryAttributes

  function AttributePart(w: bv64): bv64 {
    w & !TT_TYPE_MASK & !TT_ADDRESS_MASK_BLOCK_ENTRY
  }

  /** The word `w` consists of these parts; `address` is the address field as bits. */
  predicate HasParts(w: bv64, kind: bv2, attributes: bv64, address: bv64) {
    && w & TT_TYPE_MASK == kind as bv64
    && w & TT_ADDRESS_MASK_BLOCK_ENTRY == address
    && AttributePart(w) == attributes
  }

  /** They determine it. */
  lemma PartsDetermineWord(w: bv64, w': bv64, kind: bv2, attributes: bv64, address: bv64)
    requires HasParts(w, kind, attributes, address) && HasParts(w', kind, attributes, address)
    ensures w == w'
  {
  }

  /** The mask word that stands for `m`. */
  predicate EncodesMask(w: bv64, m: Mask) {
    w & TT_ADDRESS_MASK_BLOCK_ENTRY == 0 && w & TT_TYPE_MASK == m.kind as bv64 && w & !TT_TYPE_MASK == m.attributes
  }

  lemma MaskWordIsEncoded(mask: bv64)
    requires mask & TT_ADDRESS_MASK_BLOCK_ENTRY == 0 && mask & TT_TYPE_MASK == TT_TYPE_MASK
    ensures EncodesMask(mask, MaskWord(mask))
  {
  }

  /** The mask that each call passes to UpdateRegionMapping. */
  function CallMaskWord(call: Call): bv64 {
    match call
    case SetAttributes(gcd) =>
      if gcd & EFI_MEMORY_CACHETYPE_MASK == 0
      then !(TT_ADDRESS_MASK_BLOCK_ENTRY | TT_AP_MASK | TT_PXN_MASK | TT_XN_MASK)
      else 0
    case SetNoExec => !TT_ADDRESS_MASK_BLOCK_ENTRY
    case ClearNoExec => !(TT_ADDRESS_MASK_BLOCK_ENTRY | TT_PXN_MASK | TT_XN_MASK)
    case SetReadOnly => !TT_ADDRESS_MASK_BLOCK_ENTRY
    case ClearReadOnly => !(TT_ADDRESS_MASK_BLOCK_ENTRY | TT_AP_MASK)
  }

  lemma CallMaskIsEncoded(call: Call)
    ensures EncodesMask(CallMaskWord(call), call.BlockEntryMask())
  {
    match call
    case SetAttributes(gcd) =>
      MaskWordIsEncoded(!(TT_ADDRESS_MASK_BLOCK_ENTRY | TT_AP_MASK | TT_PXN_MASK | TT_XN_MASK));
    case SetNoExec => MaskWordIsEncoded(!TT_ADDRESS_MASK_BLOCK_ENTRY);
    case ClearNoExec => MaskWordIsEncoded(!(TT_ADDRESS_MASK_BLOCK_ENTRY | TT_PXN_MASK | TT_XN_MASK));
    case SetReadOnly => MaskWordIsEncoded(!TT_ADDRESS_MASK_BLOCK_ENTRY);
    case ClearReadOnly => MaskWordIsEncoded(!(TT_ADDRESS_MASK_BLOCK_ENTRY | TT_AP_MASK));
  }

  lemma AttributesArePart(a: bv64)
    requires AttributesOk(a)
    ensures AttributePart(a) == a
  {
  }

  lemma UpdatedKind(w: bv64, k: bv2, mask: bv64, mk: bv2, bits: bv64, kind: bv2)
    requires w & TT_TYPE_MASK == k as bv64 && mask & TT_TYPE_MASK == mk as bv64 && bits & TT_TYPE_MASK == 0
    ensures ((w & mask) | (bits | (kind as bv64))) & TT_TYPE_MASK == ((k & mk) | kind) as bv64
  {
  }

  lemma UpdatedAddress(w: bv64, mask: bv64, a: bv64, attributes: bv64, kind: bv2)
    requires mask & TT_ADDRESS_MASK_BLOCK_ENTRY == 0 && a & TT_ADDRESS_MASK_BLOCK_ENTRY == a
    requires AttributePart(attributes) == attributes
    ensures ((w & mask) | (a | attributes | (kind as bv64))) & TT_ADDRESS_MASK_BLOCK_ENTRY == a
  {
  }

  lemma UpdatedAttributes(w: bv64, mask: bv64, a: bv64, attributes: bv64, kind: bv2)
    requires mask & TT_ADDRESS_MASK_BLOCK_ENTRY == 0 && a & TT_ADDRESS_MASK_BLOCK_ENTRY == a
    requires AttributePart(attributes) == attributes
    ensures AttributePart((w & mask) | (a | attributes | (kind as bv64)))
            == (AttributePart(w) & (mask & !TT_TYPE_MASK)) | attributes
  {
  }

  lemma NoTypeBits(a: bv64, attributes: bv64)
    requires a & TT_ADDRESS_MASK_BLOCK_ENTRY == a && AttributePart(attributes) == attributes
    ensures (a | attributes) & TT_TYPE_MASK == 0
  {
  }

  /** The inner loop of UpdateRegionMapping, on the word of an entry: masking and or-ing act on the parts
      separately. */
  lemma UpdatedWord(
    w: bv64, k: bv2, attrs: bv64, before: bv64, mask: bv64, m: Mask, address: bv64, attributes: bv64, kind: bv2)
    requires HasParts(w, k, attrs, before) && EncodesMask(mask, m)
    requires address & TT_ADDRESS_MASK_BLOCK_ENTRY == address && AttributePart(attributes) == attributes
    ensures HasParts((w & mask) | (address | attributes | (kind as bv64)),
                     (k & m.kind) | kind, (attrs & m.attributes) | attributes, address)
  {
    NoTypeBits(address, attributes);
    UpdatedKind(w, k, mask, m.kind, address | attributes, kind);
    UpdatedAddress(w, mask, address, attributes, kind);
    UpdatedAttributes(w, mask, address, attributes, kind);
  }

  /** These are the parts of UpdatedEntry. */
  lemma UpdatedEntryParts(d: Descriptor, level: Level, a: nat, attributes: bv64, m: Mask)
    requires a % SIZE_4KB == 0 && a < SPACE_48
    ensures var r := UpdatedEntry(d, level, a, attributes, m);
            && r.kind == (d.kind & m.kind) | LeafType(level)
            && r.attributes == (d.attributes & m.attributes) | attributes
            && r.address == a
  {
    AddressFieldExact(a);
  }

  /** The mask and the bits of each of the five calls are as UpdatedWord wants them. */
  lemma CallsUpdateWords(call: Call, el: ExceptionLevel)
    ensures EncodesMask(CallMaskWord(call), call.BlockEntryMask())
    ensures AttributePart(call.Bits(el)) == call.Bits(el)
  {
    CallMaskIsEncoded(call);
    CallBitsOk(call, el);
    AttributesArePart(call.Bits(el));
  }
}
