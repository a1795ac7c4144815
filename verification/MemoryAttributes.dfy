/** From memory types and permissions to descriptor bits, and what the five permission calls do to one
    page, alone and in any sequence. */
module MemoryAttributes {
  import opened Vmsa64
  import opened TranslationTree
  import opened RegionMapping

  datatype ExceptionLevel = EL1 | EL2 | EL3

  datatype RegionAttributes =
    | UncachedUnbuffered | NonsecureUncachedUnbuffered
    | WriteBack | NonsecureWriteBack
    | WriteBackNonshareable | NonsecureWriteBackNonshareable
    | WriteThrough | NonsecureWriteThrough
    | Device | NonsecureDevice

  function NoExecBits(el: ExceptionLevel): bv64 {
    if el.EL2? then TT_XN_MASK else TT_UXN_MASK | TT_PXN_MASK
  }

  /** ArmMemoryAttributeToPageAttribute. */
  function RegionBits(attributes: RegionAttributes, el: ExceptionLevel): bv64 {
    match attributes
    case WriteBackNonshareable | NonsecureWriteBackNonshareable => TT_ATTR_INDX_MEMORY_WRITE_BACK
    case WriteBack | NonsecureWriteBack => TT_ATTR_INDX_MEMORY_WRITE_BACK | TT_SH_INNER_SHAREABLE
    case WriteThrough | NonsecureWriteThrough => TT_ATTR_INDX_MEMORY_WRITE_THROUGH | TT_SH_INNER_SHAREABLE
    case UncachedUnbuffered | NonsecureUncachedUnbuffered => TT_ATTR_INDX_MEMORY_NON_CACHEABLE
    case Device | NonsecureDevice => TT_ATTR_INDX_DEVICE_MEMORY | NoExecBits(el)
  }

  const EFI_MEMORY_UC: bv64 := 0x1
  const EFI_MEMORY_WC: bv64 := 0x2
  const EFI_MEMORY_WT: bv64 := 0x4
  const EFI_MEMORY_WB: bv64 := 0x8
  const EFI_MEMORY_CACHETYPE_MASK: bv64 := 0x1F
  const EFI_MEMORY_XP: bv64 := 0x4000
  const EFI_MEMORY_RO: bv64 := 0x2_0000

  /** GcdAttributeToPageAttribute. */
  function GcdBits(gcd: bv64, el: ExceptionLevel): bv64 {
    var cache := gcd & EFI_MEMORY_CACHETYPE_MASK;
    var index :=
      if cache == EFI_MEMORY_UC then TT_ATTR_INDX_DEVICE_MEMORY
      else if cache == EFI_MEMORY_WC then TT_ATTR_INDX_MEMORY_NON_CACHEABLE
      else if cache == EFI_MEMORY_WT then TT_ATTR_INDX_MEMORY_WRITE_THROUGH | TT_SH_INNER_SHAREABLE
      else if cache == EFI_MEMORY_WB then TT_ATTR_INDX_MEMORY_WRITE_BACK | TT_SH_INNER_SHAREABLE
      else TT_ATTR_INDX_MASK;
    var exec := if gcd & EFI_MEMORY_XP != 0 || cache == EFI_MEMORY_UC then NoExecBits(el) else 0;
    var write := if gcd & EFI_MEMORY_RO != 0 then TT_AP_RO_RO else 0;
    index | exec | write | TT_AF
  }

  /** A mask word whose address field is clear and that keeps the type bits, in parts. */
  function MaskWord(w: bv64): Mask {
    Mask(0x3, w & !TT_TYPE_MASK)
  }

  const CLEAR_ALL: Mask := Mask(0, 0)

  const PERMISSION_MASK: bv64 := TT_AP_MASK | TT_PXN_MASK | TT_XN_MASK

  /** The calls that edit a live address space. */
  datatype Call =
    | SetAttributes(gcd: bv64)
    | SetNoExec
    | ClearNoExec
    | SetReadOnly
    | ClearReadOnly
  {
    predicate PermissionOnly() {
      SetAttributes? ==> gcd & EFI_MEMORY_CACHETYPE_MASK == 0
    }

    function Bits(el: ExceptionLevel): bv64 {
      match this
      case SetAttributes(gcd) =>
        if gcd & EFI_MEMORY_CACHETYPE_MASK == 0
        then GcdBits(gcd, el) & (TT_AP_MASK | TT_UXN_MASK | TT_PXN_MASK)
        else GcdBits(gcd, el)
      case SetNoExec => if el.EL1? then TT_PXN_MASK | TT_UXN_MASK else TT_XN_MASK
      case ClearNoExec => 0
      case SetReadOnly => TT_AP_RO_RO
      case ClearReadOnly => TT_AP_RW_RW
    }

    function BlockEntryMask(): Mask {
      match this
      case SetAttributes(gcd) =>
        if gcd & EFI_MEMORY_CACHETYPE_MASK == 0
        then MaskWord(!(TT_ADDRESS_MASK_BLOCK_ENTRY | TT_AP_MASK | TT_PXN_MASK | TT_XN_MASK))
        else CLEAR_ALL
      case SetNoExec => MaskWord(!TT_ADDRESS_MASK_BLOCK_ENTRY)
      case ClearNoExec => MaskWord(!(TT_ADDRESS_MASK_BLOCK_ENTRY | TT_PXN_MASK | TT_XN_MASK))
      case SetReadOnly => MaskWord(!TT_ADDRESS_MASK_BLOCK_ENTRY)
      case ClearReadOnly => MaskWord(!(TT_ADDRESS_MASK_BLOCK_ENTRY | TT_AP_MASK))
    }
  }

  lemma RegionBitsOk(attributes: RegionAttributes, el: ExceptionLevel)
    ensures AttributesOk(RegionBits(attributes, el) | TT_AF)
  {
  }

  lemma OrOk(a: bv64, b: bv64)
    requires AttributesOk(a) && AttributesOk(b)
    ensures AttributesOk(a | b)
  {
  }

  lemma GcdBitsOk(gcd: bv64, el: ExceptionLevel)
    ensures AttributesOk(GcdBits(gcd, el))
  {
    var cache := gcd & EFI_MEMORY_CACHETYPE_MASK;
    var index :=
      if cache == EFI_MEMORY_UC then TT_ATTR_INDX_DEVICE_MEMORY
      else if cache == EFI_MEMORY_WC then TT_ATTR_INDX_MEMORY_NON_CACHEABLE
      else if cache == EFI_MEMORY_WT then TT_ATTR_INDX_MEMORY_WRITE_THROUGH | TT_SH_INNER_SHAREABLE
      else if cache == EFI_MEMORY_WB then TT_ATTR_INDX_MEMORY_WRITE_BACK | TT_SH_INNER_SHAREABLE
      else TT_ATTR_INDX_MASK;
    var exec := if gcd & EFI_MEMORY_XP != 0 || cache == EFI_MEMORY_UC then NoExecBits(el) else 0;
    var write := if gcd & EFI_MEMORY_RO != 0 then TT_AP_RO_RO else 0;
    OrOk(index, exec);
    OrOk(index | exec, write);
    OrOk(index | exec | write, TT_AF);
  }

  lemma MaskedOk(a: bv64, mask: bv64)
    requires AttributesOk(a)
    ensures AttributesOk(a & mask)
  {
  }

  lemma CallBitsOk(call: Call, el: ExceptionLevel)
    ensures AttributesOk(call.Bits(el))
  {
    if call.SetAttributes? {
      GcdBitsOk(call.gcd, el);
      MaskedOk(GcdBits(call.gcd, el), TT_AP_MASK | TT_UXN_MASK | TT_PXN_MASK);
    }
  }

  /** A call that reached `reached`, as one page sees it. */
  datatype Step = Step(call: Call, base: nat, reached: nat)

  function PageAfter(before: Mapping, va: nat, s: Step, el: ExceptionLevel): Mapping {
    if s.base <= va < s.reached
    then UpdatedMapping(before, va, s.call.Bits(el), s.call.BlockEntryMask())
    else before
  }

  function PageAfterAll(before: Mapping, va: nat, steps: seq<Step>, el: ExceptionLevel): Mapping
    decreases |steps|
  {
    if steps == [] then before
    else PageAfterAll(PageAfter(before, va, steps[0], el), va, steps[1..], el)
  }

  /** `ms` are the memories before, between and after the steps. */
  ghost predicate IsRun(ms: seq<Memory>, g: Geometry, steps: seq<Step>, el: ExceptionLevel) {
    && |ms| == |steps| + 1
    && forall k: nat | k < |steps| ::
         RegionUpdated(ms[k], ms[k + 1], g, steps[k].base, steps[k].reached,
                       steps[k].call.Bits(el), steps[k].call.BlockEntryMask())
  }

  lemma {:induction false} RunIsPointwise(ms: seq<Memory>, g: Geometry, steps: seq<Step>, el: ExceptionLevel, va: nat)
    requires IsRun(ms, g, steps, el)
    ensures Walk(ms[|steps|], g, va) == PageAfterAll(Walk(ms[0], g, va), va, steps, el)
    decreases |steps|
  {
    if steps != [] {
      RunIsPointwise(ms[1..], g, steps[1..], el, va);
    }
  }

  lemma KeepsOtherBits(before: bv64, mask: bv64, bits: bv64)
    requires before & !TT_ATTRIBUTES_MASK == 0
    requires TT_ATTRIBUTES_MASK & !PERMISSION_MASK & !mask == 0
    requires bits & !PERMISSION_MASK == 0
    ensures ((before & mask) | bits) & !PERMISSION_MASK == before & !PERMISSION_MASK
  {
  }

  lemma AndWithin(a: bv64, mask: bv64)
    ensures (a & mask) & !mask == 0
  {
  }

  lemma SetAttributesWithin(gcd: bv64, el: ExceptionLevel)
    requires SetAttributes(gcd).PermissionOnly()
    ensures SetAttributes(gcd).Bits(el) & !PERMISSION_MASK == 0
  {
    AndWithin(GcdBits(gcd, el), PERMISSION_MASK);
  }

  lemma PermissionOnlyMask(call: Call)
    requires call.PermissionOnly()
    ensures TT_ATTRIBUTES_MASK & !PERMISSION_MASK & !call.BlockEntryMask().attributes == 0
  {
  }

  lemma PermissionOnlyBits(call: Call, el: ExceptionLevel)
    requires call.PermissionOnly()
    ensures call.Bits(el) & !PERMISSION_MASK == 0
  {
    if call.SetAttributes? {
      SetAttributesWithin(call.gcd, el);
    }
  }

  /** The two attribute words agree on memory type, shareability and access flag. */
  predicate SameType(a: bv64, b: bv64) {
    a & !PERMISSION_MASK == b & !PERMISSION_MASK
  }

  lemma PermissionUpdateKeepsType(before: bv64, va: nat, bits: bv64, mask: Mask)
    requires AttributesOk(before) && AttributesOk(bits)
    requires TT_ATTRIBUTES_MASK & !PERMISSION_MASK & !mask.attributes == 0
    requires bits & !PERMISSION_MASK == 0
    ensures var after := UpdatedMapping(Mapped(va, before), va, bits, mask);
            AttributesOk(after.attributes) && SameType(after.attributes, before)
  {
    KeepsOtherBits(before, mask.attributes, bits);
    UpdatedAttributesOk(before, bits, mask.attributes);
  }

  /** A permission-only call changes no attribute bit of a mapped page but AP, PXN and XN. */
  lemma PermissionStepKeepsType(before: bv64, va: nat, s: Step, el: ExceptionLevel)
    requires s.call.PermissionOnly() && AttributesOk(before)
    ensures var after := PageAfter(Mapped(va, before), va, s, el);
            && after.Mapped? && after.address == va
            && AttributesOk(after.attributes) && SameType(after.attributes, before)
  {
    PermissionOnlyMask(s.call);
    PermissionOnlyBits(s.call, el);
    CallBitsOk(s.call, el);
    PermissionUpdateKeepsType(before, va, s.call.Bits(el), s.call.BlockEntryMask());
  }

  /** In any sequence of permission-only calls, over any overlapping ranges and whether or not each
      call completes, a mapped page stays mapped to itself with the same memory type, shareability and
      access flag. */
  lemma {:induction false} PermissionRunKeepsType(before: bv64, va: nat, steps: seq<Step>, el: ExceptionLevel)
    requires forall s | s in steps :: s.call.PermissionOnly()
    requires AttributesOk(before)
    ensures var after := PageAfterAll(Mapped(va, before), va, steps, el);
            && after.Mapped? && after.address == va
            && AttributesOk(after.attributes) && SameType(after.attributes, before)
    decreases |steps|
  {
    if steps != [] {
      PermissionStepKeepsType(before, va, steps[0], el);
      var next := PageAfter(Mapped(va, before), va, steps[0], el);
      PermissionRunKeepsType(next.attributes, va, steps[1..], el);
    }
  }

  /** ArmClearMemoryRegionNoExec after ArmSetMemoryRegionNoExec gives a page back exactly as it was if
      and only if the page was mapped and fully executable. */
  lemma ClearUndoesSetNoExec(before: Mapping, va: nat, el: ExceptionLevel)
    requires before.Mapped? ==> before.address == va && AttributesOk(before.attributes)
    ensures var between := UpdatedMapping(before, va, SetNoExec.Bits(el), SetNoExec.BlockEntryMask());
            UpdatedMapping(between, va, ClearNoExec.Bits(el), ClearNoExec.BlockEntryMask()) == before
            <==> before.Mapped? && before.attributes & (TT_PXN_MASK | TT_XN_MASK) == 0
  {
  }

  /** ArmClearMemoryRegionReadOnly after ArmSetMemoryRegionReadOnly restores a page if and only if it
      was mapped with access permissions TT_AP_RW_RW, which is what the clear always writes. */
  lemma ClearUndoesSetReadOnly(before: Mapping, va: nat, el: ExceptionLevel)
    requires before.Mapped? ==> before.address == va && AttributesOk(before.attributes)
    ensures var between := UpdatedMapping(before, va, SetReadOnly.Bits(el), SetReadOnly.BlockEntryMask());
            UpdatedMapping(between, va, ClearReadOnly.Bits(el), ClearReadOnly.BlockEntryMask()) == before
            <==> before.Mapped? && before.attributes & TT_AP_MASK == TT_AP_RW_RW
  {
  }

  // ----- What the bits mean -----

  /** PageAttributeToGcdAttribute: from descriptor bits back to a UEFI memory type and permissions. */
  function PageAttributeToGcd(a: bv64): bv64 {
    var index := a & TT_ATTR_INDX_MASK;
    var cache :=
      if index == TT_ATTR_INDX_DEVICE_MEMORY then EFI_MEMORY_UC
      else if index == TT_ATTR_INDX_MEMORY_NON_CACHEABLE then EFI_MEMORY_WC
      else if index == TT_ATTR_INDX_MEMORY_WRITE_THROUGH then EFI_MEMORY_WT
      else if index == TT_ATTR_INDX_MEMORY_WRITE_BACK then EFI_MEMORY_WB
      else 0;
    var readOnly := a & TT_AP_MASK == TT_AP_NO_RO || a & TT_AP_MASK == TT_AP_RO_RO;
    var noExec := a & (TT_PXN_MASK | TT_UXN_MASK) != 0;
    (cache | (if readOnly then EFI_MEMORY_RO else 0)) | (if noExec then EFI_MEMORY_XP else 0)
  }

  /** The fields of a descriptor by their bits: AttrIndx 4:2, AP 7:6, SH 9:8, AF 10, PXN 53, UXN or XN 54. */
  function AttrIndx(a: bv64): bv64 {
    (a >> 2) & 0x7
  }

  function AP(a: bv64): bv64 {
    (a >> 6) & 0x3
  }

  function SH(a: bv64): bv64 {
    (a >> 8) & 0x3
  }

  predicate AF(a: bv64) {
    (a >> 10) & 0x1 == 1
  }

  predicate PXN(a: bv64) {
    (a >> 53) & 0x1 == 1
  }

  predicate UXN(a: bv64) {
    (a >> 54) & 0x1 == 1
  }

  const XN_BITS: bv64 := 0x60_0000_0000_0000
  const AP_BITS: bv64 := 0xC0

  /** No bit outside these fields is set. */
  predicate OnlyFields(a: bv64) {
    a & !(XN_BITS | AP_BITS | 0x71C) == 0
  }

  /** Memory type and permissions of a region kind, in UEFI's terms: device memory is uncached and not
      executable, nothing is read-only. */
  function KindInGcd(kind: RegionAttributes): bv64 {
    match kind
    case WriteBack | NonsecureWriteBack | WriteBackNonshareable | NonsecureWriteBackNonshareable => 0x8
    case WriteThrough | NonsecureWriteThrough => 0x4
    case UncachedUnbuffered | NonsecureUncachedUnbuffered => 0x2
    case Device | NonsecureDevice => 0x4001
  }

  predicate InnerShareable(kind: RegionAttributes) {
    kind.WriteBack? || kind.NonsecureWriteBack? || kind.WriteThrough? || kind.NonsecureWriteThrough?
  }

  predicate IsDevice(kind: RegionAttributes) {
    kind.Device? || kind.NonsecureDevice?
  }

  /** `a` says what a region of this kind is to be: type and permissions as decoded, shareability, access
      flag, read and write access, and no execution of device memory, at EL2 by the one XN bit. */
  predicate SaysKind(a: bv64, kind: RegionAttributes, el: ExceptionLevel) {
    && PageAttributeToGcd(a) == KindInGcd(kind)
    && SH(a) == (if InnerShareable(kind) then 0x3 else 0)
    && AF(a) && AP(a) == 0 && OnlyFields(a)
    && (UXN(a) <==> IsDevice(kind)) && (PXN(a) <==> IsDevice(kind) && !el.EL2?)
  }

  lemma RegionBitsSayKind(kind: RegionAttributes, el: ExceptionLevel)
    ensures SaysKind(RegionBits(kind, el) | TT_AF, kind, el)
  {
  }

  /** An address is mapped to itself as a region of this kind. */
  predicate MappedAs(w: Mapping, va: nat, kind: RegionAttributes, el: ExceptionLevel) {
    w.Mapped? && w.address == va && SaysKind(w.attributes, kind, el)
  }

  /** Decoding the bits made for a memory type and permissions gives them back, with device memory made
      not executable. */
  lemma GcdRoundTrip(gcd: bv64, el: ExceptionLevel)
    requires gcd & 0x1F == 0x1 || gcd & 0x1F == 0x2 || gcd & 0x1F == 0x4 || gcd & 0x1F == 0x8
    ensures PageAttributeToGcd(GcdBits(gcd, el))
            == (gcd & 0x2_001F) | (if gcd & 0x1F == 0x1 || gcd & 0x4000 != 0 then 0x4000 else 0)
  {
  }

  // ----- What each call does to a page -----

  /** All bits but those of `changed` are as they were. */
  predicate Keeps(before: bv64, after: bv64, changed: bv64) {
    after & !changed == before & !changed
  }

  predicate NoExecSet(before: bv64, after: bv64, el1: bool) {
    UXN(after) && (PXN(after) <==> PXN(before) || el1) && Keeps(before, after, XN_BITS)
  }

  predicate NoExecCleared(before: bv64, after: bv64) {
    !UXN(after) && !PXN(after) && Keeps(before, after, XN_BITS)
  }

  predicate AccessSet(before: bv64, after: bv64, ap: bv64) {
    AP(after) == ap && Keeps(before, after, AP_BITS)
  }

  /** Read-only and no-exec as requested; device memory is never executable. */
  predicate PermissionsAre(after: bv64, gcd: bv64, el2: bool) {
    && AP(after) == (if gcd & 0x2_0000 != 0 then 0x3 else 0)
    && (UXN(after) <==> gcd & 0x4000 != 0 || gcd & 0x1F == 0x1)
    && (PXN(after) <==> UXN(after) && !el2)
  }

  /** The memory type as requested, cached memory inner shareable, the access flag, and nothing else. */
  predicate TypeIs(after: bv64, gcd: bv64) {
    var cache := gcd & 0x1F;
    && AF(after) && OnlyFields(after)
    && SH(after) == (if cache == 0x4 || cache == 0x8 then 0x3 else 0)
    && AttrIndx(after) == (if cache == 0x1 then 0 else if cache == 0x2 then 0x1 else if cache == 0x4 then 0x2
                           else if cache == 0x8 then 0x3 else 0x7)
  }

  predicate AttributesSet(before: bv64, after: bv64, gcd: bv64, el2: bool) {
    PermissionsAre(after, gcd, el2)
    && (if gcd & 0x1F == 0 then Keeps(before, after, XN_BITS | AP_BITS) else TypeIs(after, gcd))
  }

  /** What the attributes of a page are to be after a call, from what they were; 0 if it was unmapped. */
  predicate CallEffect(call: Call, el: ExceptionLevel, before: bv64, after: bv64) {
    match call
    case SetNoExec => NoExecSet(before, after, el.EL1?)
    case ClearNoExec => NoExecCleared(before, after)
    case SetReadOnly => AccessSet(before, after, 0x3)
    case ClearReadOnly => AccessSet(before, after, 0x1)
    case SetAttributes(gcd) => AttributesSet(before, after, gcd, el.EL2?)
  }

  function AttributesOf(w: Mapping): bv64 {
    if w.Mapped? then w.attributes else 0
  }

  /** The page at `va` is mapped to itself and changed as the call is to change it. */
  ghost predicate EffectOnPage(call: Call, el: ExceptionLevel, before: Mapping, after: Mapping, va: nat) {
    after.Mapped? && after.address == va && CallEffect(call, el, AttributesOf(before), AttributesOf(after))
  }

  /** Each address of [lo, reached) is mapped to itself and changed as the call is to change it. */
  ghost predicate EffectOnWalk(
    m: Memory, m': Memory, g: Geometry, call: Call, lo: nat, reached: nat, el: ExceptionLevel)
  {
    forall va: nat | lo <= va < reached :: EffectOnPage(call, el, Walk(m, g, va), Walk(m', g, va), va)
  }

  lemma SetNoExecWord(before: bv64, mask: bv64, bits: bv64, el1: bool)
    requires before & !TT_ATTRIBUTES_MASK == 0 && mask == !TT_ADDRESS_MASK_BLOCK_ENTRY & !TT_TYPE_MASK
    requires bits == if el1 then TT_PXN_MASK | TT_UXN_MASK else TT_XN_MASK
    ensures NoExecSet(before, (before & mask) | bits, el1)
  {
  }

  lemma ClearNoExecWord(before: bv64, mask: bv64, bits: bv64)
    requires before & !TT_ATTRIBUTES_MASK == 0 && bits == 0
    requires mask == !(TT_ADDRESS_MASK_BLOCK_ENTRY | TT_PXN_MASK | TT_XN_MASK) & !TT_TYPE_MASK
    ensures NoExecCleared(before, (before & mask) | bits)
  {
  }

  lemma SetReadOnlyWord(before: bv64, mask: bv64, bits: bv64)
    requires before & !TT_ATTRIBUTES_MASK == 0 && bits == TT_AP_RO_RO
    requires mask == !TT_ADDRESS_MASK_BLOCK_ENTRY & !TT_TYPE_MASK
    ensures AccessSet(before, (before & mask) | bits, 0x3)
  {
  }

  lemma ClearReadOnlyWord(before: bv64, mask: bv64, bits: bv64)
    requires before & !TT_ATTRIBUTES_MASK == 0 && bits == TT_AP_RW_RW
    requires mask == !(TT_ADDRESS_MASK_BLOCK_ENTRY | TT_AP_MASK) & !TT_TYPE_MASK
    ensures AccessSet(before, (before & mask) | bits, 0x1)
  {
  }

  lemma GcdBitsFields(gcd: bv64, el: ExceptionLevel)
    ensures PermissionsAre(GcdBits(gcd, el), gcd, el.EL2?) && TypeIs(GcdBits(gcd, el), gcd)
  {
  }

  lemma OnlyPermissions(x: bv64, bits: bv64, gcd: bv64, el2: bool)
    requires PermissionsAre(x, gcd, el2) && bits == x & (TT_AP_MASK | TT_UXN_MASK | TT_PXN_MASK)
    ensures PermissionsAre(bits, gcd, el2) && bits & !(XN_BITS | AP_BITS) == 0
  {
    assert AP(bits) == AP(x);
    assert UXN(bits) == UXN(x);
    assert PXN(bits) == PXN(x);
  }

  lemma SamePermissions(before: bv64, mask: bv64, bits: bv64)
    requires before & !TT_ATTRIBUTES_MASK == 0 && bits & !(XN_BITS | AP_BITS) == 0
    requires mask == !(TT_ADDRESS_MASK_BLOCK_ENTRY | TT_AP_MASK | TT_PXN_MASK | TT_XN_MASK) & !TT_TYPE_MASK
    ensures var after := (before & mask) | bits;
            AP(after) == AP(bits) && UXN(after) == UXN(bits) && PXN(after) == PXN(bits)
            && Keeps(before, after, XN_BITS | AP_BITS)
  {
  }

  lemma PermissionWord(before: bv64, mask: bv64, bits: bv64, gcd: bv64, el2: bool)
    requires before & !TT_ATTRIBUTES_MASK == 0 && bits & !(XN_BITS | AP_BITS) == 0
    requires gcd & 0x1F == 0 && PermissionsAre(bits, gcd, el2)
    requires mask == !(TT_ADDRESS_MASK_BLOCK_ENTRY | TT_AP_MASK | TT_PXN_MASK | TT_XN_MASK) & !TT_TYPE_MASK
    ensures AttributesSet(before, (before & mask) | bits, gcd, el2)
  {
    SamePermissions(before, mask, bits);
  }

  lemma OverwrittenWord(before: bv64, mask: bv64, bits: bv64, gcd: bv64, el2: bool)
    requires mask == 0 && gcd & 0x1F != 0 && PermissionsAre(bits, gcd, el2) && TypeIs(bits, gcd)
    ensures AttributesSet(before, (before & mask) | bits, gcd, el2)
  {
    assert (before & mask) | bits == bits;
  }

  lemma SetNoExecEffect(before: bv64, mask: Mask, bits: bv64, after: bv64, el: ExceptionLevel)
    requires AttributesOk(before) && mask == SetNoExec.BlockEntryMask() && bits == SetNoExec.Bits(el)
    requires after == (before & mask.attributes) | bits
    ensures NoExecSet(before, after, el.EL1?)
  {
    SetNoExecWord(before, mask.attributes, bits, el.EL1?);
  }

  lemma ClearNoExecEffect(before: bv64, mask: Mask, bits: bv64, after: bv64, el: ExceptionLevel)
    requires AttributesOk(before) && mask == ClearNoExec.BlockEntryMask() && bits == ClearNoExec.Bits(el)
    requires after == (before & mask.attributes) | bits
    ensures NoExecCleared(before, after)
  {
    ClearNoExecWord(before, mask.attributes, bits);
  }

  lemma SetReadOnlyEffect(before: bv64, mask: Mask, bits: bv64, after: bv64, el: ExceptionLevel)
    requires AttributesOk(before) && mask == SetReadOnly.BlockEntryMask() && bits == SetReadOnly.Bits(el)
    requires after == (before & mask.attributes) | bits
    ensures AccessSet(before, after, 0x3)
  {
    SetReadOnlyWord(before, mask.attributes, bits);
  }

  lemma ClearReadOnlyEffect(before: bv64, mask: Mask, bits: bv64, after: bv64, el: ExceptionLevel)
    requires AttributesOk(before) && mask == ClearReadOnly.BlockEntryMask() && bits == ClearReadOnly.Bits(el)
    requires after == (before & mask.attributes) | bits
    ensures AccessSet(before, after, 0x1)
  {
    ClearReadOnlyWord(before, mask.attributes, bits);
  }

  lemma SetAttributesBits(gcd: bv64, el: ExceptionLevel, bits: bv64)
    requires bits == SetAttributes(gcd).Bits(el)
    ensures AttributesSet(0, bits, gcd, el.EL2?)
  {
    GcdBitsFields(gcd, el);
    if gcd & EFI_MEMORY_CACHETYPE_MASK == 0 {
      OnlyPermissions(GcdBits(gcd, el), bits, gcd, el.EL2?);
    }
  }

  lemma SetAttributesWord(gcd: bv64, before: bv64, mask: bv64, bits: bv64, el2: bool)
    requires before & !TT_ATTRIBUTES_MASK == 0 && AttributesSet(0, bits, gcd, el2)
    requires mask == if gcd & 0x1F != 0 then 0 else
               !(TT_ADDRESS_MASK_BLOCK_ENTRY | TT_AP_MASK | TT_PXN_MASK | TT_XN_MASK) & !TT_TYPE_MASK
    ensures AttributesSet(before, (before & mask) | bits, gcd, el2)
  {
    if gcd & 0x1F == 0 {
      PermissionWord(before, mask, bits, gcd, el2);
    } else {
      OverwrittenWord(before, mask, bits, gcd, el2);
    }
  }

  lemma SetAttributesEffect(gcd: bv64, before: bv64, mask: Mask, bits: bv64, after: bv64, el2: bool)
    requires AttributesOk(before) && AttributesSet(0, bits, gcd, el2)
    requires mask == SetAttributes(gcd).BlockEntryMask()
    requires after == (before & mask.attributes) | bits
    ensures AttributesSet(before, after, gcd, el2)
  {
    SetAttributesWord(gcd, before, mask.attributes, bits, el2);
  }

  lemma SetAttributesEffectAt(call: Call, el: ExceptionLevel, before: bv64, mask: Mask, bits: bv64, after: bv64)
    requires AttributesOk(before) && mask == call.BlockEntryMask() && bits == call.Bits(el)
    requires call.SetAttributes? && after == (before & mask.attributes) | bits
    ensures CallEffect(call, el, before, after)
  {
    SetAttributesBits(call.gcd, el, bits);
    SetAttributesEffect(call.gcd, before, mask, bits, after, el.EL2?);
  }

  lemma OtherEffectAt(call: Call, el: ExceptionLevel, before: bv64, mask: Mask, bits: bv64, after: bv64)
    requires AttributesOk(before) && mask == call.BlockEntryMask() && bits == call.Bits(el)
    requires !call.SetAttributes? && after == (before & mask.attributes) | bits
    ensures CallEffect(call, el, before, after)
  {
    match call
    case SetNoExec => SetNoExecEffect(before, mask, bits, after, el);
    case ClearNoExec => ClearNoExecEffect(before, mask, bits, after, el);
    case SetReadOnly => SetReadOnlyEffect(before, mask, bits, after, el);
    case ClearReadOnly => ClearReadOnlyEffect(before, mask, bits, after, el);
  }

  lemma EffectAt(call: Call, el: ExceptionLevel, before: bv64, mask: Mask, bits: bv64, after: bv64)
    requires AttributesOk(before) && mask == call.BlockEntryMask() && bits == call.Bits(el)
    requires after == (before & mask.attributes) | bits
    ensures CallEffect(call, el, before, after)
  {
    if call.SetAttributes? {
      SetAttributesEffectAt(call, el, before, mask, bits, after);
    } else {
      OtherEffectAt(call, el, before, mask, bits, after);
    }
  }

  lemma NothingMasked(mask: bv64, bits: bv64) returns (none: bv64, after: bv64)
    ensures none == 0 && AttributesOk(none) && after == (none & mask) | bits && after == 0 | bits
  {
    none, after := 0, 0 | bits;
  }

  lemma UnmappedPage(va: nat, mask: Mask, bits: bv64) returns (none: bv64, after: bv64)
    ensures none == 0 && AttributesOk(none) && after == (none & mask.attributes) | bits
    ensures AttributesOf(UpdatedMapping(Unmapped, va, bits, mask)) == after
  {
    none, after := NothingMasked(mask.attributes, bits);
  }

  lemma MappedPage(before: bv64, va: nat, mask: Mask, bits: bv64) returns (after: bv64)
    ensures after == (before & mask.attributes) | bits
    ensures AttributesOf(UpdatedMapping(Mapped(va, before), va, bits, mask)) == after
  {
    after := (before & mask.attributes) | bits;
  }

  /** The attributes of a page before and after its entry is updated. */
  lemma PageWords(before: Mapping, va: nat, mask: Mask, bits: bv64) returns (a: bv64, b: bv64)
    requires before.Mapped? ==> before.address == va && AttributesOk(before.attributes)
    ensures a == AttributesOf(before) && AttributesOk(a)
    ensures b == AttributesOf(UpdatedMapping(before, va, bits, mask)) && b == (a & mask.attributes) | bits
  {
    match before
    case Unmapped => a, b := UnmappedPage(va, mask, bits);
    case Mapped(_, attributes) =>
      a := attributes;
      b := MappedPage(attributes, va, mask, bits);
  }

  lemma PageHasEffect(call: Call, el: ExceptionLevel, before: Mapping, va: nat, mask: Mask, bits: bv64)
    requires before.Mapped? ==> before.address == va && AttributesOk(before.attributes)
    requires mask == call.BlockEntryMask() && bits == call.Bits(el)
    ensures EffectOnPage(call, el, before, UpdatedMapping(before, va, bits, mask), va)
  {
    var a, b := PageWords(before, va, mask, bits);
    EffectAt(call, el, a, mask, bits, b);
  }

  lemma UpdateHasEffect(
    m: Memory, m': Memory, g: Geometry, places: Places, call: Call, lo: nat, reached: nat, mask: Mask, bits: bv64,
    el: ExceptionLevel)
    requires WellFormed(m, g, places) && mask == call.BlockEntryMask() && bits == call.Bits(el)
    requires RegionUpdated(m, m', g, lo, reached, bits, mask)
    ensures EffectOnWalk(m, m', g, call, lo, reached, el)
  {
    forall va: nat | lo <= va < reached
      ensures EffectOnPage(call, el, Walk(m, g, va), Walk(m', g, va), va)
    {
      WalkIsIdentity(m, g, places, va);
      PageHasEffect(call, el, Walk(m, g, va), va, mask, bits);
    }
  }

  /** One entry of the table that ArmConfigureMmu is given; the physical base is not used. */
  datatype Region = Region(virtualBase: nat, length: nat, attributes: RegionAttributes)

  predicate InRegion(r: Region, va: nat) {
    r.virtualBase <= va < r.virtualBase + r.length
  }

  function RegionMappingAt(r: Region, va: nat, el: ExceptionLevel): Mapping {
    Mapped(va, RegionBits(r.attributes, el) | TT_AF)
  }

  lemma RegionMappedAs(r: Region, va: nat, el: ExceptionLevel)
    ensures MappedAs(RegionMappingAt(r, va, el), va, r.attributes, el)
  {
    RegionBitsSayKind(r.attributes, el);
  }

  /** The flat map that a list of regions describes when each overwrites the ones before it. */
  function MappingOf(regions: seq<Region>, va: nat, el: ExceptionLevel): Mapping {
    if regions == [] then Unmapped
    else if InRegion(regions[|regions| - 1], va) then RegionMappingAt(regions[|regions| - 1], va, el)
    else MappingOf(regions[..|regions| - 1], va, el)
  }

  /** Region `k` covers the address and no later one does. */
  ghost predicate LastCovering(regions: seq<Region>, k: nat, va: nat) {
    k < |regions| && InRegion(regions[k], va) && forall j: nat | k < j < |regions| :: !InRegion(regions[j], va)
  }

  ghost predicate Uncovered(regions: seq<Region>, va: nat) {
    forall j: nat | j < |regions| :: !InRegion(regions[j], va)
  }

  /** The last covering region decides. */
  lemma {:induction false} LastCoveringRegionWins(regions: seq<Region>, k: nat, va: nat, el: ExceptionLevel)
    requires LastCovering(regions, k, va)
    ensures MappedAs(MappingOf(regions, va, el), va, regions[k].attributes, el)
    ensures MappingOf(regions, va, el) == RegionMappingAt(regions[k], va, el)
  {
    RegionMappedAs(regions[k], va, el);
    if k != |regions| - 1 {
      LastCoveringRegionWins(regions[..|regions| - 1], k, va, el);
    }
  }

  lemma {:induction false} UncoveredIsUnmapped(regions: seq<Region>, va: nat, el: ExceptionLevel)
    requires Uncovered(regions, va)
    ensures MappingOf(regions, va, el) == Unmapped
  {
    if regions != [] {
      UncoveredIsUnmapped(regions[..|regions| - 1], va, el);
    }
  }

  /** Every address is mapped as the kind of the last region that covers it, or not at all. */
  ghost predicate MapsKinds(m: Memory, g: Geometry, regions: seq<Region>, el: ExceptionLevel) {
    && (forall va: nat, k: nat | LastCovering(regions, k, va) ::
          MappedAs(Walk(m, g, va), va, regions[k].attributes, el))
    && forall va: nat | Uncovered(regions, va) :: Walk(m, g, va) == Unmapped
  }

  lemma FlatMapSaysKinds(m: Memory, g: Geometry, regions: seq<Region>, el: ExceptionLevel)
    requires forall va: nat :: Walk(m, g, va) == MappingOf(regions, va, el)
    ensures MapsKinds(m, g, regions, el)
  {
    forall va: nat, k: nat | LastCovering(regions, k, va)
      ensures MappedAs(Walk(m, g, va), va, regions[k].attributes, el)
    {
      LastCoveringRegionWins(regions, k, va, el);
    }
    forall va: nat | Uncovered(regions, va)
      ensures Walk(m, g, va) == Unmapped
    {
      UncoveredIsUnmapped(regions, va, el);
    }
  }

  /** With the mask that clears everything, an update forgets what was mapped before. */
  lemma FillForgets(before: Mapping, va: nat, attributes: bv64)
    ensures UpdatedMapping(before, va, attributes, CLEAR_ALL) == Mapped(va, attributes)
  {
  }

  /** Over any run of permission-only calls, every address that was mapped stays mapped to itself with
      its memory type, shareability and access flag. */
  lemma PermissionCallsKeepTypes(
    ms: seq<Memory>, g: Geometry, places: Places, steps: seq<Step>, el: ExceptionLevel, va: nat)
    requires IsRun(ms, g, steps, el) && WellFormed(ms[0], g, places)
    requires forall s | s in steps :: s.call.PermissionOnly()
    requires Walk(ms[0], g, va).Mapped?
    ensures var after := Walk(ms[|steps|], g, va);
            && after.Mapped? && after.address == va
            && SameType(after.attributes, Walk(ms[0], g, va).attributes)
  {
    WalkIsIdentity(ms[0], g, places, va);
    RunIsPointwise(ms, g, steps, el, va);
    PermissionRunKeepsType(Walk(ms[0], g, va).attributes, va, steps, el);
  }

  /** Setting and then clearing NoExec on one range gives back the original walk of exactly the
      addresses outside the range and the mapped, executable ones inside it. */
  lemma NoExecRoundTrip(
    m0: Memory, m1: Memory, m2: Memory, g: Geometry, places: Places, lo: nat, hi: nat, el: ExceptionLevel, va: nat)
    requires WellFormed(m0, g, places)
    requires IsRun([m0, m1, m2], g, [Step(SetNoExec, lo, hi), Step(ClearNoExec, lo, hi)], el)
    ensures var before := Walk(m0, g, va);
            Walk(m2, g, va) == before
            <==> !(lo <= va < hi)
                 || (before.Mapped? && before.attributes & (TT_PXN_MASK | TT_XN_MASK) == 0)
  {
    var steps := [Step(SetNoExec, lo, hi), Step(ClearNoExec, lo, hi)];
    var ms := [m0, m1, m2];
    assert RegionUpdated(ms[0], ms[1], g, steps[0].base, steps[0].reached,
                         steps[0].call.Bits(el), steps[0].call.BlockEntryMask());
    assert RegionUpdated(ms[1], ms[2], g, steps[1].base, steps[1].reached,
                         steps[1].call.Bits(el), steps[1].call.BlockEntryMask());
    WalkIsIdentity(m0, g, places, va);
    ClearUndoesSetNoExec(Walk(m0, g, va), va, el);
  }

  /** Setting and then clearing ReadOnly on one range gives back the original walk of exactly the addresses
      outside the range and those inside it that were mapped with access permissions TT_AP_RW_RW. */
  lemma ReadOnlyRoundTrip(
    m0: Memory, m1: Memory, m2: Memory, g: Geometry, places: Places, lo: nat, hi: nat, el: ExceptionLevel, va: nat)
    requires WellFormed(m0, g, places)
    requires IsRun([m0, m1, m2], g, [Step(SetReadOnly, lo, hi), Step(ClearReadOnly, lo, hi)], el)
    ensures var before := Walk(m0, g, va);
            Walk(m2, g, va) == before
            <==> !(lo <= va < hi) || (before.Mapped? && before.attributes & TT_AP_MASK == TT_AP_RW_RW)
  {
    var steps := [Step(SetReadOnly, lo, hi), Step(ClearReadOnly, lo, hi)];
    var ms := [m0, m1, m2];
    assert RegionUpdated(ms[0], ms[1], g, steps[0].base, steps[0].reached,
                         steps[0].call.Bits(el), steps[0].call.BlockEntryMask());
    assert RegionUpdated(ms[1], ms[2], g, steps[1].base, steps[1].reached,
                         steps[1].call.Bits(el), steps[1].call.BlockEntryMask());
    WalkIsIdentity(m0, g, places, va);
    ClearUndoesSetReadOnly(Walk(m0, g, va), va, el);
  }

  /** No region is mapped with the permissions that clearing ReadOnly writes. */
  lemma RegionsAreNotRwRw(attributes: RegionAttributes, el: ExceptionLevel)
    ensures (RegionBits(attributes, el) | TT_AF) & TT_AP_MASK != TT_AP_RW_RW
  {
  }

  lemma {:induction false} MappingIsOfARegion(regions: seq<Region>, va: nat, el: ExceptionLevel)
    ensures MappingOf(regions, va, el) == Unmapped
            || exists r | r in regions :: MappingOf(regions, va, el) == RegionMappingAt(r, va, el)
  {
    if regions != [] && !InRegion(regions[|regions| - 1], va) {
      MappingIsOfARegion(regions[..|regions| - 1], va, el);
    }
  }

  /** So in an address space as it was configured, from any list of regions, setting and clearing ReadOnly
      restores no address of the range at all. */
  lemma ConfiguredPagesAreNotRestored(
    m0: Memory, m1: Memory, m2: Memory, g: Geometry, places: Places, regions: seq<Region>,
    lo: nat, hi: nat, el: ExceptionLevel, va: nat)
    requires WellFormed(m0, g, places) && lo <= va < hi
    requires Walk(m0, g, va) == MappingOf(regions, va, el)
    requires IsRun([m0, m1, m2], g, [Step(SetReadOnly, lo, hi), Step(ClearReadOnly, lo, hi)], el)
    ensures Walk(m2, g, va) != Walk(m0, g, va)
  {
    ReadOnlyRoundTrip(m0, m1, m2, g, places, lo, hi, el, va);
    MappingIsOfARegion(regions, va, el);
    if Walk(m0, g, va).Mapped? {
      var r :| r in regions && MappingOf(regions, va, el) == RegionMappingAt(r, va, el);
      RegionsAreNotRwRw(r.attributes, el);
    }
  }

  lemma NoExecOfDevice(va: nat, el: ExceptionLevel)
    ensures var device := Mapped(va, RegionBits(Device, el) | TT_AF);
            && SetThenClearNoExec(device, va, el) == Mapped(va, TT_ATTR_INDX_DEVICE_MEMORY | TT_AF) != device
            && SetThenClearNoExec(Unmapped, va, el) == Mapped(va, 0)
  {
  }

  function SetThenClearNoExec(before: Mapping, va: nat, el: ExceptionLevel): Mapping {
    UpdatedMapping(
      UpdatedMapping(before, va, SetNoExec.Bits(el), SetNoExec.BlockEntryMask()),
      va, ClearNoExec.Bits(el), ClearNoExec.BlockEntryMask())
  }

  /** Setting and clearing NoExec on one range makes its device pages executable and maps its unmapped pages. */
  lemma NoExecRoundTripFails(
    m0: Memory, m1: Memory, m2: Memory, g: Geometry, lo: nat, hi: nat, el: ExceptionLevel, va: nat)
    requires IsRun([m0, m1, m2], g, [Step(SetNoExec, lo, hi), Step(ClearNoExec, lo, hi)], el) && lo <= va < hi
    ensures Walk(m0, g, va) == Mapped(va, RegionBits(Device, el) | TT_AF) ==>
              Walk(m2, g, va) == Mapped(va, TT_ATTR_INDX_DEVICE_MEMORY | TT_AF) != Walk(m0, g, va)
    ensures Walk(m0, g, va) == Unmapped ==> Walk(m2, g, va) == Mapped(va, 0)
  {
    var steps := [Step(SetNoExec, lo, hi), Step(ClearNoExec, lo, hi)];
    var ms := [m0, m1, m2];
    assert RegionUpdated(ms[0], ms[1], g, steps[0].base, steps[0].reached,
                         steps[0].call.Bits(el), steps[0].call.BlockEntryMask());
    assert RegionUpdated(ms[1], ms[2], g, steps[1].base, steps[1].reached,
                         steps[1].call.Bits(el), steps[1].call.BlockEntryMask());
    assert Walk(m2, g, va) == SetThenClearNoExec(Walk(m0, g, va), va, el);
    NoExecOfDevice(va, el);
  }
}
