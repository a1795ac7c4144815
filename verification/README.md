# Verified models of the MSM8998 firmware core

Dafny models of the parts of this repository in which most can go wrong, with proofs of what they are for.
`dafny verify dfyconfig.toml` checks the whole project.

## What is modelled

**The AArch64 page-table editor** (`Vmsa64`, `Vmsa64Encoding`, `TranslationTree`, `RegionMapping`, `TableDepth`,
`MemoryAttributes`, `ArmMmuLibAArch64`). The library edits a tree of translation tables in place: it walks down, splits
blocks, creates tables over invalid entries and overwrites entries. `Walk` is the hardware walk of the Arm architecture over that
memory. The specification is a flat map from addresses to "unmapped, or mapped to itself with these attributes". The
class `ArmMmu` holds the table memory, the pages the allocator still has, TTBR0 and T0SZ; its invariant `Valid` says
that the tables form a tree with levels going down by one, that upper leaves have the block type and level-3 leaves the
page type, that there are no leaves at level 0, that every leaf is identity-mapped and secure, that invalid entries are
zero, and that no page is both free and in use. The allocator can run out at every call; `TableDepth` bounds how many
pages a call can need.

**The feeder** (`MemoryInitPei`). `MemoryPeim` picks a RAM configuration from the memory banks, selects platform
descriptors, emits HOBs and configures the MMU. The result is stated end to end, for every list of descriptors.

**The ARMv7 page-table editor** (`ArmV7Tables`, `ArmV7Encoding`, `ArmV7Ranges`, `ArmMmuLibArm`). Sections and small
pages are two encodings of one translation. A call cuts its range into chunks and converts sections when needed.

**Device trees** (`FlattenedDeviceTree`, `InspectDtb`, `InspectDtbPaths`, `InspectDtbNames`, `Utf8`, `FdtSearch`). The
token parser is proved against an independent definition of trees and their encoding (sections 5.4.1 and 5.4.2 of the
Devicetree Specification), with names in the nodes or in a strings block, and the two searches for trees in a blob
against the set of all offsets.

**Boot images** (`BootImage`, `OsVersion`). The writer for header versions 0 to 2 and its two readers, the command
line, and the version texts.

**Two smaller cores** (`FrameBuffer`, `KeypadQueue`). The glyph rasteriser with its moving pointer, and the ring of
keys that drops the oldest.

`Arithmetic`, `Bytes` and `Terminated` hold shared facts. Products, quotients and remainders by
variables appear there as recursive functions (`Times`, `Quot`, `Rem`, `AlignDown4`), each with a lemma that it is the
operation of that name.

## Findings

- The split of a block builds the output addresses of the new table from the virtual address
  (`ArmMmuLibCore.c:269-291`, AArch64). That is right only because every leaf is identity-mapped, which every call
  keeps (`WalkIsIdentity`).
- A region whose start is not at a page boundary makes `UpdateRegionMapping` report EFI_OUT_OF_RESOURCES even though
  pages are left, because both failures of `GetBlockEntryListFromAddress` return NULL
  (`UnalignedStartIsOutOfResources`).
- Setting and clearing ReadOnly restores only pages that were TT_AP_RW_RW (`ReadOnlyRoundTrip`), which no configured
  page is (`ConfiguredPagesAreNotRestored`), and setting and clearing NoExec only pages that were mapped and executable
  (`NoExecRoundTrip`, `NoExecRoundTripFails`).
- The ARMv7 conversion of a section to pages resets NS and domain, and turns an unmapped section into 256 pages mapped
  without access rights (`Convert`, `ConversionMakesSecure`). A call does what it was asked and nothing else exactly if
  the sections its range cuts are page tables or mapped, secure and in domain 0 (`ExactlyWhen`).
- A zero ARMv7 page-table entry that is updated is mapped to address 0 and not to itself (`MappedToItselfWhen`,
  `ZeroPageEntryIsMappedToZero`).
- On AArch64 a request for more than one memory type, or for one that is none of the four, is not refused: it sets
  AttrIndx to 7 (`GcdBitsFields`). On ARMv7 the first of several types is taken, and an unknown one is refused
  (`AttributesAfterCall`, `SupportedTypes`).
- A total of RAM outside the three windows, for example 12 GiB, selects the 4 GB configuration (`ConfigOfTotal`).
- A replacement tree whose totalsize is its length can still be missed, or make the search raise an error, if it holds a
  second magic (`SwapIsFindable`, `WholeTreeIsMissed`, `WholeTreeRaisesError`).
- A property name that is not UTF-8 makes the parser raise an error (`ParseTree`), while different malformed node names
  can be shown as one: then one path holds the properties of several nodes (`MalformedSiblingsMerge`). A node's path
  holds exactly its own properties if and only if no other node that is shown alike has any (`ParseNode`).
- The scanner's size prediction is wrong for every version 1 or 2 image that holds a recovery image or a device tree
  (`PredictionIsRight`, `PredictionIsWrongForDtb`).

## Model

| member | source | states |
|---|---|---|
| `RegionMapping.RootTableSpansAddressSpace` | Platforms/Msm8998FamilyPkg/Library/ArmMmuLib/AArch64/ArmMmuLibCore.c:102-120 | For every supported T0SZ, the entries of the root table together cover exactly 2^(64-T0SZ) bytes, so no valid address indexes past it. |
| `ArmMmuLibAArch64.LookupAddresstoRootTable` | Platforms/Msm8998FamilyPkg/Library/ArmMmuLib/AArch64/ArmMmuLibCore.c:139-167 | T0SZ is the largest value whose address space still contains MaxAddress: 2^(63-T0SZ) <= MaxAddress < 2^(64-T0SZ). It is 64 exactly for the addresses 0 and 1, whose top bit the scan never finds. |
| `ArmMmuLibAArch64.ChooseT0SZ` | Platforms/Msm8998FamilyPkg/Library/ArmMmuLib/AArch64/ArmMmuLibCore.c:606-610 | The chosen address space has as many bits as physical addresses, capped at 48, and the resulting T0SZ is one the table code supports. |
| `Vmsa64Encoding.PartsDetermineWord` | Platforms/Msm8998FamilyPkg/Library/ArmMmuLib/AArch64/ArmMmuLibCore.c:369-372 | A descriptor word is determined by its type bits, its address field and its other bits, so it can be kept in these parts. |
| `Vmsa64Encoding.UpdatedWord` | Platforms/Msm8998FamilyPkg/Library/ArmMmuLib/AArch64/ArmMmuLibCore.c:369-372 | Masking and or-ing a whole 64-bit word, as the inner loop does, gives each part what the model gives it. |
| `Vmsa64Encoding.UpdatedEntryParts` | Platforms/Msm8998FamilyPkg/Library/ArmMmuLib/AArch64/ArmMmuLibCore.c:369-372 | The parts so computed are those of the entry the model stores, with the block address unchanged by the address mask. |
| `Vmsa64Encoding.CallsUpdateWords` | Platforms/Msm8998FamilyPkg/Library/ArmMmuLib/AArch64/ArmMmuLibCore.c:453-576 | The mask words and the bits that the five calls pass are of the kind for which this holds. |
| `TranslationTree.WalkPassesThrough` | Platforms/Msm8998FamilyPkg/Library/ArmMmuLib/AArch64/ArmMmuLibCore.c:244-254 | In a well-formed tree the hardware walk of any address below a table reaches that table from the root. |
| `TranslationTree.WalkUnaffected` | Platforms/Msm8998FamilyPkg/Library/ArmMmuLib/AArch64/ArmMmuLibCore.c:369-372 | Rewriting one entry changes no translation outside the addresses of that entry, whatever the shape of the tree. |
| `TranslationTree.StoreLeaf` | Platforms/Msm8998FamilyPkg/Library/ArmMmuLib/AArch64/ArmMmuLibCore.c:369-372 | Writing a leaf over an entry that links no table remaps exactly the addresses of that entry and keeps the tree well formed. |
| `TranslationTree.AttachTable` | Platforms/Msm8998FamilyPkg/Library/ArmMmuLib/AArch64/ArmMmuLibCore.c:281-310 | Hanging a table below an entry changes no translation, if the table says for each of the 512 parts what the entry said. |
| `TranslationTree.WalkIsIdentity` | Platforms/Msm8998FamilyPkg/Library/ArmMmuLib/AArch64/ArmMmuLibCore.c:269-291 | Every address of a well-formed tree is unmapped or translates to itself, with attribute bits inside the attribute mask and without TT_NS. This is what makes the split, which builds output addresses from the virtual address, correct. |
| `TranslationTree.TablesAreDisjoint` | Platforms/Msm8998FamilyPkg/Library/ArmMmuLib/AArch64/ArmMmuLibCore.c:244-310 | The tables form a tree: two different tables of one level never cover a common address. |
| `RegionMapping.SplitAt` | Platforms/Msm8998FamilyPkg/Library/ArmMmuLib/AArch64/ArmMmuLibCore.c:255-291 | The 512 smaller blocks that a split writes translate every address of the old block as it did, and the TT_TABLE_NS case never arises. |
| `RegionMapping.AttachAt` | Platforms/Msm8998FamilyPkg/Library/ArmMmuLib/AArch64/ArmMmuLibCore.c:281-310 | Linking a page from the allocator keeps the tree and the pool disjoint, loses no page and changes no walk. |
| `RegionMapping.StoreStep` | Platforms/Msm8998FamilyPkg/Library/ArmMmuLib/AArch64/ArmMmuLibCore.c:368-376 | One turn of the inner loop moves the end of the updated part by exactly one block. |
| `RegionMapping.PickLevel` | Platforms/Msm8998FamilyPkg/Library/ArmMmuLib/AArch64/ArmMmuLibCore.c:218-237 | The level picked is the coarsest one, from 1 on, whose blocks are aligned as the program counts alignment and no longer than what is left. |
| `ArmMmuLibAArch64.ArmMmu.SplitBlockEntry` | Platforms/Msm8998FamilyPkg/Library/ArmMmuLib/AArch64/ArmMmuLibCore.c:254-295 | A block is replaced by a table one level down with every walk unchanged, or nothing changes because no page is left. |
| `ArmMmuLibAArch64.ArmMmu.CreateTable` | Platforms/Msm8998FamilyPkg/Library/ArmMmuLib/AArch64/ArmMmuLibCore.c:296-311 | An empty table is hung below an invalid entry with every walk unchanged, or nothing changes because no page is left. |
| `ArmMmuLibAArch64.ArmMmu.Descend` | Platforms/Msm8998FamilyPkg/Library/ArmMmuLib/AArch64/ArmMmuLibCore.c:244-315 | One turn of the walk keeps every translation and goes one level down or stops at an entry that links no table; it makes at most one table, and only where there was none. |
| `ArmMmuLibAArch64.ArmMmu.GetBlockEntryListFromAddress` | Platforms/Msm8998FamilyPkg/Library/ArmMmuLib/AArch64/ArmMmuLibCore.c:169-329 | Every walk is unchanged. The entry returned starts at the region start, is no larger than what is left, lies in its table at or before the last entry, and is never a table descriptor. The tables made are exactly those missing between the old end of the walk and the returned level. No entry comes back only for bad parameters, without any change, or when the allocator has fewer pages than that. |
| `ArmMmuLibAArch64.ArmMmu.StoreEntry` | Platforms/Msm8998FamilyPkg/Library/ArmMmuLib/AArch64/ArmMmuLibCore.c:368-376 | One turn of the inner loop writes one word, remaps exactly its block and makes no table reachable or unreachable. |
| `ArmMmuLibAArch64.ArmMmu.FillEntries` | Platforms/Msm8998FamilyPkg/Library/ArmMmuLib/AArch64/ArmMmuLibCore.c:367-387 | The inner loop makes progress, never writes past the last entry of its table nor over a table descriptor, never lets the remaining length underflow, and updates exactly the addresses it has passed. |
| `TableDepth.SharedDepth` | Platforms/Msm8998FamilyPkg/Library/ArmMmuLib/AArch64/ArmMmuLibCore.c:244-254 | Two addresses in one block of a level share their tables down to the level below it. |
| `TableDepth.AttachDeepens` | Platforms/Msm8998FamilyPkg/Library/ArmMmuLib/AArch64/ArmMmuLibCore.c:281-310 | Hanging a table below an entry makes the walk of exactly the addresses of that entry one level longer. |
| `TableDepth.NewTables` | Platforms/Msm8998FamilyPkg/Library/ArmMmuLib/AArch64/ArmMmuLibCore.c:218-315 | After the first step, new tables are needed only at the start of a 512 GB block or for the end of the region, and then the end shares all of them. |
| `ArmMmuLibAArch64.ArmMmu.UpdateBlocks` | Platforms/Msm8998FamilyPkg/Library/ArmMmuLib/AArch64/ArmMmuLibCore.c:353-388 | One turn of the outer loop advances the updated part and stays within the balance of pages of the whole call. |
| `ArmMmuLibAArch64.ArmMmu.UpdateRegionMapping` | Platforms/Msm8998FamilyPkg/Library/ArmMmuLib/AArch64/ArmMmuLibCore.c:331-391 | Refinement of the flat map: on success every address of the region maps to itself with (old & mask) | attributes, old being 0 if it was unmapped, and every other address walks as before. If a table cannot be allocated there is a clean cut: the part before it is fully updated and everything else walks as before. From a page boundary this cannot happen with six free pages and one more for each further 512 GB. Bad lengths, and only those, are refused; they and an unaligned start leave the tables and the allocator untouched. |
| `ArmMmuLibAArch64.UnalignedStartIsOutOfResources` | Platforms/Msm8998FamilyPkg/Library/ArmMmuLib/AArch64/ArmMmuLibCore.c:202-206 | A region that starts at 0x800 is reported as EFI_OUT_OF_RESOURCES with a page left. |
| `ArmMmuLibAArch64.ArmMmu.FillTranslationTable` | Platforms/Msm8998FamilyPkg/Library/ArmMmuLib/AArch64/ArmMmuLibCore.c:393-407 | A region of the table forgets what its addresses were mapped to and gives them its own attributes and the access flag, up to where it was cut short, and changes nothing else. |
| `ArmMmuLibAArch64.ArmMmu.Perform` | Platforms/Msm8998FamilyPkg/Library/ArmMmuLib/AArch64/ArmMmuLibCore.c:453-576 | Each of the five calls on a live address space is one step of a run, complete or cut short, and keeps the tree invariant. Each address in its part is afterwards mapped to itself: with XN set (PXN and UXN at EL1) or both cleared, AP read-only or TT_AP_RW_RW, and no other attribute bit changed; or, for SetAttributes, read-only and no-exec exactly as requested, device memory never executable, with the requested memory type and the shareability it needs, or all other bits as they were if no type was requested. |
| `MemoryAttributes.EffectAt` | Platforms/Msm8998FamilyPkg/Library/ArmMmuLib/AArch64/ArmMmuLibCore.c:453-576 | This is so for every attribute word, read field by field at the bit positions of the architecture, for each of the calls and at each exception level. |
| `MemoryAttributes.GcdBitsFields` | Platforms/Msm8998FamilyPkg/Library/ArmMmuLib/AArch64/ArmMmuLibCore.c:409-449 | The attributes made from a UEFI request have the AttrIndx, shareability, access flag, AP, PXN and UXN that it stands for, and no other bit. |
| `MemoryAttributes.GcdRoundTrip` | Platforms/Msm8998FamilyPkg/Library/ArmMmuLib/AArch64/ArmMmuLibCore.c:60-100 | Decoding the attributes made for one of the four memory types gives the request back: its type, read-only and no-exec, with device memory made no-exec. |
| `MemoryAttributes.RegionBitsSayKind` | Platforms/Msm8998FamilyPkg/Library/ArmMmuLib/AArch64/ArmMmuLibCore.c:24-58 | For each of the ten region kinds and each exception level, PageAttributeToGcdAttribute decodes the descriptor bits to the memory type and permissions of the kind; cached kinds are inner shareable unless they say otherwise, and only device memory is not executable. |
| `MemoryAttributes.RunIsPointwise` | Platforms/Msm8998FamilyPkg/Library/ArmMmuLib/AArch64/ArmMmuLibCore.c:453-576 | After any run of such steps, over any overlapping ranges, each address is mapped as the steps that cover it say, one after another. |
| `MemoryAttributes.PermissionCallsKeepTypes` | Platforms/Msm8998FamilyPkg/Library/ArmMmuLib/AArch64/ArmMmuLibCore.c:463-483 | Any run of permission-only calls leaves memory type, shareability and access flag of every mapped address alone and keeps it mapped to itself. |
| `MemoryAttributes.NoExecRoundTrip` | Platforms/Msm8998FamilyPkg/Library/ArmMmuLib/AArch64/ArmMmuLibCore.c:513-550 | Clearing NoExec after setting it on one range gives an address its original walk if and only if it lies outside the range or was mapped and executable. |
| `MemoryAttributes.NoExecRoundTripFails` | Platforms/Msm8998FamilyPkg/Library/ArmMmuLib/AArch64/ArmMmuLibCore.c:513-550 | After the two calls on one range the device pages in it are executable and the unmapped ones are mapped. |
| `MemoryAttributes.ReadOnlyRoundTrip` | Platforms/Msm8998FamilyPkg/Library/ArmMmuLib/AArch64/ArmMmuLibCore.c:552-576 | Clearing ReadOnly after setting it on one range gives an address its original walk if and only if it lies outside the range or was mapped with access permissions TT_AP_RW_RW, the value the clear always writes. |
| `MemoryAttributes.ConfiguredPagesAreNotRestored` | Platforms/Msm8998FamilyPkg/Library/ArmMmuLib/AArch64/ArmMmuLibCore.c:552-576 | No region is mapped with these permissions, so in an address space as it was configured, from any list, the round trip restores no address of the range. |
| `MemoryAttributes.LastCoveringRegionWins` | Platforms/Msm8998FamilyPkg/Library/ArmMmuLib/AArch64/ArmMmuLibCore.c:713-733 | In the flat map of a region list an address is mapped to itself as the kind of the last region that covers it: its attributes decode to the memory type and permissions of that kind. |
| `MemoryAttributes.UncoveredIsUnmapped` | Platforms/Msm8998FamilyPkg/Library/ArmMmuLib/AArch64/ArmMmuLibCore.c:713-733 | An address that no region covers is unmapped. |
| `ArmMmuLibAArch64.ArmMmu.CreateRootTable` | Platforms/Msm8998FamilyPkg/Library/ArmMmuLib/AArch64/ArmMmuLibCore.c:683-700 | A new root table, of which only the entries in use are cleared, is a valid tree that maps nothing. |
| `ArmMmuLibAArch64.ArmMmu.FillFrom` | Platforms/Msm8998FamilyPkg/Library/ArmMmuLib/AArch64/ArmMmuLibCore.c:713-733 | The loop over the terminated list ends with the walk of every address being what the list says. It fails only for a length that is not whole pages or, if all regions start at page boundaries, with fewer pages than the regions are bounded to need. |
| `ArmMmuLibAArch64.ArmMmu.ArmConfigureMmu` | Platforms/Msm8998FamilyPkg/Library/ArmMmuLib/AArch64/ArmMmuLibCore.c:578-754 | From any pool of pages, configuration either yields a valid tree in which every address is mapped as the kind of the last region that covers it, or not at all if none does, or fails for one of the stated reasons; with enough pages, whole and aligned regions and an exception level below 3 it succeeds. |
| `MemoryInitPei.SelectedFit` | Platforms/Msm8998FamilyPkg/MemoryInitPei/MemoryInitPeiLib.c:131-167 | Whatever is selected from descriptors that fit the address space fits it too and has no empty region, so the table has no early terminator. |
| `MemoryInitPei.RegionsOfTable` | Platforms/Msm8998FamilyPkg/MemoryInitPei/MemoryInitPeiLib.c:169-174 | The table as built, with its terminator, is read back as exactly the selected regions. |
| `MemoryInitPei.Process` | Platforms/Msm8998FamilyPkg/MemoryInitPei/MemoryInitPeiLib.c:132-166 | A descriptor is stored exactly if it is not for HOBs only and, if it is for one RAM size, that is the detected one; it is reported as HOBs exactly if its option asks for that. |
| `MemoryInitPei.SelectRegions` | Platforms/Msm8998FamilyPkg/MemoryInitPei/MemoryInitPeiLib.c:131-174 | The table is the selected descriptors in order, then the terminator; the HOBs are those of the reported descriptors in order. |
| `MemoryInitPei.LastSelectedDescriptorWins` | Platforms/Msm8998FamilyPkg/MemoryInitPei/MemoryInitPeiLib.c:131-167 | Of any list of descriptors, overlapping or not, the last selected one that covers an address decides its mapping: it decodes to the memory type and permissions of its kind. |
| `MemoryInitPei.UnselectedIsUnmapped` | Platforms/Msm8998FamilyPkg/MemoryInitPei/MemoryInitPeiLib.c:131-167 | An address that no selected descriptor covers is unmapped. |
| `MemoryInitPei.MemoryPeim` | Platforms/Msm8998FamilyPkg/MemoryInitPei/MemoryInitPeiLib.c:84-187 | End to end: from the memory banks and the platform list to the walk of every address, which is mapped to itself as the kind of the last selected descriptor that covers it, or not at all. |
| `MemoryInitPei.ConfigOfTotal` | Platforms/Msm8998FamilyPkg/MemoryInitPei/MemoryInitPeiLib.c:105-125 | With the sum of all banks modulo 2^64 as the total, the 6 GB configuration is selected exactly between 5 and 6.5 GiB, the 8 GB one exactly between 7 and 8.5 GiB, and the 4 GB one for every other total. |
| `MemoryInitPei.HobsReport` | Platforms/Msm8998FamilyPkg/MemoryInitPei/MemoryInitPeiLib.c:66-73 | The HOBs report an address with a resource type and attributes, and as allocated with a memory type, if and only if a reported descriptor with these covers it. |
| `ArmV7Encoding.PagePartsDetermineWord` | Platforms/Msm8998FamilyPkg/Library/ArmMmuLib/Arm/ArmMmuLibCore.c:587-594 | A page-table word is determined by its type bits, its address field and its other bits. |
| `ArmV7Encoding.SectionPartsDetermineWord` | Platforms/Msm8998FamilyPkg/Library/ArmMmuLib/Arm/ArmMmuLibCore.c:703-713 | So is the word of a section. |
| `ArmV7Encoding.UpdatedPageWord` | Platforms/Msm8998FamilyPkg/Library/ArmMmuLib/Arm/ArmMmuLibCore.c:587-594 | Masking and or-ing the 32-bit word of a page-table entry gives each part what the model gives it. |
| `ArmV7Encoding.UpdatedSectionWord` | Platforms/Msm8998FamilyPkg/Library/ArmMmuLib/Arm/ArmMmuLibCore.c:703-713 | The same for the word of a mapped section. |
| `ArmV7Encoding.MappedSectionWord` | Platforms/Msm8998FamilyPkg/Library/ArmMmuLib/Arm/ArmMmuLibCore.c:703-713 | A zero first-level word becomes a section at its own address with the requested bits. |
| `ArmV7Encoding.ConvertedPageWord` | Platforms/Msm8998FamilyPkg/Library/ArmMmuLib/Arm/ArmMmuLibCore.c:451-464 | The words that a conversion writes, with XN moved to bit 0, have the parts of the pages in the model. |
| `ArmV7Tables.ConvertKeepsFields` | Platforms/Msm8998FamilyPkg/Library/ArmMmuLib/Arm/ArmMmuLibCore.c:55-71 | For every word, TEX, C, B, AP, S and nG read at page positions from the converted attributes are those read at section positions from the section. |
| `ArmV7Tables.UpdatedPageFields` | Platforms/Msm8998FamilyPkg/Library/ArmMmuLib/Arm/ArmMmuLibCore.c:502-546 | For every page-table word, the update gives AP and, if a type is requested, TEX, C and B as requested, and keeps S, nG and what was not requested. |
| `ArmV7Tables.UpdatedSectionFields` | Platforms/Msm8998FamilyPkg/Library/ArmMmuLib/Arm/ArmMmuLibCore.c:630-678 | The same for every word of a section. |
| `ArmV7Tables.SectionReadings` | Platforms/Msm8998FamilyPkg/Library/ArmMmuLib/Arm/ArmMmuLibCore.c:55-71 | Two section words are read alike exactly if they agree on the bits of the fields read, so no field is overlooked. |
| `ArmV7Tables.PageReadings` | Platforms/Msm8998FamilyPkg/Library/ArmMmuLib/Arm/ArmMmuLibCore.c:55-71 | The same for page-table words and links to page tables. |
| `ArmV7Tables.ChangeThenConvert` | Platforms/Msm8998FamilyPkg/Library/ArmMmuLib/Arm/ArmMmuLibCore.c:55-71 | Changing the attributes of a section and converting them to those of a page commute. |
| `ArmV7Tables.ChangeSection` | Platforms/Msm8998FamilyPkg/Library/ArmMmuLib/Arm/ArmMmuLibCore.c:689-724 | Updating a first-level entry that is not a page table changes the translation of exactly that section. |
| `ArmV7Tables.ChangePage` | Platforms/Msm8998FamilyPkg/Library/ArmMmuLib/Arm/ArmMmuLibCore.c:584-602 | Updating a page-table entry changes the translation of exactly that page. |
| `ArmV7Tables.Convert` | Platforms/Msm8998FamilyPkg/Library/ArmMmuLib/Arm/ArmMmuLibCore.c:427-473 | A conversion keeps all other sections. A mapped section keeps everything but NS and domain, which become 0; an unmapped one comes out mapped to itself without access rights. |
| `ArmV7Tables.ConvertPreservesExactlyWhen` | Platforms/Msm8998FamilyPkg/Library/ArmMmuLib/Arm/ArmMmuLibCore.c:427-473 | A conversion preserves every translation if and only if the entry is a section that is secure and in domain 0. |
| `ArmV7Tables.SectionAndPagesAgree` | Platforms/Msm8998FamilyPkg/Library/ArmMmuLib/Arm/ArmMmuLibCore.c:562-602 | Updating a section directly and converting it first and updating its 256 pages give each address the same translation, up to NS and domain. |
| `ArmMmuLibArm.ChunkLengthOk` | Platforms/Msm8998FamilyPkg/Library/ArmMmuLib/Arm/ArmMmuLibCore.c:751-776 | The chunks partition the range: each is positive, no longer than what is left, whole pages, and whole sections where it is treated as sections; a chunk of pages ends at the end of the range or where sections can start. |
| `ArmMmuLibArm.ArmMmu.ConvertSectionToPages` | Platforms/Msm8998FamilyPkg/Library/ArmMmuLib/Arm/ArmMmuLibCore.c:427-473 | The new table holds the 256 converted pages and the entry links it; on failure nothing changes. |
| `ArmMmuLibArm.ArmMmu.UpdatePageEntries` | Platforms/Msm8998FamilyPkg/Library/ArmMmuLib/Arm/ArmMmuLibCore.c:475-610 | Pages are changed one by one; a section is converted only if the whole range cuts it and it is no page table yet; running out of pages leaves a clean cut at such a section. |
| `ArmMmuLibArm.ArmMmu.UpdateSectionEntries` | Platforms/Msm8998FamilyPkg/Library/ArmMmuLib/Arm/ArmMmuLibCore.c:612-728 | Sections and already converted sections inside the range are all changed and keep NS and domain; this never needs a new table, so it cannot fail part-way. |
| `ArmMmuLibArm.ArmMmu.ArmSetMemoryAttributes` | Platforms/Msm8998FamilyPkg/Library/ArmMmuLib/Arm/ArmMmuLibCore.c:730-796 | Every translation after the call is fixed: the reached part is changed as asked, the sections the range cuts are converted when it reaches them, and nothing else changes. On success this is exactly the requested change if and only if each section that the range cuts is a page table or is mapped, secure and in domain 0. It runs out of pages only at a cut section that is no page table, and never with two free pages. |
| `ArmMmuLibArm.AttributesAfterCall` | Platforms/Msm8998FamilyPkg/Library/ArmMmuLib/Arm/ArmMmuLibCore.c:730-796 | In the reached part every address is mapped no-exec exactly if EFI_MEMORY_XP was requested, read-only exactly if EFI_MEMORY_RO was, with the requested memory type or else the one it had, and with the S and nG it had. |
| `ArmMmuLibArm.SupportedTypes` | Platforms/Msm8998FamilyPkg/Library/ArmMmuLib/Arm/ArmMmuLibCore.c:536-540 | A request is refused exactly if it asks for a memory type but for none of the four known ones. |
| `ArmV7Ranges.Advance` | Platforms/Msm8998FamilyPkg/Library/ArmMmuLib/Arm/ArmMmuLibCore.c:580-607 | Finishing one more page or section, with the conversion it may need, moves the reached end of the range by exactly that block. |
| `ArmV7Ranges.ExactlyWhen` | Platforms/Msm8998FamilyPkg/Library/ArmMmuLib/Arm/ArmMmuLibCore.c:730-796 | For a call that was cut short, the same equivalence between the requested change and the sections it has found cut. |
| `ArmV7Ranges.MappedToItselfWhen` | Platforms/Msm8998FamilyPkg/Library/ArmMmuLib/Arm/ArmMmuLibCore.c:584-602 | An updated address is mapped to itself if and only if it was, or its whole section was unmapped, or its page-table entry was zero and it lies in the first page. |
| `ArmV7Ranges.ZeroPageEntryIsMappedToZero` | Platforms/Msm8998FamilyPkg/Library/ArmMmuLib/Arm/ArmMmuLibCore.c:584-602 | At a page table with a zero entry, updating the page at 0x1000 maps it to address 0. |
| `ArmV7Ranges.ConversionMakesSecure` | Platforms/Msm8998FamilyPkg/Library/ArmMmuLib/Arm/ArmMmuLibCore.c:465-470 | Converting a non-secure section at 1 MB makes all its addresses secure. |
| `ArmV7Ranges.FullyMappedIsExact` | Platforms/Msm8998FamilyPkg/Library/ArmMmuLib/Arm/ArmMmuLibCore.c:730-796 | If the sections that the range cuts are mapped, secure and in domain 0 where it meets them, a call replaces exactly the permissions, and the memory type if given, of each reached page, and changes no other translation, even where it converts sections. |
| `InspectDtb.ParseLoop` | Tools/inspect-dtb.py:52-79 | The loop terminates on all inputs and computes the parse function, error cases included. |
| `InspectDtb.ParseDtb` | Tools/inspect-dtb.py:33-51 | The header yields the two blocks; a short file or a wrong magic is refused. |
| `InspectDtb.TurnReadsToken` | Tools/inspect-dtb.py:56-79 | On the bytes of an encoded token, one turn of the loop does what the token says and stops exactly behind its padding. |
| `InspectDtb.PropertyIs` | Tools/inspect-dtb.py:66-73 | For all bytes: a property token gives as much of the value as there is and the next multiple of four after its length; it fails exactly if its two words are cut off, its name has no terminator, or its name is not UTF-8. |
| `InspectDtb.RunIgnoresNops` | Tools/inspect-dtb.py:74-75 | NOP tokens at any places do not change the outcome. |
| `Utf8.DecodeOfWellFormed` | Tools/inspect-dtb.py:61 | Decoding with replacement always gives well-formed text, and leaves exactly the well-formed names as they are. |
| `Utf8.TextIsWellFormed` | Tools/inspect-dtb.py:61 | Every sequence of Unicode scalar values, encoded by the table of RFC 3629, is well formed. |
| `Utf8.WellFormedIsText` | Tools/inspect-dtb.py:61 | Everything that is well formed is the encoding of such a sequence: no overlong forms, no surrogates, nothing beyond U+10FFFF. |
| `Utf8.MalformedPieces` | Tools/inspect-dtb.py:61 | A cut-off sequence is shown as one U+FFFD, the bytes of a surrogate as three. |
| `Utf8.MalformedNamesMerge` | Tools/inspect-dtb.py:61 | The different names 0xFF and 0xFE are decoded to the same text. |
| `Bytes.AlignDown4Is` | Tools/inspect-dtb.py:62 | Rounding down to a multiple of four is subtracting the remainder. |
| `InspectDtb.ParseTree` | Tools/inspect-dtb.py:51-80 | For every tree, encoded with any NOPs and padding, the parser ends with an empty stack, counts the nodes, and returns under each path exactly the properties of the nodes with that path, in document order; it raises an error if and only if some property name is not UTF-8. |
| `InspectDtb.ParseOfEncoding` | Tools/inspect-dtb.py:51-80 | Round trip: encoding any tree that the format can hold and parsing it at the place it was put gives the properties back, or the error if a property name is not UTF-8. |
| `InspectDtbNames.NameBetween` | Tools/inspect-dtb.py:71-73 | A name that stands terminated in the middle of a strings block is read back exactly from its offset. |
| `InspectDtbNames.ParseNamedTree` | Tools/inspect-dtb.py:51-80 | For every tree whose properties carry their names, whichever strings block holds these names and at whatever offsets, the parser returns under each path exactly the names and values of the nodes with that path. |
| `InspectDtbNames.ParseOfNamedEncoding` | Tools/inspect-dtb.py:51-80 | Round trip: encoding such a tree against any strings block that holds its names and parsing the bytes gives the names and values back. |
| `InspectDtbNames.EncodedExample` | Tools/inspect-dtb.py:56-76 | The encoding of a root with one property, byte by byte. |
| `InspectDtbNames.PathOfNames` | Tools/inspect-dtb.py:72 | The path of no names is "/"; adding a name appends it after a slash, an empty one changes nothing. |
| `InspectDtbPaths.JoinInjective` | Tools/inspect-dtb.py:72 | Joining names that are neither empty nor hold a slash loses nothing. |
| `InspectDtbPaths.OwnExactlyWhen` | Tools/inspect-dtb.py:51-80 | The properties collected under one stack of names are those of one node if and only if the other nodes with that stack have none. |
| `InspectDtbPaths.ParseNode` | Tools/inspect-dtb.py:51-80 | On every tree whose names, as decoded, are neither empty nor hold a slash, the path of a node holds exactly that node's properties, in order, if and only if every other node with the same names on its way has none. |
| `InspectDtbPaths.ParseWellNamed` | Tools/inspect-dtb.py:51-80 | So if siblings have distinct names as decoded, the path of each node holds exactly that node's properties. |
| `InspectDtbNames.ParseNamedNode` | Tools/inspect-dtb.py:51-80 | And the names and values found there are those the node carries. |
| `InspectDtbPaths.MalformedSiblingsMerge` | Tools/inspect-dtb.py:59-61 | At a root with the children 0xFF and 0xFE of one property each, wherever it is encoded, both children have one path, and it holds the properties of both. |
| `FdtSearch.MagicsDoNotOverlap` | Tools/remux-boot-image.py:91-99 | No two occurrences of the magic are closer than four bytes, so stepping by four skips none. |
| `FdtSearch.FindAppendedDtb` | Tools/remux-boot-image.py:83-99 | The result is the greatest offset of a tree whose size reaches exactly to the end of the payload, nothing if there is none, and an error exactly if some magic is too close to the end to have a size. |
| `FdtSearch.SwapIsFindable` | Tools/remux-boot-image.py:174-186 | A replacement put behind any prefix is found exactly where it was put if and only if its totalsize is its length and no magic inside it is cut off by its end or starts something that reaches its end. |
| `FdtSearch.WholeTreeIsMissed` | Tools/remux-boot-image.py:83-99 | A tree whose totalsize is its length, with a second one in its last eight bytes, is not found behind any prefix; the second one is. |
| `FdtSearch.WholeTreeRaisesError` | Tools/remux-boot-image.py:91-96 | A tree whose totalsize is its length and that ends in a second magic makes the search raise an error. |
| `FdtSearch.SwapDtb` | Tools/remux-boot-image.py:174-186 | The swap keeps the payload before the old tree byte for byte and appends the replacement; it happens exactly if a tree was found and the replacement starts with the magic. |
| `FdtSearch.FindFdts` | Tools/scan-boot-image.py:88-104 | Hopping from magic to magic finds what testing every offset finds, in the same order. |
| `BootImage.PadIsRoundUp` | mkbootimg.py:85-87 | For every power of two the bit masks of the writer pad to where the division of the scanner rounds, which is a page boundary. |
| `BootImage.Output.WritePaddedFile` | mkbootimg.py:352-356 | A file written at a page boundary is followed by zeros up to the next one; an absent file writes nothing. |
| `BootImage.WriteHeader` | mkbootimg.py:185-264 | The header is one page with each of the ten words, the board, the two halves of the command line, the digest and the fields of the later versions at its own byte offset, and zeros behind; writing it fails exactly if one of these numbers does not fit its field or a version 2 image has no device tree. |
| `BootImage.MkBootImg` | mkbootimg.py:185-264 | The whole image is the header page followed by the padded files of its version, in order. |
| `BootImage.WriteData` | mkbootimg.py:624-632 | What is appended is the padded kernel, ramdisk and second stage, then the files of the later versions. |
| `BootImage.FilesArePlaced` | mkbootimg.py:624-632 | Each file of the image is at its computed offset, and the image ends with the last one. |
| `BootImage.RecoveryDtboOffsetIsSum` | mkbootimg.py:95-104 | Counting pages and adding rounded sizes give the same offset. |
| `BootImage.RecordedOffsetIsRight` | mkbootimg.py:237-242 | The offset and size recorded for the recovery image are where its bytes sit in the image. |
| `BootImage.ReadsBackWhatWasWritten` | Tools/remux-boot-image.py:62-80 | Round trip for header versions 0 to 2 and every page size: the reader returns each of the ten fields at its place, load addresses of absent files as 0, and the exact kernel bytes. |
| `BootImage.ExtractKernelWhen` | Tools/remux-boot-image.py:70-80 | For any file with a header, the kernel is the bytes from the page size on, and the extraction fails exactly if they are not all there. |
| `BootImage.PredictionIsRight` | Tools/scan-boot-image.py:66-72 | The scanner checks exactly the images with a kernel and a ramdisk, and the length it predicts is right if and only if nothing follows the second stage: always for version 0. |
| `BootImage.SmallImageIsWritten` | mkbootimg.py:185-264 | There is a version 2 image of one-byte files that the writer accepts. |
| `BootImage.PredictionIsWrongForDtb` | Tools/scan-boot-image.py:66-72 | For such an image, four pages long, three are predicted. |
| `BootImage.CmdlineRejoins` | mkbootimg.py:559-563 | Both halves of every accepted command line fit their fields, and joining them as C strings gives the line back. |
| `BootImage.CmdlineFitsExactly` | mkbootimg.py:485-504 | The limit on the argument is exactly the length up to which both halves fit. |
| `BootImage.ImageHoldsCmdline` | mkbootimg.py:219-220 | The command line can be read back from the bytes of the image. |
| `OsVersion.DecodePacked` | Tools/remux-boot-image.py:102-106 | Unpacking a packed word gives its five parts back. |
| `OsVersion.ParseVersionText` | mkbootimg.py:363-377 | Parsing the text "a.b.c" packs the three numbers; it is refused exactly if one of them needs more than seven bits. |
| `OsVersion.ParseOneNumber` | mkbootimg.py:363-377 | A text that starts with one number, whatever follows, packs it with 0 and 0; it is refused exactly if it needs more than seven bits. |
| `OsVersion.ParseTwoNumbers` | mkbootimg.py:363-377 | A text that starts with two dotted numbers packs them with 0. |
| `OsVersion.ParseThreeNumbers` | mkbootimg.py:363-377 | A text that starts with three dotted numbers, leading zeros or not, packs these three. |
| `OsVersion.ParseNoVersion` | mkbootimg.py:363-377 | A text that starts with no digit packs to 0 without an error. |
| `OsVersion.ParsePatchText` | mkbootimg.py:380-389 | Parsing any "YYYY-MM", whatever follows, for example a day, packs year and month; it is refused exactly if the year is not from 2000 to 2127 or the month is no month. |
| `OsVersion.ParseNoPatch` | mkbootimg.py:380-389 | A text packs to 0 if and only if it does not start with four digits, a hyphen and two digits. |
| `OsVersion.WordRoundTrip` | Tools/remux-boot-image.py:103-106 | For every 32-bit word, text and back gives the same word if and only if its month is from 1 to 12; otherwise the patch level is refused. |
| `OsVersion.TextRoundTrip` | Tools/remux-boot-image.py:103-106 | For every version and patch level that is accepted, decoding the word packed from the texts gives the same numbers back. |
| `FrameBuffer.PassesMakeGlyph` | Platforms/Msm8998FamilyPkg/Library/FrameBufferSerialPortLib/FrameBufferSerialPortLib.c:203-313 | Two passes of background and two of glyph, over both halves of a cell, make the finished cell. |
| `FrameBuffer.GlyphPixel` | Platforms/Msm8998FamilyPkg/Library/FrameBufferSerialPortLib/FrameBufferSerialPortLib.c:187-314 | Pixel (r, c) of a cell is foreground if and only if bit (r / scale mod 6) * 5 + c / scale of the word for its half is set, and background otherwise, in each of its bytes. |
| `FrameBuffer.GlyphElsewhere` | Platforms/Msm8998FamilyPkg/Library/FrameBufferSerialPortLib/FrameBufferSerialPortLib.c:187-314 | A byte that belongs to no pixel of the cell is not changed. |
| `FrameBuffer.ShiftBitsIs` | Platforms/Msm8998FamilyPkg/Library/FrameBufferSerialPortLib/FrameBufferSerialPortLib.c:254-274 | Shifting a glyph word right one bit at a time tests the digit of 2 to the k. |
| `FrameBuffer.ColorBytes` | Platforms/Msm8998FamilyPkg/Library/FrameBufferSerialPortLib/FrameBufferSerialPortLib.c:211-217 | The bytes written for a colour are its digits to base 256, lowest first. |
| `FrameBuffer.Console.DrawGlyph` | Platforms/Msm8998FamilyPkg/Library/FrameBufferSerialPortLib/FrameBufferSerialPortLib.c:187-314 | The nested loops with their moving pointer stay inside the frame buffer and leave it exactly as GlyphPixel and GlyphElsewhere say. |
| `FrameBuffer.CellOnScreen` | Platforms/Msm8998FamilyPkg/Library/FrameBufferSerialPortLib/FrameBufferSerialPortLib.c:149-158 | For every screen large enough and every reachable cursor the cell lies inside the frame buffer. |
| `FrameBuffer.CellPixel` | Platforms/Msm8998FamilyPkg/Library/FrameBufferSerialPortLib/FrameBufferSerialPortLib.c:149-158 | Pixel (r, c) of the cell at cursor (x, y) is pixel (12 y + r, 6 x scale + c) of the screen. |
| `FrameBuffer.CellsAreDisjoint` | Platforms/Msm8998FamilyPkg/Library/FrameBufferSerialPortLib/FrameBufferSerialPortLib.c:149-158 | Cells of different columns of a line, and cells of lines that are scale apart, share no byte. |
| `FrameBuffer.Limits` | Platforms/Msm8998FamilyPkg/Library/FrameBufferSerialPortLib/FrameBufferSerialPortLib.c:99-101 | The column limit is exactly the number of columns of six scaled pixels that fit the width; the line limit n is the largest with 12 n below the height. |
| `FrameBuffer.Console.ResetFb` | Platforms/Msm8998FamilyPkg/Library/FrameBufferSerialPortLib/FrameBufferSerialPortLib.c:70-91 | Every byte of the frame buffer becomes black. |
| `FrameBuffer.BlackBytes` | Platforms/Msm8998FamilyPkg/Library/FrameBufferSerialPortLib/FrameBufferSerialPortLib.c:74-88 | Black is 0 in every byte but the fourth of each pixel, which is 0xFF. |
| `FrameBuffer.Console.PutChar` | Platforms/Msm8998FamilyPkg/Library/FrameBufferSerialPortLib/FrameBufferSerialPortLib.c:108-185 | The control flow with its jumps does what Put says, for which the three laws below hold, and leaves the cursor where the next cell is again on the screen. |
| `FrameBuffer.PutShows` | Platforms/Msm8998FamilyPkg/Library/FrameBufferSerialPortLib/FrameBufferSerialPortLib.c:140-184 | Unless it ends the screen, a character that shows changes only its cell, which holds its glyph; the cursor moves on by one column or to the next line. |
| `FrameBuffer.PutDrawsNothing` | Platforms/Msm8998FamilyPkg/Library/FrameBufferSerialPortLib/FrameBufferSerialPortLib.c:121-144 | Every other character, but a newline that ends the screen, leaves all pixels alone. |
| `FrameBuffer.PutEndsScreen` | Platforms/Msm8998FamilyPkg/Library/FrameBufferSerialPortLib/FrameBufferSerialPortLib.c:167-178 | A character that ends the screen leaves it black but for the first cell, which holds the character if it shows there. |
| `KeypadQueue.PushedAllKeepsLast` | Platforms/Msm8998FamilyPkg/Drivers/KeypadDxe/KeypadTextIn.c:69-83 | However many keys arrive, the queue holds the last 255 of the old and new ones, in arrival order. |
| `KeypadQueue.RunsKeepOrder` | Platforms/Msm8998FamilyPkg/Drivers/KeypadDxe/KeypadTextIn.c:44-83 | Over every run of pushes, pops, waits and resets the queue is the tail of the arrivals, at most 255 long and undelivered; keys are delivered in arrival order and never twice. |
| `KeypadQueue.RingPop` | Platforms/Msm8998FamilyPkg/Drivers/KeypadDxe/KeypadTextIn.c:44-61 | Advancing the head past the end of the buffer and round removes exactly the oldest key. |
| `KeypadQueue.RingPush` | Platforms/Msm8998FamilyPkg/Drivers/KeypadDxe/KeypadTextIn.c:69-83 | Writing at the tail and advancing it appends exactly one key. |
| `KeypadQueue.KeyQueue.PopEfikeyBufHead` | Platforms/Msm8998FamilyPkg/Drivers/KeypadDxe/KeypadTextIn.c:44-61 | The oldest key comes out and the rest stays; an empty queue is reported and left alone. |
| `KeypadQueue.KeyQueue.PushEfikeyBufTail` | Platforms/Msm8998FamilyPkg/Drivers/KeypadDxe/KeypadTextIn.c:69-83 | The key is appended; if 255 are queued the oldest is dropped for it. |
| `KeypadQueue.ReadWithArrivals` | Platforms/Msm8998FamilyPkg/Drivers/KeypadDxe/KeypadTextIn.c:232-279 | Whatever arrives at each poll, while nothing overflows a read delivers the first key that is not partial of the queued keys followed by those polled so far, and leaves the rest; if all of these are partial it is NOT_READY. |
| `KeypadQueue.ReadWithoutArrivals` | Platforms/Msm8998FamilyPkg/Drivers/KeypadDxe/KeypadTextIn.c:232-279 | With no new arrivals a read returns the first key that is not partial, with Ctrl and a letter translated, or NOT_READY if and only if there is none. |
| `KeypadQueue.TranslatedIs` | Platforms/Msm8998FamilyPkg/Drivers/KeypadDxe/KeypadTextIn.c:265-275 | With either control key held the n-th letter of either case becomes the control character n; every other key stays as it is, and the scan code never changes. |
| `KeypadQueue.SuccessIsAKey` | Platforms/Msm8998FamilyPkg/Drivers/KeypadDxe/KeypadTextIn.c:232-279 | Whatever is queued and arrives, a read succeeds exactly if the key it returns is not the null key. |
| `KeypadQueue.KeyQueue.KeypadReadKeyStrokeWorker` | Platforms/Msm8998FamilyPkg/Drivers/KeypadDxe/KeypadTextIn.c:137-172 | Each call first takes what the device has, then gives out the oldest key, unless the device has failed or nothing is queued. |
| `KeypadQueue.KeyQueue.KeypadReadKeyStroke` | Platforms/Msm8998FamilyPkg/Drivers/KeypadDxe/KeypadTextIn.c:232-279 | The loop, polling before every pop, returns what the read function says for whatever arrives at each poll; a device error leaves the queue with what arrived. |
| `KeypadQueue.WaitPredictsRead` | Platforms/Msm8998FamilyPkg/Drivers/KeypadDxe/KeypadTextIn.c:290-337 | After a wait the next read without arrivals succeeds exactly if the wait signalled, and returns what it would have returned before. |
| `KeypadQueue.KeyQueue.KeypadWaitForKey` | Platforms/Msm8998FamilyPkg/Drivers/KeypadDxe/KeypadTextIn.c:290-337 | Partial keys at the head are dropped, and the event is signalled exactly if a key is left. |

## Left out

- Hardware effects: TCR, MAIR and TTBR writes, cache and TLB maintenance, `ArmUpdateTranslationTableEntry`, enabling the MMU. The choice of the TCR physical size has one failing branch, for more than 48 bits, that the cap on MaxAddress makes unreachable.
- ArmMmuLibAArch64.ArmMmu.UpdateRegionMapping: requires the region to end within 2^(64-T0SZ) and its length to be below 2^48, because the unsigned level arithmetic of the code wraps for a region of length 2^48 at address 0; T0SZ is from 16 to 33. Masks clear the address field and attributes lie inside TT_ATTRIBUTES_MASK without TT_NS, as they do at every call in the file. Assertions are modelled as in a release build, where the error return follows.
- ArmMmuLibAArch64.ArmMmu.GetBlockEntryListFromAddress: has the same requirements; the entry pointer and the pointer to the last entry are a table and two indices.
- ArmMmuLibAArch64.ArmMmu.PopulateSubTable: the table memory is a field of the class, a map from page address to 512 words, and not one array per page, so stores go through the map.
- ArmMmuLibAArch64.ArmMmu.Perform: joins the five entry points, which differ in the bits and the mask they pass.
- ArmMmuLibAArch64.ArmMmu.ArmConfigureMmu: on failure only the root page is given back, as in the code, so the other tables are leaked; the check that the table memory is mapped write-back is left out. Attributes outside the ten known ones, which the code asserts against, are excluded by the type.
- ArmMmuLibAArch64.LookupAddresstoRootTable: the root entry count it also returns is RootEntryCount of the result.
- The values of the TT_ and short-descriptor constants come from headers that are not in the repository; they are those of the Arm architecture manuals (sections D8.3 of DDI 0487 and B3.5 of DDI 0406C). The conversion of ARMv7 cache policy keeps all three TEX bits.
- MemoryInitPei.MemoryPeim: the sum over conventional-memory descriptors, which nothing reads afterwards, is left out; at most 127 selected descriptors are allowed, as the code asserts. What the tables hold after a failed configuration is not stated, since the boot continues without them.
- MemoryInitPei.SelectRegions: at most 127 selected descriptors are allowed, as the code asserts.
- ArmMmuLibArm.ArmMmu.ArmSetMemoryAttributes: requires base and length to be whole pages. The other entry points of that file, `FillTranslationTable`, `PopulateLevel2PageTable` and `ArmConfigureMmu`, and supersections and large pages are not modelled.
- ArmMmuLibArm.ArmMmu.UpdatePageEntries: the TLB flush flag is not modelled.
- InspectDtb.ParseDtb: the printed header report is left out. A decoded text is kept as its UTF-8 bytes.
- InspectDtb.ParseLoop: a value that runs past the end of the data is cut off, as a slice is. `cells`, `regs` and `main` of inspect-dtb.py are not modelled.
- FdtSearch.SwapDtb: the ways in which the tool exits with an error are one failing result.
- FdtSearch.FindFdts: `find_qcdt`, `find_dt_tables` and the rest of the report are not modelled.
- BootImage.WriteHeader: header versions 3 and 4, vendor_boot and signing are not modelled, and the SHA-1 digest is a parameter.
- BootImage.PredictionIsRight: the scanner also reads the 64-bit recovery offset as 32 bits and the header size from behind it, which is not modelled.
- OsVersion.ParseVersionText: digits are ASCII digits; the tool's pattern also takes other Unicode digits. The same holds for OsVersion.ParsePatchText.
- FrameBuffer.Console.PutChar: requires more than two lines of text below each other, since on a smaller screen the newline clears and starts over for ever, and at least one cell to a row. Interrupts, cache flushes and `FbConScrollUp` are not modelled. Lines are 12 * scale rows apart, as in the code.
- KeypadQueue.KeyQueue.KeypadReadKeyStroke: what a poll brings is a parameter; notification, `KeypadSetState`, TPL and the second queue for notifications are not modelled.
- The boot manager, SMBIOS, logo, component names, GOP, touch, RTC and ACPI code is plumbing or data.
