# Layout and relocation in the V6CLANG tool chain, verified

This project models how the V6CLANG tool chain turns object files into a memory image, and proves what
the image and the layout are. Its centre is the linker's allocator for packed `.bss` sections. Around it
are the linker's address assignment, the order of input sections, the two Python linkers with the native
relocator that replaces them, the Intel HEX writers, the splitting of `.eh_frame`, and clang's expansion
of aggregate arguments. `dafny verify dfyconfig.toml` checks everything.

How the modules hang together:

- **The packed allocator.** `PackedModel` is the allocator over unbounded addresses, with the holes as a
  set. `PackedInvariants` and `PackedQuality` prove what holds in every reachable state and how good the
  result is; `PackedOrder` proves that the order of the input does not matter. `PackedSections` is the
  allocator as the linker runs it, with checked 64-bit arithmetic, a hole list that is erased from and
  pushed to, and addresses written into an array; it is proved to compute exactly the run of
  `PackedModel`. `PackedCommit` writes the result into the linker's sections and lists, and proves that
  running the pass again on lists it has reordered changes nothing. `PackedExample` is a worked layout.
- **Address assignment.** `LayoutModel` says where a section starts, where its commands lead and how the
  positions of the memory regions follow, each as a function of the state before. `LinkerObjects` and
  `RegionLayout` are the linker's objects and its pass, which moves the location counter, the size of the
  current section and the regions in step; the pass is proved to take exactly those functions' steps and
  returns the sequence of its states. `RegionOrder` derives from that sequence when a backward move is
  reported and when the sections of every region come out disjoint and ascending. `InputOrder` is the
  piecewise sort of input sections by several keys.
- **The flat linkers.** `LegacyObjects`, `LegacyLayout`, `LegacySymbols`, `LegacyLink` and
  `LegacyLinkFacts` are the legacy linker; `Elf2Bin` is the one-object converter and its agreement with
  the linker; `Relocate` is the native relocator and its agreement with the legacy fields; `Patches` is
  the common theory of fields written into an image. `IntelHex` holds the two HEX writers and a decoder.
- **Other cores.** `EhFrame`; `ArgExpansion` walks over types and values, and `ArgRoundTrip` proves what the
  walks have in common and exactly which types come back whole.
- **Shared.** `Target`, `Wrappers`, `FixedWidth` (64-bit and 32-bit arithmetic), `Sequences` and `Sorting` (what
  the library sorts promise, and when an order leaves one arrangement only).

Where the code does something its documentation or a reader would not expect, the model follows the code:

- A window that does not fit at the start of a hole is tried at the next page boundary inside the hole.
  Every hole ends at a page boundary and lies in one page, so this never gives a usable place.
- The packed pass falls back to the normal layout when it meets an unrecognized section name, even after
  it has reported other sections as invalid; a rejected pass counts as handled and leaves the size zero.
- A relocation against a weak symbol that its own object defines uses that definition, even when another
  object's definition is in the global table; `LegacySymbols.LocalAgreesIff` says exactly when the two agree.
- The checking HEX writer only looks at the first address of each record, so a last record may run past
  64 KiB; and a width above 255 makes a record no reader accepts. `IntelHex.RoundTrip` says exactly when
  the text can be read back.
- The loop over an array of a passed type counts with a signed 32-bit number. An array of 2^31 elements or
  more is not walked to its end; `ArgRoundTrip.ComesBackIff` says exactly which types are passed whole.
- A section of a legacy object with less data than its size can make the image shorter, and relocation
  fields past its end then stop the program. The model does the same.
- The size of an `.eh_frame` record may be smaller than its header; the code then reads the CIE marker
  from whatever bytes follow, and so does the model.
- A non-allocated or thread-local zero section gives back the location counter but still moves the
  positions of its regions; only the sections that occupy their region are claimed to be apart.

## Model

| member | source | states |
|---|---|---|
| PackedSections.CheckedAdd | lld/ELF/V6ClangPackedSections.cpp:52-57 | the sum is given exactly when it stays below 2^64, and then it is the true sum |
| PackedSections.AlignUp | lld/ELF/V6ClangPackedSections.cpp:59-65 | the next page boundary of unbounded arithmetic, or nothing exactly when that is past 64 bits |
| PackedSections.FitsInPage | lld/ELF/V6ClangPackedSections.cpp:67-69 | the 64-bit test agrees with the unbounded one for every address and size |
| PackedSections.StartInHole | lld/ELF/V6ClangPackedSections.cpp:84-91 | the 64-bit computation finds the unbounded candidate address in a hole, and none exactly when there is none |
| PackedSections.Packer.AddHole | lld/ELF/V6ClangPackedSections.cpp:71-75 | adds the hole to the set of holes exactly when it is not empty; the list stays free of duplicates |
| PackedSections.Packer.FindBestHole | lld/ELF/V6ClangPackedSections.cpp:79-102 | whatever the order of the list, the hole chosen is the feasible one that is least by size and then by address; none is chosen exactly when no hole can take the block |
| PackedSections.Packer.PlaceInBestHole | lld/ELF/V6ClangPackedSections.cpp:77-111 | answers yes exactly when a best hole exists, and then the state is the next state of the unbounded run; otherwise nothing changes |
| PackedSections.Packer.SplitHole | lld/ELF/V6ClangPackedSections.cpp:104-108 | erasing a hole and pushing its remains replaces it in the set by what lies behind the block |
| PackedSections.Packer.AppendBlock | lld/ELF/V6ClangPackedSections.cpp:113-128 | succeeds exactly when the unbounded append stays below 2^64, and then gives its state; on failure no address is written |
| PackedSections.Packer.AppendAnchor | lld/ELF/V6ClangPackedSections.cpp:192-200 | succeeds exactly when padding and append stay below 2^64, and then gives the state of the unbounded step |
| PackedSections.Packer.PlaceOrAppend | lld/ELF/V6ClangPackedSections.cpp:202-209 | a window or filler takes the step of the unbounded run, or fails exactly when that step leaves 64 bits |
| PackedSections.Packer.Pass | lld/ELF/V6ClangPackedSections.cpp:192-209 | after any prefix of the sorted blocks the holes, the cursor and the addresses are those of the unbounded run |
| PackedSections.Packer.Stopped | lld/ELF/V6ClangPackedSections.cpp:192-215 | a pass that stops early means that the whole unbounded run leaves 64 bits; one that finishes has the state of the whole run |
| PackedSections.SortIndexes | lld/ELF/V6ClangPackedSections.cpp:186-188 | an arrangement of the same indices with none out of place; nothing is promised about ties |
| PackedSections.SplitByKind | lld/ELF/V6ClangPackedSections.cpp:178-185 | every block's index is in the list of its kind, once |
| PackedSections.SortedOrder | lld/ELF/V6ClangPackedSections.cpp:169-188 | the three sorted lists together are a permutation of the blocks sorted by kind, falling size and original order |
| PackedSections.AssignBlockAddresses | lld/ELF/V6ClangPackedSections.cpp:158-216 | refinement: the result is decided by where the unbounded run ends (past 2^64, past 64 KiB, inside), the addresses are those of the run, and every failure leaves the end address at the start |
| PackedInvariants.CandidateInPageTail | lld/ELF/V6ClangPackedSections.cpp:84-91 | in a hole that is the tail of a page a block goes to the very beginning or does not fit, and only the size decides |
| PackedInvariants.PlaceShrinksOneHole | lld/ELF/V6ClangPackedSections.cpp:101-111 | a placement takes the front of one hole; holes stay page tails and their number never grows |
| PackedInvariants.BestIffFits | lld/ELF/V6ClangPackedSections.cpp:77-111 | a best hole exists exactly when some hole is as large as the block, and the block goes to its start |
| PackedInvariants.BestUnique | lld/ELF/V6ClangPackedSections.cpp:92-98 | there is one best hole, so the choice does not depend on how it is searched |
| PackedInvariants.RunHoles | lld/ELF/V6ClangPackedSections.cpp:71-128 | in every reachable state each hole is non-empty, lies in one page, ends at the page's end, and no page has two |
| PackedInvariants.AlignedCandidateNeverUsed | lld/ELF/V6ClangPackedSections.cpp:86-89 | in no reachable state does aligning inside a hole give a usable place |
| PackedInvariants.RunPartition | lld/ELF/V6ClangPackedSections.cpp:190-209 | after every placement the blocks and the holes partition the space from the start to the cursor |
| PackedInvariants.RunRespectsKinds | lld/ELF/V6ClangPackedSections.cpp:190-209 | every anchor starts a page and every window stays in one page, wherever it was put |
| PackedQuality.Conservation | lld/ELF/V6ClangPackedSections.cpp:190-214 | the space used is the sum of the sizes plus the leftover holes, and these are at most 255 bytes for each anchor or window |
| PackedQuality.AppendedStaysLarger | lld/ELF/V6ClangPackedSections.cpp:186-209 | a block that was appended is larger than every hole in every later state, including holes made later |
| PackedQuality.LocalOptimality | lld/ELF/V6ClangPackedSections.cpp:186-209 | at the end no appended window or filler would fit in any leftover hole |
| PackedQuality.PackingNeverLoses | lld/ELF/V6ClangPackedSections.cpp:113-128 | with the same order, packing never ends later than appending every block |
| PackedOrder.SortedUnique | lld/ELF/V6ClangPackedSections.cpp:169-188 | two sorted sequences of the same blocks are equal, so the unstable sort leaves nothing open |
| PackedOrder.InputOrderIndependent | lld/ELF/V6ClangPackedSections.cpp:158-216 | permuting the blocks leaves the end unchanged and, original orders being distinct, every block's address |
| PackedExample.WorkedLayout | lld/unittests/AsLibELF/V6ClangPackedSectionsTest.cpp:47-72 | on the nine blocks of the unit test the model gives the addresses and the end that the test expects |
| PackedCommit.LayoutIsSafe | lld/ELF/V6ClangPackedSections.cpp:158-216 | blocks numbered as the caller numbers them are disjoint, inside the used space, and where their kind requires |
| PackedCommit.SucceedsWhenAppendingDoes | lld/ELF/V6ClangPackedSections.cpp:190-215 | if appending everything stays within 64 KiB then packing succeeds |
| PackedCommit.OriginalOrders | lld/ELF/V6ClangPackedSections.cpp:240-243 | the map holds the first position of every input section, and nothing else |
| PackedCommit.DistinctSectionsDistinctOrders | lld/ELF/V6ClangPackedSections.cpp:240-257 | different sections of the input list get different original orders |
| PackedCommit.LayOutSections | lld/ELF/V6ClangPackedSections.cpp:245-282 | valid sections become valid blocks; the layout succeeds exactly when the unbounded run ends within 64 KiB, with its addresses |
| PackedCommit.Commit | lld/ELF/V6ClangPackedSections.cpp:288-294 | every section gets its offset; the first list holds all sections in address order and the others are empty |
| PackedCommit.PackSections | lld/ELF/V6ClangPackedSections.cpp:245-296 | succeeds exactly when all sections are valid, the start is in the address space and the run ends in it; otherwise no section and no list changes |
| PackedCommit.AssignSectionOffsets | lld/ELF/V6ClangPackedSections.cpp:218-297 | declines exactly when not applicable, changes nothing unless it succeeds, and on success has committed the unbounded run with the lists still a permutation, in strictly rising offsets |
| PackedCommit.RerunIsFresh | lld/ELF/V6ClangPackedSections.cpp:218-297 | a run on reordered lists puts every section where a fresh run would, at any start |
| PackedCommit.PackTwice | lld/ELF/V6ClangPackedSections.cpp:218-297 | run again at another start on the lists it has itself reordered, the pass succeeds exactly when a fresh one would, and every section's offset is the fresh one; a rejected second pass leaves the first one's offsets |
| PackedCommit.CommittedIsSafe | lld/ELF/V6ClangPackedSections.cpp:280-292 | after a commit the sections at address plus offset are disjoint, within 64 KiB, anchors at pages and windows inside one |
| RegionLayout.LinkerScript.ExpandMemoryRegions | lld/ELF/LinkerScript.cpp:157-168 | moves the memory region and the load region by the amount, a region that is both only once, and no other region |
| RegionLayout.LinkerScript.ExpandOutputSection | lld/ELF/LinkerScript.cpp:170-173 | the section's size and its regions grow by the same amount |
| RegionLayout.LinkerScript.SetDotInSection | lld/ELF/LinkerScript.cpp:175-193 | size, counter and regions stay in step; moving backward is recorded exactly when the value is smaller |
| RegionLayout.LinkerScript.PlaceInputs | lld/ELF/LinkerScript.cpp:1085-1097 | every section of a list gets the offset of the next aligned address after the ones before it; size and regions stay in step |
| RegionLayout.LinkerScript.LayOutCommands | lld/ELF/LinkerScript.cpp:1061-1098 | after all commands the counter is where the commands taken one by one lead, every section of every list has its place, and backward moves are recorded exactly |
| RegionLayout.LinkerScript.FindStart | lld/ELF/LinkerScript.cpp:992-1015 | the start by kind of section, and the region brought forward to it exactly when it lies behind |
| RegionLayout.LinkerScript.AlignStart | lld/ELF/LinkerScript.cpp:1017-1028 | the section starts at the aligned start, an explicit address under SECTIONS is kept, and the regions move by the same amount |
| RegionLayout.LinkerScript.SetLoadOffset | lld/ELF/LinkerScript.cpp:1036-1045 | the load offset by its three rules; the load region moves up to the alignment and no other region moves |
| RegionLayout.LinkerScript.Begin | lld/ELF/LinkerScript.cpp:984-1054 | the section's address, its load offset and the positions of all regions when the first command is reached, as functions of the state before |
| RegionLayout.LinkerScript.TryPack | lld/ELF/LinkerScript.cpp:1056-1060 | where the packed pass applies and fits, the sections are at the packed run's places and the counter at its end; otherwise nothing moves |
| RegionLayout.LinkerScript.Fill | lld/ELF/LinkerScript.cpp:1054-1103 | on the packed and the normal path the regions have moved by exactly the section's size, the size is that of the contents, padded for relro, and a backward move is recorded exactly when a command of a section that is not packed makes one |
| RegionLayout.LinkerScript.AssignOffsets | lld/ELF/LinkerScript.cpp:984-1114 | address, size, load offset, all region positions, the counter and the backward record after a section are a function of the state before and of where its contents end, on both paths |
| RegionLayout.LinkerScript.AssignAddresses | lld/ELF/LinkerScript.cpp:1350-1382 | every command takes its step from the recorded state before it; the backward error is recorded exactly when some section's commands move back; and if no address lies before its region, no command moves back and no addition overflows, the sections of each region are disjoint and ascending from its origin |
| RegionOrder.BackwardRecorded | lld/ELF/LinkerScript.cpp:175-193 | over a whole pass the error is recorded exactly when some section laid out by its commands moves the counter backward |
| RegionOrder.StepsAdvance | lld/ELF/LinkerScript.cpp:1061-1098 | commands that do not move back and whose additions do not overflow end at or after their start |
| RegionOrder.SectionAdvances | lld/ELF/LinkerScript.cpp:984-1114 | a section that keeps to the conditions lies between its region's positions before and after, and no region moves backward |
| RegionOrder.NextLaidOut | lld/ELF/LinkerScript.cpp:1366-1379 | one more section at or after its region's position keeps all regions in order |
| RegionOrder.OrderlyPass | lld/ELF/LinkerScript.cpp:1350-1382 | if every section keeps to the conditions, the sections of each region are disjoint and ascending from its origin, for every script |
| LayoutModel.PackedIsSafe | lld/ELF/LinkerScript.cpp:1056-1060 | sections packed inside an output section are disjoint, in bounds and in the pages they need |
| LayoutModel.FitsForAnyOrder | lld/ELF/V6ClangPackedSections.cpp:186-212 | whether the packed pass fits does not depend on how ties were sorted |
| RegionOrder.CheckedSectionsInside | lld/ELF/LinkerScript.cpp:1508-1529 | when the regions are in order, a section passes the final check exactly when it lies in its region |
| InputOrder.SortSections | lld/ELF/LinkerScript.cpp:441-469 | the result is ordered by the policy's key and, for equal keys, as it was before |
| InputOrder.SortInputSections | lld/ELF/LinkerScript.cpp:482-493 | ordered by outer key, then inner key or the option, then input position; SORT_NONE keeps input order |
| InputOrder.MatchPattern | lld/ELF/LinkerScript.cpp:513-544 | takes, in input order, exactly the sections whose first matching pattern is this one |
| InputOrder.SortByPositionThenCommandLine | lld/ELF/LinkerScript.cpp:502-509 | sorts one stretch by the option and input position and leaves the rest of the result alone |
| InputOrder.ComputeInputSections | lld/ELF/LinkerScript.cpp:495-568 | exactly the eligible sections matched by some pattern, without duplicates, in the order of runs and stretches and inside them by their keys |
| InputOrder.PrecedesDecides | lld/ELF/LinkerScript.cpp:549-566 | of two taken sections exactly one comes first |
| InputOrder.ResultIsUnique | lld/ELF/LinkerScript.cpp:495-568 | whatever sorts are used, that contract admits one result |
| LegacyLayout.LayOut | scripts/v6clang_link_legacy.py:235-252 | the allocatable sections of all objects, each once, by family and name and, for equal names, in scan order |
| LegacyLayout.LayoutUnique | scripts/v6clang_link_legacy.py:187-252 | the objects determine the layout |
| LegacyLayout.AssignAddresses | scripts/v6clang_link_legacy.py:254-272 | each section begins where the ones before it end, and no other key has an address |
| LegacyLayout.CopySections | scripts/v6clang_link_legacy.py:321-325 | the buffer is zeros with every section's bytes put in its slice, which a section with too little data can shorten |
| LegacyLayout.CopiedIsFlat | scripts/v6clang_link_legacy.py:321-325 | with all data there the buffer is the sections' bytes one after the other |
| LegacySymbols.BuildGlobals | scripts/v6clang_link_legacy.py:274-304 | the table maps each name to its first definition that is not weak, or else its first weak one; an error is noted exactly when a name has two that are not weak |
| LegacySymbols.WinnersUnique | scripts/v6clang_link_legacy.py:274-304 | the definitions in scan order determine the table |
| LegacySymbols.AnyUndefined | scripts/v6clang_link_legacy.py:306-314 | an undefined reference is reported exactly when some global name is referenced and not in the table |
| LegacySymbols.StrongSymbolsAgree | scripts/v6clang_link_legacy.py:337-358 | without a clash a global that is not weak has one address, through its object and through the table |
| LegacySymbols.TableHoldsWinner | scripts/v6clang_link_legacy.py:274-304 | in terms of the objects, the table holds for a name the first definition that is not weak, or else the first weak one |
| LegacySymbols.WinnerOf | scripts/v6clang_link_legacy.py:274-304 | every name in the table has such a winner among the symbols of the objects |
| LegacySymbols.LocalAgreesIff | scripts/v6clang_link_legacy.py:337-358 | without a clash a symbol that its own object defines resolves to the address in the table if and only if it is not weak or the winning definition of its name has the same address |
| LegacySymbols.WeakSymbolsMayDiffer | scripts/v6clang_link_legacy.py:339-344 | a concrete case in which a weak symbol keeps its own address while the table holds another one |
| LegacyLink.ApplyRelocation | scripts/v6clang_link_legacy.py:327-380 | one relocation writes its field and nothing else, is passed over, or stops the program on a missing symbol or a field past the end of the output |
| LegacyLink.ApplyRelocations | scripts/v6clang_link_legacy.py:327-380 | all relocations in order leave the output with every field applied, or stop the program exactly when one names a missing symbol or its field does not lie in the output |
| LegacyLink.Link | scripts/v6clang_link_legacy.py:214-384 | errors are reported exactly for no input, an end past 64 KiB, a clash or an undefined name; otherwise the result is the copied sections with all fields applied, for complete and for truncated objects |
| LegacyLinkFacts.LinkWritesImage | scripts/v6clang_link_legacy.py:321-384 | objects with all their data whose relocations name existing symbols are linked to the sections' bytes with all fields applied |
| LegacyLinkFacts.FieldInSectionIsPatched | scripts/v6clang_link_legacy.py:327-380 | a relocation of a known kind whose symbol resolves and whose field lies in its section is never passed over |
| LegacyLinkFacts.LinkedBytes | scripts/v6clang_link_legacy.py:321-380 | with fields that do not overlap each one holds S + A as 16 bits, low byte or high byte, and every other byte is the section's own data or a zero of .bss |
| LegacyLinkFacts.RelocationOrderDoesNotMatter | scripts/v6clang_link_legacy.py:327-380 | any order of the relocations of each object gives the same image when no two fields overlap |
| LegacyLinkFacts.LinkOrderDoesNotMatter | scripts/v6clang_link_legacy.py:214-384 | whole links of objects that differ in the order of their relocations only give the same result when no two fields overlap |
| LegacyLinkFacts.LinkResultUnique | scripts/v6clang_link_legacy.py:235-380 | the objects have one result at a base: layout, addresses and symbol table leave nothing open |
| Elf2Bin.CopyContents | scripts/elf2bin_legacy.py:150-160 | the buffer is zeros with the bytes of the sections with contents put in their slices; with all data there it equals laying all sections one after the other |
| Elf2Bin.ElfToBin | scripts/elf2bin_legacy.py:125-197 | the image is the kept sections in file order with all 16-bit fields applied; the program stops exactly when a relocation names a missing section or symbol or its field lies past the end of the output |
| Elf2Bin.KeptIsLayout | scripts/elf2bin_legacy.py:125-143 | on the common domain the file order is the linker's layout |
| Elf2Bin.ConverterAgreesWithLinker | scripts/elf2bin_legacy.py:125-197 | on one object of the common domain, when linking succeeds, the converter writes the same bytes |
| Relocate.LegacyFieldMeans | scripts/v6clang_link_legacy.py:360-375 | read back little-endian, the fields are the value mod 2^16, its low byte, and the high byte of its 16 bits, for negative values too |
| Relocate.CheckAcceptsExactly | lld/ELF/Target.h:268-275 | the check accepts exactly the values from -2^(n-1) to 2^n - 1 |
| Relocate.ThirtyTwoBitsNeverFail | lld/ELF/Target.cpp:168-175 | a value extended from 32 bits never fails the 32-bit check |
| Relocate.NativeMatchesLegacy | lld/ELF/Arch/V6Clang.cpp:90-114 | for every S and A the native linker writes the legacy bytes in the four kinds both know |
| Relocate.RelocateField | lld/ELF/Arch/V6Clang.cpp:90-119 | exactly the field's bytes change, and a report is made exactly when the value is out of range or the kind unknown |
| Relocate.RelocateAlloc | lld/ELF/Target.cpp:161-177 | all fields of a section are applied in order, and a report is made exactly when one relocation deserves it |
| Relocate.SameSectionBytes | lld/ELF/Target.cpp:161-177 | on a section with the shared kinds only both linkers leave the same bytes |
| Patches.FieldsAndRest | scripts/v6clang_link_legacy.py:360-375 | fields that do not overlap all keep their bytes, and nothing else changes |
| Patches.OrderDoesNotMatter | scripts/v6clang_link_legacy.py:327-380 | fields that do not overlap can be written in any order |
| IntelHex.BinToHex | scripts/bin2hex.py:17-43 | raises exactly when the first address of the last record is past 64 KiB; otherwise the text of all records and the end record |
| IntelHex.BinToIntelHex | scripts/elf2bin_legacy.py:206-220 | the same text without the check |
| IntelHex.LinesOfJoin | scripts/bin2hex.py:43 | splitting the text at line breaks gives the records back |
| IntelHex.RecordComesBack | scripts/bin2hex.py:12-38 | a record of at most 255 bytes at a 16-bit address passes the decoder's length and checksum and gives back address and data |
| IntelHex.LongRecordIsUnreadable | scripts/bin2hex.py:23-38 | a record of more than 255 bytes is refused by the decoder |
| IntelHex.RoundTrip | scripts/bin2hex.py:17-43 | for every base and width the decoder gives back exactly the data at its base if and only if the data is empty, or lies in 64 KiB with records of at most 255 bytes |
| EhFrame.FirstInMeans | lld/ELF/InputSection.cpp:1275-1283 | the relocation a record names is the first one in it, and -1 says that there is none |
| EhFrame.EhInputSection.Split | lld/ELF/InputSection.cpp:1251-1289 | the two lists are the CIEs and the FDEs of the section in order with their first relocations, up to the first place where no record can be taken, and the reason is reported |
| EhFrame.WalkTiles | lld/ELF/InputSection.cpp:1256-1285 | the records follow each other without a gap up to where the walk stops |
| EhFrame.WalkCovers | lld/ELF/InputSection.cpp:1256-1285 | every offset before that lies in a record |
| EhFrame.CleanSplit | lld/ELF/InputSection.cpp:1251-1289 | both lists are ascending and hold exactly the records of their kind; without an error the tiling ends at the section's end or at a terminator |
| EhFrame.PartitionPoint | lld/ELF/InputSection.cpp:1293-1297 | binary search finds the boundary between pieces that begin at or before the offset and those after it |
| EhFrame.EhInputSection.GetParentOffset | lld/ELF/InputSection.cpp:1292-1304 | the two searches give the last FDE if it contains the offset, else the last CIE before it, else the offset itself |
| EhFrame.LookupFindsRecord | lld/ELF/InputSection.cpp:1292-1304 | for an offset in the tiled part there is one record that contains it and the lookup uses that one, whatever output offsets were given |
| ArgExpansion.GetTypeExpansion | clang/lib/CodeGen/CGCall.cpp:929-982 | arrays, bases and fields without empty bit-fields, or of a union its largest field |
| ArgExpansion.ChosenAreAll | clang/lib/CodeGen/CGCall.cpp:965-971 | every field that holds something is chosen, once and in order |
| ArgExpansion.LargestMeans | clang/lib/CodeGen/CGCall.cpp:942-958 | what a union is expanded as is the first of its largest fields, or nothing when all are empty |
| ArgExpansion.GetExpansionSize | clang/lib/CodeGen/CGCall.cpp:984-1001 | the count is the number of scalars the type holds, cut to 32 bits |
| ArgRoundTrip.WalkedIsFull | clang/lib/CodeGen/CGCall.cpp:984-1024 | when the loops over arrays reach their ends, the slots walked over are the scalars the type holds |
| ArgRoundTrip.CountIffFits | clang/lib/CodeGen/CGCall.cpp:984-1024 | then the computed count is the number of slots the walks advance by if and only if that number fits a signed 32-bit one |
| ArgRoundTrip.LongArrayIsMiscounted | clang/lib/CodeGen/CGCall.cpp:984-1011 | an array of 2^31 scalars is counted as a negative number and not walked over at all |
| ArgExpansion.GetExpandedTypes | clang/lib/CodeGen/CGCall.cpp:1003-1024 | advances the iterator by exactly the slots of the type and writes exactly those slots |
| ArgExpansion.ExpandTypeToArgs | clang/lib/CodeGen/CGCall.cpp:1095-1150 | advances the position by exactly the slots of the type and writes the value's scalars into exactly those slots |
| ArgExpansion.ExpandTypeFromArgs | clang/lib/CodeGen/CGCall.cpp:1042-1093 | advances the iterator by exactly the slots of the type and stores each argument into its own part |
| ArgRoundTrip.SlotTypes | clang/lib/CodeGen/CGCall.cpp:1003-1150 | each scalar of a value has the type of its slot: types and arguments come in the same order |
| ArgRoundTrip.StoredParts | clang/lib/CodeGen/CGCall.cpp:1042-1093 | storing one part leaves the other parts alone |
| ArgRoundTrip.ExpandThenCollapse | clang/lib/CodeGen/CGCall.cpp:1042-1150 | for every type whose loops reach their ends, union-free ones and unions seen as their largest member, collapsing the expanded arguments rebuilds the value, whatever was in memory |
| ArgRoundTrip.ComesBackIff | clang/lib/CodeGen/CGCall.cpp:929-1150 | a type comes back for every value and every memory if and only if each array in it that holds something has fewer than 2^31 elements |
| ArgRoundTrip.CollapseThenExpand | clang/lib/CodeGen/CGCall.cpp:1042-1150 | for every type expanding what was collapsed gives the arguments back |
| ArgRoundTrip.PassedArrives | clang/lib/CodeGen/CGCall.cpp:1042-1150 | what the call writes at a position of the argument list the called function reads back from there |

## Left out

- Files, command lines, maps, messages: objects and sections are parsed data, errors are result values. A Python index error is the result `Crashed`.
- LegacyLink.Link: relocations come as one list per object with their target section, and the base address is not negative.
- Elf2Bin.ElfToBin: relocations come as one list, so a relocation section without entries whose target does not exist is not seen; the base address is not negative.
- RegionLayout.LinkerScript.AssignAddresses: that the regions come out in order is stated one way, from conditions on every section and the state it is reached in; a script that breaks a condition may still come out in order.
- RegionLayout.LinkerScript.SetLoadOffset: the program header that takes over the load offset is not modelled.
- RegionLayout.LinkerScript.PlaceInputs: the alignment of an input section is not zero, which the power-of-two rounding of the source assumes.
- Linker-script expressions: the value of a dot assignment, an address and a load address are given; symbol values, ASSERT, PHDRS, INSERT and orphan placement are not modelled. Every input section stands in one list, as its single parent implies.
- Memory regions are looked up by name and hold origin and length; their positions are a map of the pass. The check of the load address against the load region is the same comparison and is not repeated.
- PackedCommit.AssignSectionOffsets: warnings and the separate messages for each invalid attribute are one outcome; the class of an input section (anything but a plain one is left out of the numbering) is a null entry of the input list.
- Masks and shifts are written as division and remainder by powers of two.
- InputOrder.ComputeInputSections: patterns and file filters are given predicates, sections are named by their position, and the priority of a name is a given function. SORT_BY_INIT_PRIORITY's reading of the name is not modelled.
- Relocate.RelocateAlloc: the symbol value is given, GOT, PLT, TLS and relaxation do not arise for this target; the 32-bit word size of the target is fixed.
- EhFrame.EhInputSection.Split: relocations come sorted, as the caller makes them, and offsets are not limited to 64 bits; the kinds of error are told apart, the message is not modelled.
- IntelHex.BinToHex: a width of zero never ends and is required not to occur; negative widths are not modelled.
- ArgExpansion.GetExpansionSize: a sum that leaves the 32-bit `int` is taken to wrap around, which C++ leaves undefined.
- ArgExpansion.ExpandTypeFromArgs: memory is the value that is there before; addresses, alignments and bit casts between pointer types are not modelled. A union is the value of its largest member, which is all that is passed; reading the same storage through another member is not modelled. Flexible arrays, real bit-fields and dynamic classes, which the source asserts away, do not occur.
- `MergeInputSection::splitStrings` and `getSectionPiece`: the same tiling and search as `.eh_frame`, with easier records.
- The copies of the legacy scripts in scripts/v6clang_link.py and scripts/elf2bin.py, the driver, archives, LTO, symbol versions, thunks, and the rest of clang's call lowering.
- The backend passes of the target: their bodies are not part of this model.
