# goloader: a verified model of its linker

goloader links object files into a running Go process. It lays symbols out in fresh memory, rewrites
machine code so that every relocation reaches its target, builds the tables the Go runtime walks, and
makes the host's own method tables point into what it loaded. This project models that core in Dafny
and proves what it is meant to guarantee, or exactly when it does.

## The parts

**Relocation rewriting** (`relocate.go`, and the space reserved for it in `ld.go`).
`RelocX86` and `RelocArm64` hold the in-place rewriting of the mapped segment, each method proved equal
to a function of the old bytes. `X86` and `A64` are small step functions for the instructions involved
(Intel SDM volume 2, sections 2.2.1 and 2.2.1.6; Arm ARM DDI 0487, section C6.2); a load or store on
arm64 also leaves a trace of what it accessed. `X86Meaning` and `A64Meaning` run the rewritten code: the
near form and the far form (through an epilogue that holds the 64-bit address) do the same. `Outcomes` says,
in numbers, when each relocation succeeds and which form it takes. `FrameX86`,
`FrameArm64` and `Order` say which bytes a relocation touches and that the order of separate relocations
does not matter; `Dedup` that relocating some sites again, as type deduplication does, leaves what their
last addresses alone would; `Adjacent` when two branches in a row depend on their order. `Reserve` proves when
the space guessed before any address is known suffices, and `TextOrder` that all relocations of a text
section laid out with it are separate.

**Runtime tables** (`ld.go`). `Varint` and `PcTable`: the delta-coded pc-value tables and how epilogues
are added to them; `EpilogueTables` connects them to what `Reserve` lays out. `FindFunc`: the bucket
index over the functions; `TextIndex` connects it to the layout. `Layout`: where every symbol ends up.
`NameTables`: interned function and file names.

**Graphs.** `Autolib`: import order and init order. `Reachability`: the symbols to keep.
`TypeIdentity`: type identity on cyclic type graphs. `Implements`: the one-pass method scan. `Names`: the
byte form of type names.

**Load and unload** (`itab.go`, `module.go`). `HostMethods` is the state machine in which several loaded
modules patch the same host methods, and what every run keeps; `HostModules` is the code that makes
those steps, in place.

**Address space** (`mmap/`). `AddressSpace`: gaps between mappings, the search through them, and the
record of active mappings.

`Bytes`, `Optional`, `Memory` and `Patching` hold machine integers, little-endian words, missing values,
memory and the outcome of a rewrite. Go's fixed-width arithmetic is written out wherever a value can wrap.
Machine words are integers; a bitwise or is the recursive function `Bytes.Or`.

## Where the code falls short of the natural claim

Each of these is proved with its exact condition.

- An ADRP pair at a page distance of exactly 2^32 passes the near test and forms the wrong page
  (`A64Meaning.NearReachIff`); the branches between site and epilogue are cut to their field unchecked, the B
  of a far pair beyond 128 MiB (`A64Meaning.FarPairReachIff`), the BL of a far call, of which 24 bits are
  written, beyond 64 MiB (`A64Meaning.FarCallReachIff`).
- The far form of a 64-bit MOV is right exactly when its register is not RSP (`X86Meaning.FarMovIff`). A MOV of
  32 bits gets the same far form, which loads 64 bits and takes the byte in front for a REX prefix even when it
  ends another instruction: that is right exactly when the upper half loaded is zero or, if that byte changes
  the register, when both registers happen to hold what was to be loaded (`X86Meaning.FarHalfMovIff`).
- A far CALL or JMP is taken for another instruction when the byte in front of its opcode is 8D, 8B, 83 or
  FF, and reaches its target with the byte in front left alone exactly when it is none of these
  (`X86Meaning.FarCallIff`, `X86Meaning.FarJumpIff`): behind 8D and FF it enters the stored address instead
  of code, behind 8B it is refused, behind 83 the instruction in front is overwritten. The near form is right
  whatever stands in front.
- A far CALL through a pointer (FF 15) calls the very address whose stored word the near one calls: the two
  forms differ by one indirection (`X86Meaning.IndirectCallMeaning`).
- For the same reason two adjacent sites handled by `relocatePCREL`, each a CALL or a JMP, can depend on their
  order: they do not, exactly when the second is near, or the last displacement byte of the first is none of
  these four before and after its relocation, or is 8D or FF before and FF after (`Adjacent.AdjacentAgreeIff`).
- Relocating a site twice equals relocating it once, exactly unless the first was a far CMPL whose
  immediate byte, which is not saved, was overwritten (`FrameX86.LastWriterWinsIff`).
- The space reserved for R_PCREL suffices exactly unless the bytes are those of `Reserve.Overruns`
  (`Reserve.PcrelFitsIff`): a CALL behind a byte E9, or, with the displacement at offset 1, an instruction
  that a byte 83 or 8B in front of the function turns into a longer one; a JMP that starts its function
  overruns exactly behind a byte 83. For R_CALL, which looks at the epilogue offset before it is set, exactly
  unless the call is in the first 17 bytes and the epilogue 120 bytes or more behind it, and then three
  bytes are missing (`Reserve.CallFitsIff`).
- A module can be unloaded without leaving dangling host methods exactly when no other loaded module
  patched a type whose slots refer to it (`HostMethods.UnloadIff`); in load order that always holds, in
  reverse order it fails.
- Unloading makes unreachable what was patched, whatever it was before: with no module left the host is as it
  was before any load exactly when all that was touched had been unreachable (`HostMethods.GivenBackIff`). A
  method that lacked only its type offset is lost (`HostMethods.ReachableMethodIsLost`).
- The search for an address stays inside a gap exactly when its 64-bit sums do not wrap
  (`AddressSpace.StaysInsideIff`); in the open-ended gap behind the last mapping they always do, and that loop
  has no end of its own (`AddressSpace.OpenGapNeverEnds`). The search ends exactly when some request would be
  granted or the loop over every gap ends (`AddressSpace.SearchEndsIff`). The open-ended gap is considered
  from address 2^63 on; on Linux/amd64, where the vsyscall page ends the list, that is for all sizes up to
  9 MiB, so there a search ends exactly when some request would be granted
  (`AddressSpace.LinuxSearchEndsIff`).

## Model

| member | source | states |
|---|---|---|
| RelocX86.Relocator.RelocatePCREL | relocate.go:176-299 | The in-place rewrite of an R_PCREL site, with its saved-original cache and epilogue refill, has exactly the effect of `RelocatedPCREL` on segment, cache and outcome. |
| RelocX86.Relocator.RelocateCALL | relocate.go:136-169 | The in-place rewrite of an R_CALL site has exactly the effect of `RelocatedCALL`. |
| RelocX86.Relocator.RewriteFar | relocate.go:188-294 | The far branch for each opcode: site redirected, epilogue filled, or an error with the bytes reset. |
| RelocX86.DstRegister | relocate.go:205 | The register number or-ed together from ModRM and REX.R is the field plus eight times the REX bit, below 16. |
| RelocX86.FarMovTemplate | relocate.go:242-248 | Patching the template byte by byte gives push, load, dereference into the register, pop. |
| RelocX86.CreateX86Nops | utils.go:49-55 | A refill consists of no-ops only. |
| X86Meaning.LeaMeaning | relocate.go:176-299 | A 64-bit LEA site, near or far, forms exactly `addr+Add` in its register in one step and continues behind the site. |
| X86Meaning.MovMeaning | relocate.go:176-299 | A 64-bit RIP-relative MOV, near or far, RAX or not, short or near jump back, loads the word at `addr+Add`, continues behind the site and changes no other register; only the far form needs a register other than RSP and, unless it is RAX, a free scratch slot. |
| X86Meaning.FarMovIff | relocate.go:237-248 | The far MOV leaves the registers as the MOV would if and only if its register is not RSP. |
| X86Meaning.FarMovIntoRSP | relocate.go:242-248 | For RSP neither the loaded word nor its low half is what RSP ends up with. |
| X86Meaning.NearHalfMov | relocate.go:296-298 | A near 32-bit MOV, with or without a REX prefix, loads the half word at `addr+Add`. |
| X86Meaning.FarHalfMovIff | relocate.go:204-248 | A far one leaves the registers as it would if and only if the register is not RSP and the upper half loaded is zero, or, when the byte in front makes another register of it, both hold the right values already. |
| X86Meaning.PcrelCallMeaning | relocate.go:176-299 | A CALL, near behind any byte or far behind none of 8D, 8B, 83, FF, calls `addr+Add`, and a callee that returns continues behind the site with memory and registers as it left them. |
| X86Meaning.JumpMeaning | relocate.go:176-299 | A JMP, near behind any byte or far behind none of those four, reaches `addr+Add` and changes nothing else. |
| X86Meaning.CallMeaning | relocate.go:136-169 | The same for a CALL relocated by `relocateCALL`. |
| X86Meaning.FarCallIff | relocate.go:196-230 | A far CALL with the instruction in front left alone calls its target and comes back behind the site if and only if the byte in front is none of 8D, 8B, 83, FF; behind 8D and FF it calls the first byte of the epilogue. |
| X86Meaning.FarJumpIff | relocate.go:196-230 | The same for a far JMP: it reaches its target if and only if it is not misread. |
| X86Meaning.MisreadSite | relocate.go:201-230 | Behind 8D and FF the opcode stays and leads to the first byte of the epilogue, where the address is stored; 8D itself becomes 8B. |
| X86Meaning.BehindCmpl | relocate.go:212-230 | Behind 83 the site is rewritten from one byte earlier on. |
| X86Meaning.IndirectCallMeaning | relocate.go:215-217 | A CALL through a pointer calls what is stored at `addr+Add` when near, and `addr+Add` itself when far; both return behind the site. |
| Outcomes.PcrelDoneIff | relocate.go:176-299 | R_PCREL ends well if and only if `addr+Add` is within -2^31 and 2^31-1 of the end of the site and no test of epilogues is forced, or there are an epilogue and an instruction that has a far form. |
| Outcomes.PcrelNearBytes | relocate.go:296-298 | A distance that fits is what the displacement then reads as; beside it only the refilled epilogue and the restored opcode change. |
| Outcomes.CallDoneIff | relocate.go:136-169 | R_CALL ends well if and only if the distance fits in the same way or there is an epilogue. |
| Outcomes.CallNearBytes | relocate.go:163-166 | A distance that fits is what the displacement of the CALL reads as; only the refilled epilogue and the opcode change besides. |
| Outcomes.FarCmplBytes | relocate.go:212-262 | A far CMPL leaves a JMP and no-ops at the site and, in the epilogue, a 64-bit compare of the word at the target with the instruction's own immediate. |
| RelocArm64.Relocator.RelocateADRP | relocate.go:32-134 | The in-place rewrite of an ADRP pair, with its saved-original cache, has exactly the effect of `RelocatedADRP`. |
| RelocArm64.Relocator.RelocateCALLARM64 | relocate.go:301-338 | The in-place rewrite of an R_CALLARM64 site has exactly the effect of `RelocatedCALL`. |
| RelocArm64.BranchWord | relocate.go:60-64 | Or-ing magnitude and sign into B yields the branch word used in the proofs. |
| RelocArm64.CreateARM64Nops | utils.go:57-67 | A refill consists of whole no-op instructions. |
| Outcomes.AdrpDoneIff | relocate.go:32-134 | A pair not through a slot and within 2^32 of its page ends well if and only if the target is a multiple of the 1, 1, 2, 4 or 8 bytes its kind accesses; a farther one if and only if it has an epilogue. |
| Outcomes.SlotDoneIff | relocate.go:44-51 | A pair through a slot ends well if and only if the slot is not in front of it. |
| Outcomes.CallArm64DoneIff | relocate.go:301-338 | R_CALLARM64 ends well if and only if its target is within 32 MiB or there is an epilogue. |
| A64Meaning.AddMeaning | relocate.go:32-134 | R_ADDRARM64: from the site, near or far, execution reaches `loc.Offset+8` with exactly `symAddr+Add` in the register and nothing else changed. |
| A64Meaning.LoadStoreMeaning | relocate.go:32-134 | R_ARM64_PCREL_LDST*: near or far, exactly the access of the bare instruction is performed at `symAddr+Add`; only the page register differs. |
| A64Meaning.SlotMeaning | relocate.go:44-51 | R_ARM64_GOTPCREL: the pair loads `symAddr+Add` from the slot in the epilogue. |
| A64Meaning.NearReachIff | relocate.go:53 | For distances up to 2^32 the near form reaches the target if and only if the distance is below 2^32. |
| A64Meaning.BranchWordDecodes | relocate.go:60-64 | The branch word decodes to its distance if and only if that is within 128 MiB. |
| A64Meaning.FarPairReachIff | relocate.go:60-66 | Executing the branch of a far pair reaches its epilogue if and only if that starts less than 128 MiB behind the site. |
| A64Meaning.NearCallMeaning | relocate.go:328-336 | A near R_CALLARM64 calls `addr+Add` with the return address behind the site. |
| A64Meaning.FarCallMeaning | relocate.go:309-327 | A far one, its epilogue less than 64 MiB away, does the same through X17, which alone changes besides. |
| A64Meaning.FarCallReachIff | relocate.go:313-318 | The branch of a far call reaches its epilogue if and only if that starts less than 64 MiB behind the site. |
| A64Meaning.PerformKeepsCode | relocate.go:75-83 | A displaced load or store that does not store into the segment leaves the code in place. |
| FrameX86.PcrelFrame | relocate.go:176-299 | Nothing outside a site and its epilogue changes. |
| FrameX86.PcrelLocal | relocate.go:176-299 | What is written inside depends on the bytes inside only, outcome included. |
| FrameX86.LastWriterWinsIff | relocate.go:180-186 | Relocating to A and later to B leaves what relocating once to B leaves, if and only if no far CMPL lost its immediate in between. |
| FrameX86.CallFrame | relocate.go:136-169 | A relocated R_CALL changes its opcode, displacement and epilogue only. |
| FrameX86.CallLocal | relocate.go:136-169 | And writes the same there whatever stands elsewhere. |
| FrameArm64.AdrpAt | relocate.go:32-134 | Every byte after relocating a pair is either the old one, outside, or fixed by the pair and target, inside. |
| FrameArm64.CallAt | relocate.go:301-338 | The same for a BL and its epilogue. |
| FrameArm64.LastWriterWins | relocate.go:35-42 | Relocating a pair to A and later to B leaves what relocating once to B leaves, for all kinds. |
| Order.OrderIrrelevant | relocate.go:340-504 | The final bytes, and the bytes saved, of separate relocations do not depend on the order in which they are applied. |
| Order.RelocatedBytes | relocate.go:340-504 | Each final byte is the one its own relocation alone would have written, or the original. |
| Order.SeparateSucceed | relocate.go:340-504 | Relocations that succeed alone succeed together. |
| Order.RelocateAmd64 | relocate.go:340-504 | The amd64 loop computes the sequential composition, stopping at the first error. |
| Order.RelocateArm64 | relocate.go:340-504 | So does the arm64 loop. |
| TextOrder.AddTexts | ld.go:284-385 | Laying out one function after another yields a section in which each stands with its bytes and epilogues behind those before. |
| TextOrder.SectionIsSeparate | ld.go:284-385 | Relocations of a laid-out section, of all kinds and across functions, are separate once each succeeds and their instructions are apart: no epilogue shares a byte with anything. |
| TextOrder.OwnInstructionsApart | ld.go:284-287 | Instructions inside their own functions are clear of all epilogues and of the instructions of other functions. |
| TextOrder.SectionOrderIrrelevant | relocate.go:340-504 | The relocations of a laid-out section may be applied in any order: every permutation succeeds and ends in the same code and saved bytes. |
| TextOrder.SectionIsReadyIff | ld.go:284-385 | Every relocation of the section has the room its rewriting demands if and only if it is not one that `TooSmall` names. |
| Dedup.OneAgain | ld.go:996-1010 | Relocating one of many sites again, after all of them, is relocating it to its new address in the first place. |
| Dedup.LastAddressesWin | ld.go:996-1010 | However often sites are relocated again, the result is that of relocating each once, to its last address, unless a far CMPL lost its immediate. |
| Adjacent.AdjacentAgreeIff | relocate.go:196-230 | Two adjacent sites, CALL or JMP each, may be relocated in either order if and only if the second is near or the byte in front of it, before and after the first is relocated, does not change what it is taken for. |
| Adjacent.AdjacentCallsDependOnOrder | relocate.go:196-230 | When the first goes backwards by up to 16 MiB and the second is a far CALL both orders succeed and differ. |
| Reserve.TextSection.AddText | ld.go:284-385 | A function's bytes are placed after what is there, each relocation gets its epilogue behind them, in order and apart. |
| Reserve.TextSection.ReserveOne | ld.go:297-384 | One epilogue lies in the space appended for it. |
| Reserve.WhoGetsRoom | ld.go:294-296 | With the option against epilogues only relocations against string constants get one; it starts behind the bytes at a multiple of eight, and nothing else of a relocation changes. |
| Reserve.PcrelFitsIff | ld.go:311-362 | R_PCREL at any offset: the epilogue fits its reservation, whatever the target, if and only if the bytes at and in front of the site are not those of `Overruns`; a jump back assumed short is short. |
| Reserve.LittleIsWasted | ld.go:311-362 | Of what is reserved for a known instruction at most three bytes go unused, eight for a MOV into RAX. |
| Reserve.CallFitsIff | ld.go:373-382 | R_CALL: the epilogue fits if and only if the call is not both early and far from its epilogue; otherwise it is three bytes too long. |
| Reserve.Arm64Fits | ld.go:298-310 | On arm64 what is reserved is exactly what is written, at an instruction boundary, for R_CALLARM64 as for the pairs. |
| Reserve.ReservedIsReady | ld.go:311-362 | A reserved R_PCREL relocation, at offset 1 too, meets what `relocatePCREL` demands if and only if its reservation does not overrun. |
| Reserve.ReservedCallIsReady | ld.go:373-382 | A reserved R_CALL meets what `relocateCALL` demands if and only if it is not both early and far from its epilogue. |
| Varint.ReadBack | reflectlite/reflectlite1.19/type.go:1024-1050 | Reading a varint that was written gives the number back, whatever stands around it. |
| Varint.WriteVarint | reflectlite/reflectlite1.19/type.go:1037-1050 | The loop writes the encoding and nothing behind it. |
| Varint.ReadVarint | reflectlite/reflectlite1.19/type.go:1024-1035 | The loop returns value and size of the number that stands there. |
| Varint.UvarintSize | reflectlite/reflectlite1.19/type.go:1037-1039 | The encoding takes at most k bytes if and only if the number is below 128^k. |
| Varint.UvarintDigits | reflectlite/reflectlite1.19/type.go:1037-1050 | The bytes written are the digits of the number to base 128, lowest first, with 128 added to all but the last. |
| PcTable.StepPair | ld.go:696-715 | One decoding step inverts the encoding of one pair. |
| PcTable.SmallPair | ld.go:818-822 | Deltas of one byte each are written as the zigzag code of the value and the count of quanta. |
| PcTable.ReadPCData | ld.go:696-715 | The loop returns where each pair ends and its value. |
| PcTable.PcValue | ld.go:731-754 | The loop returns the value and range start that the table defines for a pc, or a miss behind its end. |
| PcTable.LookupCovers | ld.go:731-754 | A table answers exactly for the pcs below its span. |
| PcTable.CutLastDelta | ld.go:792-799 | The byte search from the end always cuts exactly the final pc delta, however often its bytes occur before. |
| PcTable.LastIndex | ld.go:795 | The search returns the last occurrence. |
| PcTable.PatchPCValuesForReloc | ld.go:756-829 | The patched table is the old one extended to the end of the epilogue with the value at the site; it panics if and only if the table does not cover the site. |
| PcTable.PatchedCanonical | ld.go:783-829 | An extended table is canonical again and covers exactly up to the end of the epilogue. |
| PcTable.PatchedLookup | ld.go:783-829 | No answer below the old end changes; from there on the site's value is given. |
| PcTable.PatchForRelocs | ld.go:517-534 | The loop over a function's relocations yields the table with one epilogue after the other patched in. |
| PcTable.PatchedAllLookup | ld.go:517-534 | After all relocations every original pc decodes to its old value and every pc of each epilogue to the value at that relocation's site. |
| EpilogueTables.ReservedAreInOrder | ld.go:287-385 | What the reservation lays out is what the patching of the tables demands, for all relocations of a function. |
| FindFunc.BuildBuckets | ld.go:861-886 | Every bucket up to the end of the text counts from the first function that reaches its start, and every subbucket holds the distance, cut to one byte, to the first that reaches its own start; none points behind a function that starts after its first byte. |
| FindFunc.SubbucketSafe | ld.go:881-885 | A distance cut to one byte leads to the function it was measured to or to one before it, never behind. |
| FindFunc.StartIsLow | module.go:16-27 | The scan never starts behind the entry it looks for, the extra head entry of the table included. |
| FindFunc.Find | module.go:16-27 | Bucket plus subbucket and a forward scan end at the last entry at or below the pc. |
| FindFunc.BuildAndFind | ld.go:851-889 | Built and then searched, the index finds the function of every pc below `maxpc`. |
| FindFunc.LinearScanAgrees | module.go:16-27 | That entry is the only one a scan of the whole table can end at. |
| TextIndex.LayoutIsIndexable | ld.go:851-889 | The layout records functions as the bucket builder demands: from zero on, not decreasing, within the text. |
| TextIndex.Attribute | ld.go:851-889 | Every address in the code of a function, epilogues included, is attributed to that function. |
| Layout.Linker.AddSymbol | ld.go:275-505 | Through all recursive calls the layout stays faithful and apart, buffers only grow, every function met has its funcdata recorded and every object symbol met has all that it refers to; it succeeds for all buildable symbols. |
| Layout.Linker.AddRelocs | ld.go:427-493 | Every target of the symbol's relocations is in the symbol map; one without bytes is at the start of its buffer, in the no-pointer data the reserved word, and no reference to it exceeds a word; it succeeds for all buildable symbols. |
| Layout.Linker.AddTarget | ld.go:431-493 | The same for one reference; what is left to the host is entered at -1, for R_CALLIND at 0, and under "(TLS)" at the site for thread-local storage. |
| Layout.Linker.ReadFuncData | ld.go:556-574 | Every funcdata offset recorded is that of its symbol; it succeeds when every funcdata name is known. |
| Layout.Linker.PlaceSymbol | ld.go:283-418 | A symbol is appended to the buffer of its kind, aligned; string constants go to the heap; it fails for unknown kinds only. |
| Layout.Linker.AddExternal | ld.go:445-491 | The name enters the symbol map, made-up symbols with their bytes, others at the offset the first reference to them gives. |
| Layout.Linker.AddSymbols | ld.go:170-269 | The whole layout, closed under references, then the shift of all offsets; it succeeds for all buildable object symbols. |
| Layout.Linker.ShiftOffsets | ld.go:243-266 | Each offset moves by the lengths of the buffers in front of its own. |
| Layout.Linker.Load | ld.go:1262-1274 | The copies put the code and, one behind the other, data, data without pointers, zeros and zeros without pointers into the segments. |
| Layout.FinalBytes | ld.go:391-415 | At its final offset in the loaded segment every symbol with bytes is exactly its bytes. |
| Layout.FinalPlace | ld.go:391-415 | Functions end up in the code; in the data segment initialized data lies first, then data without pointers and read-only data, then zeros, then zeros without pointers; constants named "go:string." are on the heap. |
| Layout.FinalPlaceMadeUp | ld.go:445-491 | Symbols made up by the linker end up in the data without pointers. |
| Layout.FinalApart | ld.go:391-415 | Distinct symbols with bytes never overlap, in one buffer or across buffers. |
| Layout.FunctionsIncrease | ld.go:544-545 | Functions are recorded in increasing address order, each ending before the next begins. |
| Layout.FuncDataReaches | functab.1.18.go:25-35 | For funcdata that is read-only data or data without pointers the offset recorded before the shift plus `gofunc` is the final address, and it is never zero; no funcdata is recorded as zero. |
| Layout.AppendKeeps | ld.go:388-418 | Appending one more symbol keeps every earlier one faithful and apart. |
| NameTables.ReadsBack | ld.go:507-515 | An interned string reads back from its offset, whatever is appended to the table later. |
| NameTables.FuncNames.Intern | ld.go:507-515 | Interning returns an offset at which the name stands, the old one if it was known, and disturbs no entry. |
| NameTables.OffsetsTellNamesApart | inlinetree.go:27-33 | Two interned names have the same offset if and only if they are equal. |
| NameTables.CountFiles | obj/readobj.1.16.go:354-358 | The offset of a unit is the number of files in the units before it. |
| NameTables.FileTables.ReadPackage | readobj.go:53-77 | Added to the files of earlier packages it is the unit's position in the list of all files. |
| NameTables.FileTables.AddFiles | ld.go:174-186 | Entry k of `cutab` leads to the expanded name of file k, for every sequence of packages. |
| NameTables.TrimmedIs | ld.go:179-181 | A leading "gofile.." is cut off a file name and nothing else. |
| NameTables.FileTables.AddFile | ld.go:176-185 | One file more disturbs no earlier entry. |
| NameTables.FileReadsBack | ld.go:174-186 | The string at `cutab[CUOffset+j]` is the expanded name of file j of that compilation unit. |
| Autolib.Walk.RecurseAutolibs | ld.go:147-162 | The walk lists the target after all it needs, once each; the inner append never fires. |
| Autolib.Walk.AppendUnlisted | ld.go:154-159 | The inner loop appends exactly the packages not seen. |
| Autolib.Autolib | ld.go:129-145 | The list holds exactly the packages reachable from the main package, once each, imports before importers. |
| Autolib.NeedsComeFirst | ld.go:147-162 | Whatever a listed package needs, directly or not, stands before it. |
| Autolib.OrderNeedsAcyclic | ld.go:129-145 | There is such a list only if the import graph below the main package has no cycle, so asking for that asks nothing extra. |
| Autolib.DoInitialize | init.1.21.go:41-62 | A package whose task has an address and functions to run is handed over as often as it is named, any other never, in the order of the list; a task is reset if and only if some package named for a rerun has it. |
| Autolib.InitAfterImports | init.1.21.go:36-62 | In that order each package's init runs after those of all the packages it needs, however the sort broke ties. |
| Autolib.RunOrderSorted | init.1.21.go:44-62 | Leaving out tasks keeps the order. |
| Reachability.Linker.CollectReachableSymbols | readobj.go:352-382 | One call terminates and adds its argument, all edges out of what is new, and nothing a closed set with the argument could do without. |
| Reachability.Linker.CollectReferences | readobj.go:364-381 | Type, relocations, inlined functions and funcdata are followed in this order. |
| Reachability.Linker.CollectRoots | readobj.go:239-241 | After any sequence of root calls the set is the least closed set that holds them. |
| Reachability.LeastIsUnique | readobj.go:236-241 | So the order of the roots, a map iteration, does not matter. |
| Reachability.LeastClosedLeads | readobj.go:352-382 | That set is the least one which holds the roots and, with a name, its symbol's type, relocations, inlined functions and funcdata, and, with the name of a pointer type, the type pointed to. |
| Reachability.UniverseIsClosed | readobj.go:359-362 | Names reachable by references and star stripping are finitely many. |
| TypeIdentity.DecideIdentical | reflectlite/reflectlite1.19/value.go:1209-1316 | With a fresh set of pairs the comparison terminates on every finite, possibly cyclic graph and returns true if and only if some bisimulation relates the two types. |
| TypeIdentity.IdenticalIff | reflectlite/reflectlite1.19/value.go:1209-1316 | Two types are identical if and only if they are one or are among pairs that agree, kind by kind, in lengths, direction, variadicity, fields and packages, and in parts that have equal names, kinds and packages and are pairs themselves (with tags compared: are one type). |
| TypeIdentity.Comparer.HaveIdenticalUnderlyingType | reflectlite/reflectlite1.19/value.go:1221-1316 | On success every pair it added holds up under the final set; identical types always succeed. |
| TypeIdentity.Comparer.HaveIdenticalType | reflectlite/reflectlite1.19/value.go:1209-1219 | With tags compared parts must be the same type, otherwise header and underlying types decide. |
| TypeIdentity.Comparer.HaveIdenticalFields | reflectlite/reflectlite1.19/value.go:1284-1312 | Fields agree in name, type, tag if asked, offset and embedding. |
| TypeIdentity.FinalSeenIsBisimulation | reflectlite/reflectlite1.19/value.go:1225-1229 | The final set of pairs is itself the bisimulation. |
| TypeIdentity.IdenticalUnfolds | reflectlite/reflectlite1.19/value.go:1231-1315 | Identical types have the same shape and identical parts. |
| TypeIdentity.IdenticalSymmetric | reflectlite/reflectlite1.19/value.go:1209-1316 | What is decided is symmetric. |
| TypeIdentity.IdenticalTransitive | reflectlite/reflectlite1.19/value.go:1209-1316 | And transitive, for cyclic types too. |
| Implements.Implements | reflectlite/reflectlite1.19/type.go:505-587 | For method lists in any common order the one-pass scan returns true if and only if every interface method has a type method of the same name and type and, if unexported, package. |
| Implements.ImplementsIff | reflectlite/reflectlite1.19/type.go:505-587 | What the scan decides, method by method: some method has the name and the type, and the package unless exported, where a method without a path has that of its type. |
| Implements.NextNotYet | reflectlite/reflectlite1.19/type.go:558-584 | No method already passed can serve the next interface method. |
| Names.NewName | reflectlite/reflectlite1.19/type.go:967-1003 | Names and tags of 2^29 bytes or more are refused, in this order; others are encoded into one slice whose first byte is 1 for exported, 2 for a tag and 8 for embedded. |
| Names.Name | reflectlite/reflectlite1.19/type.go:926-935 | Returns the name's bytes. |
| Names.Tag | reflectlite/reflectlite1.19/type.go:937-947 | Returns the tag's bytes, or none if the bit of value 2 is clear in the first byte. |
| Names.IsExported | reflectlite/reflectlite1.19/type.go:914-916 | True if and only if the first byte is odd. |
| Names.Embedded | reflectlite/reflectlite1.19/type.go:922-924 | True if and only if the bit of value 8 is set in the first byte. |
| Names.NameRoundTrip | reflectlite/reflectlite1.19/type.go:914-1003 | For all names, tags and flags the readers return what was written, whatever memory follows. |
| Names.SelfDelimiting | reflectlite/reflectlite1.19/type.go:880-904 | Two encoded names that agree in memory agree in everything. |
| HostModules.HostTypes.PatchTypeMethodOffsets | itab.go:114-235 | One pass over a type's methods: what is patched, marked missing and recorded. |
| HostModules.HostTypes.PatchMethod | itab.go:127-229 | For one method: if it was unreachable, lacked its type or was marked, and the module has code for it, each entry point becomes the module's own for it; otherwise both stay. |
| HostModules.HostTypes.AdjustMethods | itab.go:52-112 | Exactly the itab entries of the given methods follow their slots. |
| HostModules.HostTypes.PatchTypeMethodTextPtrs | itab.go:257-292 | The same for all that was recorded. |
| HostModules.HostTypes.Load | ld.go:927-1053 | A load makes exactly the step `LoadStep`, however often a type is referred to. |
| HostModules.HostTypes.GetOther | itab.go:20-36 | Finds another module that patched the type if and only if there is one. |
| HostModules.HostTypes.Unload | itab.go:294-356 | An unload makes exactly a step `UnloadStep`, in any map order. |
| HostModules.ProgressStep | itab.go:114-235 | Patching a type again leaves what patching it once left. |
| HostMethods.LoadKeeps | itab.go:114-235 | Loading a module with complete types keeps the bookkeeping. |
| HostMethods.LoadPointsInside | itab.go:114-235 | After a load exactly the methods that were unreachable, lacked their type or were marked point, each entry point for itself, at the module's code for them, and itab entries at the one for interface calls. |
| HostMethods.RunPointsInside | itab.go:114-235 | Through every allowed run each entry point of the host is its own, unreachable, or what some module loaded with for that very method and entry point. |
| HostMethods.UnloadIff | itab.go:294-356 | Unloading leaves no reference behind if and only if no slot refers to the module while another module has patched its type; then the bookkeeping is kept. |
| HostMethods.OldestCanBeUnloaded | itab.go:11-18 | The oldest module always meets that condition. |
| HostMethods.RunIsSafe | module.go:98-120 | Through every run that unloads in load order host slots and itab entries refer to loaded modules only; with none left all that was patched is unreachable. |
| HostMethods.AllowedRunIsSafe | module.go:98-120 | The same through every run in any order in which each module that is unloaded meets the condition. |
| HostMethods.GivenBackIff | itab.go:294-356 | With no module left, methods and itab entries are those of the host before any load if and only if all that was touched had been unreachable. |
| HostMethods.ReachableMethodIsLost | itab.go:294-356 | A reachable method that lacks only its type offset is unreachable after one load and one unload. |
| HostMethods.UnloadingTheNewestDangles | itab.go:294-356 | Two modules for which unloading the second one first leaves a host method in freed memory. |
| HostMethods.StaysBehind | itab.go:302-308 | A slot of a type that another module patched is not reset. |
| HostMethods.WithoutIs | module.go:109-120 | Removing a module from the list removes it alone. |
| AddressSpace.FindNextFree | mmap/manager.go:28-53 | The loops compute the suitable gaps in address order. |
| AddressSpace.RoundsToPages | mmap/manager.go:15-21 | Rounding gives page boundaries; rounding up always adds a page, and wraps to zero at the top. |
| AddressSpace.BoundedGapSuitableIff | mmap/manager.go:33-47 | A gap with a mapping behind it is suitable if and only if it lies above the target and has room for the size; adjoining mappings, where the subtraction wraps, are passed over. |
| AddressSpace.LastGapSuitableIff | mmap/manager.go:40-47 | The open-ended gap is suitable if and only if it starts at 2^63 or above and has room. |
| AddressSpace.GapIsFree | mmap/manager.go:28-53 | A suitable bounded gap touches no mapping. |
| AddressSpace.RoomIsListed | mmap/manager.go:28-53 | The whole pages between two mappings, if they lie above the target and have room, are a gap that is tried. |
| AddressSpace.StaysInsideIff | mmap/manager.go:81 | The address loop stays inside its gap if and only if its sums do not wrap. |
| AddressSpace.LastGapWraps | mmap/manager.go:40-43 | In the open-ended gap they always do. |
| AddressSpace.LowerHalfNeverWraps | mmap/manager.go:81 | With all mappings in the lower half of the address space they never do, and every loop over a gap ends. |
| AddressSpace.UnwrappedEnds | mmap/manager.go:81 | Where sums do not wrap the loop ends although every request is refused. |
| AddressSpace.OpenGapNeverEnds | mmap/manager.go:40-43 | In the open-ended gap, if every request is refused, it never ends. |
| AddressSpace.RequestIsHarmless | mmap/manager.go:78-83 | Every request inside a gap, the open-ended one included, is page aligned, above the target and apart from every mapping. |
| AddressSpace.Mmapper.TryGap | mmap/manager.go:78-95 | The loop over one gap ends if some round would end it or some request would be granted; it asks for the loop's addresses in order up to the first that is granted. |
| AddressSpace.Mmapper.AcquireMapping | mmap/manager.go:63-99 | The search ends if some request would be granted or all loops end; its requests and what it changes are as `AllHarmless` and `Outcome` say, and the record stays valid unless a request outside its gap is granted. |
| AddressSpace.SearchEndsIff | mmap/manager.go:78-96 | The search ends if and only if some request would be granted or the loop over every gap ends. |
| AddressSpace.AllPlacesTried | mmap/manager.go:78-83 | A search through all gaps, sums not wrapping, has asked for every place a whole number of steps behind the start of a gap. |
| AddressSpace.UpperMappingOpensGap | mmap/manager.go:40-47 | With one mapping in the upper half behind all others, exactly the open-ended gap wraps and has no end; the others are as in the lower half. |
| AddressSpace.LinuxSearchEndsIff | mmap/manager.go:40-47 | With the vsyscall page last, a search for up to 9 MiB ends if and only if some request would be granted. |
| AddressSpace.AcquiredIsSafe | mmap/manager.go:82-94 | What is acquired lies within 2^32 of the target, on pages, clear of all earlier mappings, which are all still there. |
| AddressSpace.KeptIsNear | mmap/manager.go:87-94 | A mapping is kept if and only if its last byte is within 2^32 of the target, by a 64-bit difference. |
| AddressSpace.Mmapper.Mmap | mmap/syscall_unix.go:48-72 | A granted mapping is registered under its last byte. |
| AddressSpace.Mmapper.Munmap | mmap/syscall_unix.go:74-94 | Removes exactly the registered mapping, or changes nothing. |
| AddressSpace.RegisteredIff | mmap/syscall_unix.go:74-86 | A slice can be unmapped if and only if it is, as a whole, an active mapping. |
| AddressSpace.RunIsSafe | mmap/manager.go:63-99 | Through every run of acquisitions and releases, with other code mapping in between, whose grants are inside gaps, all ranges stay apart, every active mapping stays mapped, what was granted and every request in a gap without wrap is harmless, and no mapping is lost but by its own release. |
| Bytes.CopyInto | relocate.go:42 | Copying into a slice changes exactly the bytes it covers. |
| Bytes.ValLE | utils.go:85-92 | A little-endian word reads back as the number written. |
| Bytes.OrField | relocate.go:106-131 | Or-ing a value into a clear bit field adds it. |

## Left out

- The toolchain and file work in `jit/`, the readers in `obj/`, symbol name resolution, mprotect and cache flushing, Mach-O patching, assembly trampolines: process plumbing and foreign effects. System calls that decide something are parameters.
- Runtime internals reached by linkname: `step` and the `findfunc` scan have the short specification in `PcTable.Step` and `FindFunc.Find`; `typesEqual`, `itabAdd`, `doInit1` and GC programs are not part of this model.
- `convert.go`, closure and func conversion, protobuf and JSON unload helpers, debug printing, `reflectlite1.18` (a near copy of the 1.19 files).
- R_ADDR, R_ADDROFF, R_METHODOFF, R_GOTPCREL on amd64 and TLS offsets, which store one word or two without branches; R_CALLARM and R_CALLARM64 with the weak flag, which takes the 32-bit ARM template.
- X86Meaning.LeaMeaning: no meaning is claimed for CMPL, which is replaced by a 64-bit compare; its bytes (`Outcomes.PcrelNearBytes`, `Outcomes.FarCmplBytes`), frame and re-application are covered.
- X86Meaning.MovMeaning: of the far form it supposes that the eight bytes below the stack pointer, where RAX is pushed, hold neither code nor the word to be loaded.
- X86Meaning.FarHalfMovIff: a MOV of 16 bits, behind an operand-size prefix 66, is outside.
- X86Meaning.FarCallIff: a target that is the first byte of the site's own epilogue is outside, because entering the stored address would then be entering the target; so too for `FarJumpIff`.
- RelocX86.Relocator.RelocatePCREL: supposes three bytes in front of the displacement and an epilogue that fits, which `TextOrder.SectionIsReadyIff` decides; without them the source panics or overruns.
- A64Meaning.LoadStoreMeaning: supposes, with `SparesCode`, that a displaced store does not overwrite the very segment being executed.
- A64Meaning.NearCallMeaning: a target that is not a whole number of instructions away is outside the claim; `CallDistance` truncates it as the source does.
- PcTable.PatchPCValuesForReloc: tables are canonical as the compiler writes them (values change from pair to pair); other byte strings are outside the claim.
- Layout.FinalBytes: functions are taken as placed, before relocation rewrites them. Inline trees, which append to the same buffers, the offsets inside relocations, and packages whose symbols are resolved to the host instead are not modelled. Symbols without bytes share the reserved word and are outside the claim.
- Layout.FuncDataReaches: the stored offset is cut to 32 bits in the source, which is the whole offset for segments below 4 GiB.
- NameTables.FileTables.AddFiles: offsets are cut to 32 bits, so the claim ends where the table outgrows 4 GiB.
- Autolib.Autolib: cyclic import graphs, which Go does not allow, are outside; `Autolib.OrderNeedsAcyclic` shows that no order exists for them.
- Autolib.DoInitialize: takes the list that `sort.Slice` left (any permutation in order) and writes package names without the escaping and suffix they share.
- Names.Name: names without any bytes (nil), for which the readers return the empty string.
- Implements.Implements: the interface-to-interface case, which compares method types structurally with interface relaxation.
- TypeIdentity.DecideIdentical: interface relaxation is off; non-empty interfaces then are identical only to themselves, as in the source.
- HostMethods.RunIsSafe: for ifn and tfn; type offsets (`mtyp`, `typemap`) only decide what is patched. Which slot an itab entry resolves to is fixed, text offsets are symbolic, and loaded types have all their methods, as the source's own comment requires.
- AddressSpace.Mmapper.AcquireMapping: a search that does not end (`SearchEndsIff`) has no outcome. What a request granted outside its gap, after a sum wrapped, runs into is not part of the claim; ranges mapped by other code during one search are not modelled, between calls they are.
- TextOrder.SectionIsSeparate: that the instructions of one function are apart, and that at offset 1 the byte in front of the function belongs to no epilogue, are hypotheses; `Adjacent` shows what happens without the first.
- Locks: every operation modelled runs under its own, one at a time.
