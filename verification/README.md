# Machismo's in-memory rewriting, modelled and proved

Machismo loads foreign arm64 binaries and rewrites them in memory. Its core is a set of small
compilers, interpreters and indexes, and this project models six of them and proves what they are for.
`dafny verify dfyconfig.toml` checks everything.

**Instruction islands** (`A64Memory`, `A64`, `BitFields`, `IsaEncode`, `LseValues`, `IsaEmul`,
`StackFrame`, `Interleaving`, `RmwIsland`, `CasIsland`, `BcaxIsland`, `IslandExact`, `IsaPatch`,
`IsaEmit`, `PatchedImage`, `DeadBytes`, `ProgramSim`). A small A64 machine after sections C6.2 and C7.2 of the Arm ARM (DDI 0487): 31
registers and SP, flags, byte memory, an exclusive monitor and the vector registers. It fetches 32-bit
words and decodes them by field, independently of the encoders. A run mixes steps of the core with steps
of other cores, which may store anywhere but in the 64 bytes below the stack pointer and clear the
monitor when they do. An island is correct when every such run acts as the one instruction it replaces,
executed at one moment. `IsaEmit` holds the emitting loops on arrays; `PatchedImage` puts code and pool
together in one fetch map, and `ProgramSim` says of whole programs that every run of the patched code is
matched by a run of the original, up to bytes below the stack pointer that an island has used and the
program has not written since; a program that reads such bytes is not covered. Every island keeps the
acquire and release ordering of its instruction, which is proved of the decoded words since one shared memory
cannot show it. Where an island fails (a byte or halfword CAS, UMAX or UMIN with high bits in
its source register, BCAX with all of va, vd, vn equal, SP as base) `IslandExact` and `BcaxIsland` say of
its finished runs exactly when they end as the instruction.

**Allocation tracer** (`OpenTable`, `HashTable`, `TraceLog`, `Regions`, `TraceSpec`, `TraceEvents`,
`TraceRuns`, `TraceNames`, `TraceRefine`, `TraceReads`, `TraceClock`, `TraceBytes`, `Tracer`). The open-addressing tables are a class over an array with
doubling and cluster re-insertion, for any hash function. `Tracer` is the tracer as an object with its
five tables, tag and region lists, counters and record stream; each method is proved to do to the
abstract state what a function of the same name says. `TraceRefine` proves of those functions, over
every run, that the tables and the stream describe what actually happened. `TraceReads` says it from the
events alone: what a reader of the stream finds for a block, a byte or an address that some event was the
last, or the first, to touch. `TraceBytes` and `TraceClock` count the outstanding bytes and the time stamps.

**Compact unwind to DWARF** (`Leb128`, `EhFrame`, `EhEntries`, `EhCfi`, `EhParse`, `EhMeaning`,
`EhRead`, `EhEmit`, `EhBuild`, `EhParts`, `EhPointers`, `EhTable`, `FunctionStarts`). The emitted bytes as a specification, the
emitter as a class with a fixed buffer and patched lengths, an interpreter of call frame instructions
after section 6.4 of DWARF 5, the program's own two readers, and the sorting and searching around them. `EhParts` states what the
section means for encodings put together from register bits, stack size, personality and flags, and
`EhPointers` what the general reader finds in a section of another origin, in any pointer format.
LEB128 is section 7.6 of DWARF 5.

**dyld fixups** (`DyldRebase`, `DyldBind`, `RebaseWires`, `BindWires`, `Chains`). The opcode interpreters
in C and the independent Python decoders, each against one flat list; what that list is for the streams a
linker writes, step by step; pointer chains walked in place, over all pages of an image.

**Transactional patchers** (`ByteMemory`, `HookCpu`, `Hooks`, `Patches`, `PatchMeaning`) and the **SGR
archives** (`SgrCipher`, `SgrArchive`, `SgrWords`). `HookCpu` is a machine of three instructions on bytes, to
show where a hooked address leads; `PatchMeaning` gives patch files a meaning as a relation between lines and
writes. `Basics` holds what several of them share.

## What the proofs found

- A moved word's return branch reaches its goal exactly when the island ends at most 2^25 + 2 words
  after the site; the entry branch is checked for range, the return branch is not
  (`IsaPatch.ReturnReaches`).
- An LDAPR word is taken for a SWP by the LSE decoder, so the order of the two passes matters
  (`IsaPatch.LdaprLooksLikeSwp`).
- With SP as base the pushes have moved SP, so the island's loop works on the saved flags word: it
  returns that word's low bytes, a word or doubleword result replaces the flags, and the guest's operand is
  neither read nor written (`IslandExact.RmwSpRuns`, `IslandExact.CasSpRuns`, with the exact conditions in
  `RmwSpExact` and `CasSpExact`).
- The 32nd distinct mapping tag is entered as `mmap(other)` and therefore forgotten; another new tag asks
  for slot 32 of a 32-slot table. A run stays inside exactly when after the 32nd distinct tag only the first
  31 and `mmap(other)` occur (`TraceRefine.TableExactly`); 33 mappings that do not are
  `TraceRefine.OverflowReached`.
- A section outgrows its reservation, which is then only reported, exactly when 28 bytes, 24 or 32 for each
  personality and the encodings' own FDE sizes exceed 80 a function plus 4096 (`EhEntries.FitsExactly`).
  With at most 492 functions of the 88-byte kind it always fits; four personalities and nothing but such
  functions overflow from 493 on.
- An LSDA whose encoding selects no personality is written but cannot be read back
  (`EhMeaning.SectionMeaning`).
- The Python signed LEB128 reader is wrong by 2^70 exactly below -2^62 (`Leb128.SignedReaders`).
- The C opcode interpreters stop at the first end mark, except in the lazy bind stream, and the Python
  decoder does not; so the two agree exactly when no later operation names a place
  (`DyldRebase.RebasesAgree`, `DyldBind.BindsAgree`).
- Special ordinals 1 to 7 are negative to one bind reader and positive to the other, and the weak stream
  starts with ordinal 0 in one and -3 in the other, so a weak bind before any ordinal is set differs
  (`DyldBind.AgreedExactly`, `DyldBind.BindsAgree`).
- An empty file comes back from an SGR archive as the four bytes of its own trailer
  (`SgrArchive.ArchiveRoundTrip`).

Conventions: registers, addresses and values are integers with explicit wrap-around, instruction words
are `bv32`. The load- and store-exclusive encoders leave a field at 0 that the manual prints as ones; the
decoder ignores it, as the manual's pseudocode does. Hash masks are remainders, since capacities are
powers of two.

## Model

| member | source | states |
|---|---|---|
| A64Memory.LoadSame | src/isa_emul.c:224-356 | a load sees only the bytes it covers, so shared memory outside the saved frame decides it |
| A64.FlagsWordRoundTrip | src/isa_emul.c:38-48 | flags moved to a register and back are the same flags |
| IsaEncode.DecodeB | src/arm64_enc.h:10-18 | the branch word decodes to a branch over its offset, for every offset in range |
| IsaEncode.DecodeCbnzW | src/isa_emul.c:20-24 | the encoded CBNZ decodes to itself for every register and offset |
| IsaEncode.DecodeStrPre | src/isa_emul.c:26-30 | the push word decodes to a pre-indexed store at SP-16 |
| IsaEncode.DecodeLdrPost | src/isa_emul.c:32-36 | the pop word decodes to a post-indexed load at SP |
| IsaEncode.DecodeNzcv | src/isa_emul.c:38-48 | the flag moves decode to themselves for every register |
| IsaEncode.DecodeLdxr | src/isa_emul.c:52-70 | load-exclusive words of all sizes and orderings decode to themselves |
| IsaEncode.DecodeStxr | src/isa_emul.c:75-81 | store-exclusive words of all sizes and orderings decode to themselves |
| IsaEncode.DecodeAdd | src/isa_emul.c:83-87 | register ADD decodes to itself in both widths |
| IsaEncode.DecodeBic | src/isa_emul.c:89-93 | register BIC decodes to itself in both widths |
| IsaEncode.DecodeEor | src/isa_emul.c:95-99 | register EOR decodes to itself in both widths |
| IsaEncode.DecodeOrr | src/isa_emul.c:101-105 | register ORR decodes to itself in both widths |
| IsaEncode.DecodeCmp | src/isa_emul.c:107-111 | CMP decodes to a flag-setting subtraction without destination |
| IsaEncode.DecodeCsel | src/isa_emul.c:113-117 | CSEL decodes to itself for every condition |
| IsaEncode.DecodeSxtb | src/isa_emul.c:125-129 | SXTB decodes to itself |
| IsaEncode.DecodeSxth | src/isa_emul.c:131-135 | SXTH decodes to itself |
| IsaEncode.DecodeVBic | src/isa_emul.c:379-383 | vector BIC decodes to itself |
| IsaEncode.DecodeVEor | src/isa_emul.c:385-389 | vector EOR decodes to itself |
| IsaEmul.PickScratch | src/isa_emul.c:145-156 | the first register not excluded from X16 down to X9, then from X17 up to X28, else X8 |
| IsaEmul.ScratchFree | src/isa_emul.c:145-156 | the register picked is not excluded whenever one of X9 to X16 is free |
| IsaEmul.ScratchesDistinct | src/isa_emul.c:231-280 | the three scratch registers differ from each other and from every operand |
| IsaEmul.DecodeLseAgrees | src/isa_emul.c:175-220 | the decoder accepts exactly the LSE instructions and the words that look like SWP, and reads the fields the architecture reads, acquire also for every CAS |
| IsaEmul.DecodeBcaxAgrees | src/isa_emul.c:403-412 | the decoder accepts exactly BCAX, with its four registers |
| IsaEmul.LseDecodes | src/isa_emul.c:224-356 | the words of every LSE island decode to the island's program |
| IsaEmul.LseOrdered | src/isa_emul.c:231-356 | an island's words decode to exactly one load-exclusive and, behind it, one store-exclusive on the instruction's size and base, with acquire and release as it has them, and nothing else touches memory but the frame |
| IsaEmul.BcaxDecodes | src/isa_emul.c:415-443 | the words of every BCAX island decode to the island's program |
| IsaEmul.RmwLength | src/isa_emul.c:224-356 | length of a read-modify-write island, for every operation and destination |
| LseValues.IslandValueCorrect | src/isa_emul.c:298-338 | the value the island stores is the architecture's for every operation, size and operand that fits |
| LseValues.SignedChoice | src/isa_emul.c:298-338 | the sign-extended comparison decides as the narrow signed comparison |
| RmwIsland.RmwAtomic | src/isa_emul.c:224-356 | every finished run under interference stores once, at one step, and is one atomic execution of the instruction there |
| RmwIsland.RmwFinishes | src/isa_emul.c:224-356 | from any point of a run the core alone finishes within twice the island's length |
| RmwIsland.InterferenceKeeps | src/isa_emul.c:224-356 | a store by another core between any two island steps keeps the island's invariant |
| RmwIsland.CpuKeeps | src/isa_emul.c:224-356 | each island step keeps the invariant and only the winning store-exclusive changes shared memory |
| RmwIsland.IslandAtomic | src/isa_emul.c:224-356 | without any condition on operands, SP as base included, every finished run under interference makes one store, which applies the island's operation to the memory found there |
| CasIsland.CasAtomic | src/isa_emul.c:231-266 | every finished CAS run is one atomic compare-and-swap, at the store when it swaps and at the load when it does not |
| CasIsland.IslandAtomic | src/isa_emul.c:231-266 | the same for the CAS island, with its comparison of whole registers |
| CasIsland.CasFinishes | src/isa_emul.c:231-266 | from any point of a run the core alone finishes within twice the island's length |
| CasIsland.InterferenceKeeps | src/isa_emul.c:231-266 | a store by another core keeps the invariant of the CAS island |
| BcaxIsland.BcaxFinishes | src/isa_emul.c:415-443 | the core alone finishes a BCAX island within six steps |
| BcaxIsland.BcaxExact | src/isa_emul.c:415-443 | every finished run, under interference, ends as the instruction exactly when va, vd and vn are not all the same register or the vectors are zero, and touches no shared memory |
| BcaxIsland.VecScratchFree | src/isa_emul.c:415-443 | the vector scratch differs from all four operands |
| IslandExact.RmwExact | src/isa_emul.c:224-356 | finished runs end as the instruction for every memory exactly when the source fits, a condition only for UMAX and UMIN of a byte or halfword; else some memory makes the run store another value |
| IslandExact.CasExact | src/isa_emul.c:231-266 | finished CAS runs end as the instruction for every memory exactly when the compare register fits the access or the swap would not change memory; else some memory makes the run miss the swap |
| IslandExact.RmwSpRuns | src/isa_emul.c:224-356 | with SP as base every finished run, for every size and operation, writes only the frame below SP, returns the low bytes of the saved flags and restores what its store left of them |
| IslandExact.RmwSpExact | src/isa_emul.c:224-356 | that is the instruction exactly when the operand at SP is the flags' low part or unwanted, the operation would not change it, and applied to the flags it leaves them |
| IslandExact.CasSpRuns | src/isa_emul.c:231-266 | the same for a CAS on SP, whose swap replaces saved flags |
| IslandExact.CasSpExact | src/isa_emul.c:231-266 | the exact condition on operand, registers and flags for the CAS on SP |
| IsaPatch.DowngradeMeaning | src/machismo.c:249-255 | exactly the LDAPR words change, each into the LDAR with the same size and registers |
| IsaPatch.DowngradeRcpc | src/machismo.c:249-255 | the loop downgrades every word in place, counts the LDAPR words and leaves none |
| IsaPatch.LdaprLooksLikeSwp | src/isa_emul.c:175-220 | every LDAPR would be decoded as a SWP, so the downgrade must come first |
| IsaPatch.RecognisedExactly | src/isa_emul.c:175-220 | what the patcher moves is exactly LSE, BCAX and the words that look like SWP |
| IsaPatch.IslandOrdered | src/isa_emul.c:231-356 | the same for the island of every word that the architecture reads as an LSE instruction, wherever it lies |
| IsaPatch.RangeExact | src/isa_emul.c:445-497 | the offsets accepted are exactly those whose branch word decodes to a branch over them |
| IsaPatch.IslandFits | src/isa_emul.c:445-497 | every island has its announced length, 3 to 19 words, within the reserve that is checked |
| IsaPatch.ReturnReaches | src/isa_emul.c:445-497 | the return branch reaches the next word exactly when the island ends at most 2^25+2 words past the site |
| IsaEmit.EmitRmw | src/isa_emul.c:224-356 | the emitting code writes exactly the island's words and nothing else in the pool, and what it wrote keeps the instruction's ordering |
| IsaEmit.EmitCas | src/isa_emul.c:231-266 | the same for compare-and-swap |
| IsaEmit.EmitBcax | src/isa_emul.c:415-443 | the emitting code writes exactly the BCAX island's words and nothing else in the pool |
| IsaEmit.MoveWord | src/isa_emul.c:445-497 | one site is moved: its island is written at the cursor and the site becomes a branch to it, all earlier sites keep theirs |
| IsaEmit.Patch | src/isa_emul.c:445-497 | the pass leaves each word kept, out of range, or moved to its own island, islands in order, disjoint and without gaps inside the pool, each keeping its word's ordering, and stops only when fewer than 5 words for a BCAX or 24 for any other are left |
| IsaEmit.PassOrdered | src/isa_emul.c:445-497 | after a pass every moved LSE word has an island in the pool that keeps its ordering |
| PatchedImage.MovedLseAtomic | src/isa_emul.c:445-497 | in the patched image every run from a moved LSE word to the next word, under interference, is one atomic execution of the original word, by an island that keeps its ordering |
| PatchedImage.MovedBcaxCorrect | src/isa_emul.c:445-497 | the same for a moved BCAX word, without touching shared memory |
| PatchedImage.PipelineOutcome | src/machismo.c:249-262 | after both passes each word is unchanged, the LDAR of the LDAPR it was, or a branch to its island |
| PatchedImage.IslandQuiet | src/isa_emul.c:445-497 | no word of any island is recognised by a second pass |
| PatchedImage.FullyPatchedQuiet | src/isa_emul.c:445-497 | a second pass over fully patched code finds nothing |
| DeadBytes.StepAlike | src/isa_emul.c:445-497 | any instruction keeps two machines alike that differ in dead bytes only, when it reads none of them, and revives what it writes |
| ProgramSim.SimulateRun | src/isa_emul.c:445-497 | along every run of the patched program, inside islands too, the original has a run that is where the patched one is, before or after the whole instruction of the island |
| ProgramSim.ProgramSimulates | src/machismo.c:249-262 | every run of the patched program that stands at a word of the program is matched by a run of the original from the same state: same registers, flags, vectors, program counter and monitor, same memory but for dead bytes |
| ProgramSim.PassesRewrite | src/machismo.c:249-262 | what the two passes leave is such a program whenever every return branch reaches |
| OpenTable.ProbeDecides | src/heaptrack_trace.c:576-618 | with intact chains the slot where probing ends decides membership and value |
| OpenTable.PutNew | src/heaptrack_trace.c:576-592 | a new key in the slot where probing ends extends the map and keeps the chains |
| OpenTable.EmptySlotExists | src/heaptrack_trace.c:576-592 | fewer entries than slots leave an empty slot, so probing ends |
| OpenTable.OpenHole | src/heaptrack_trace.c:594-606 | emptying a slot breaks only chains that lead past it |
| OpenTable.Reinsert | src/heaptrack_trace.c:606-614 | re-inserting the next entry of the cluster repairs the chains up to it and never fills the slot that ends the cluster |
| OpenTable.Repaired | src/heaptrack_trace.c:606-616 | when the empty slot is reached every chain is intact again |
| HashTable.Table.Probe | src/heaptrack_trace.c:576-590 | linear probing ends at the key or at an empty slot, with only other keys before it |
| HashTable.Table.Lookup | src/heaptrack_trace.c:355-364 | the read-only probe answers the map |
| HashTable.Table.Grow | src/heaptrack_trace.c:560-574 | doubling re-places every entry and keeps the map |
| HashTable.Table.Insert | src/heaptrack_trace.c:576-592 | insertion updates the map; in the middle of a removal it writes exactly one slot and cannot grow |
| HashTable.Table.Remove | src/heaptrack_trace.c:594-618 | removal takes exactly the key out of the map, answers its value, and never changes the capacity |
| HashTable.Table.Recluster | src/heaptrack_trace.c:603-614 | the rest of the cluster is re-inserted and the map is unchanged |
| HashTable.Table.Intern | src/heaptrack_trace.c:161-178 | a known key answers its index, a new one is entered under the next index |
| TraceLog.LogTree | src/heaptrack_trace.c:478-496 | in a well-formed stream every tree node refers to an earlier address and an earlier node |
| TraceLog.WalkStable | src/heaptrack_trace.c:478-496 | later records never change a recorded stack |
| TraceLog.WalkUnique | src/heaptrack_trace.c:478-496 | equal stacks have one node |
| TraceLog.OutstandingDefined | src/heaptrack_trace.c:877-881 | whatever is outstanding in a stream has been defined in it |
| Regions.CutMeasure | src/heaptrack_trace.c:844-868 | a cut leaves one overlapping region fewer among those still to examine, so the swap-remove loop ends |
| Regions.CutCovers | src/heaptrack_trace.c:847-868 | outside the unmapped range a cut changes no tracked byte |
| Regions.CutApart | src/heaptrack_trace.c:847-868 | a cut keeps regions nonempty and disjoint |
| TraceSpec.InternNamesKeeps | src/heaptrack_trace.c:432-443 | the three names of an address record resolve to the strings given |
| TraceSpec.InternIpKeeps | src/heaptrack_trace.c:420-446 | an address gets an index whose record is that address, and every table still numbers its records in order |
| TraceNames.IpNames | src/heaptrack_trace.c:420-446 | interning an address keeps that every record's three indices resolve to the names the address was first met with: module and function of its first hint, in that order, or unknown for both, and no file |
| TraceSpec.InternTraceKeeps | src/heaptrack_trace.c:478-496 | a node's stack is its address followed by its parent's stack |
| TraceSpec.BuildStack | src/heaptrack_trace.c:788-800 | walking back from the node returned for any frames gives exactly those frames |
| TraceEvents.CutAtKeeps | src/heaptrack_trace.c:847-868 | retiring a region and putting back its survivors keeps the whole invariant |
| TraceRuns.ScanExact | src/heaptrack_trace.c:844-868 | the scan removes exactly the range from the tracked bytes and reports a hit exactly when something overlapped |
| TraceRuns.MunmapExact | src/heaptrack_trace.c:844-875 | unmapping is exact set subtraction byte by byte, stacks included, and does nothing when nothing overlaps |
| TraceRuns.AllocRecords | src/heaptrack_trace.c:788-815 | an allocation is recorded with its size and the frames less the tracer's own, and loses an info exactly when the pointer was live |
| TraceRefine.MmapRecords | src/heaptrack_trace.c:819-842 | a mapping adds one region whose stack is its tag's address and the frames |
| TraceRefine.EventRefines | src/heaptrack_trace.c:885-1001 | every hook keeps the tracer in step with the map of live pointers and the map of mapped bytes |
| TraceRefine.RunRefines | src/heaptrack_trace.c:885-1001 | over every run the pointer table is the live heap, the regions are the mapped bytes, every stack reads back, every address met has its names, the stream is well formed, and outstanding records equal live ones plus losses |
| TraceReads.BlockReads | src/heaptrack_trace.c:788-815 | a block handed out by some event and not touched since is in the stream, outstanding, with the size asked for and the caller's frames |
| TraceReads.BlockGone | src/heaptrack_trace.c:899-906 | a block that some event took back and none handed out again is not live |
| TraceReads.ByteReads | src/heaptrack_trace.c:819-842 | a byte mapped by some event and not remapped since is tracked under the caller's frames and an address named by the module <mmap> and the tag, or the catch-all after 31 other tags |
| TraceReads.ByteGone | src/heaptrack_trace.c:844-875 | a byte that some event unmapped and none mapped again is not tracked |
| TraceReads.NamesExact | src/heaptrack_trace.c:435-444 | resolving the indices of any address record gives the module and function of its first hint, or "??" for both, and the file "??"; a tag's address has <mmap> and the tag |
| TraceReads.MetNamed | src/heaptrack_trace.c:420-446 | every address met in a stack has such a record |
| TraceReads.SeenFirst | src/heaptrack_trace.c:420-446 | the hints that count are those of the first event whose captured frames contain the address |
| TraceClock.ClocksExact | src/heaptrack_trace.c:801-870 | over every run there is one time stamp for every 1024 allocations and one for every change of the mapped bytes, and no other |
| TraceRefine.LossExact | src/heaptrack_trace.c:576-592 | nothing is lost in exactly the runs that never hand out a live pointer |
| TraceRefine.SharedExactly | src/heaptrack_trace.c:531-547 | two infos mean the same size and stack only if they are one record |
| TraceRefine.TableExactly | src/heaptrack_trace.c:637-660 | a sequence of tags stays in the 32 slots exactly when after the first tag outside the first 31 different ones only those and the catch-all occur |
| TraceRefine.LegalExactly | src/heaptrack_trace.c:885-970 | a run stays in the tables exactly when the kernel keeps its promise and its tags are such a sequence |
| TraceRefine.OverflowReached | src/heaptrack_trace.c:637-660 | a run of 33 mappings that reaches slot 32 |
| TraceBytes.BytesExact | src/heaptrack_trace.c:877-881 | over every run the bytes outstanding in the stream are those of the live blocks, one for each mapped byte, and the lost ones, of which there are none without reuse |
| Tracer.Tracer.InternString | src/heaptrack_trace.c:161-178 | a known string answers its index and changes nothing, a new one takes the next index and emits its record |
| Tracer.Tracer.InternIp | src/heaptrack_trace.c:420-446 | the loop does to the state what the specification of that name does: the index is taken before the names and the record, with module, function and file in their places, comes after them |
| Tracer.Tracer.InternTrace | src/heaptrack_trace.c:478-496 | a call already in the tree answers its node, a new one takes the next index and emits its record |
| Tracer.Tracer.InternAllocInfo | src/heaptrack_trace.c:531-547 | the same for size and stack pairs, numbered from 0 |
| Tracer.Tracer.InternTagIp | src/heaptrack_trace.c:637-660 | a known tag answers its address, a new one takes a slot, a made-up address and the next address index, slot 31 as catch-all, and it is told whether the slot was inside the table |
| Tracer.Tracer.BuildTree | src/heaptrack_trace.c:790-799 | the loop over the frames builds what the recursive specification builds |
| Tracer.Tracer.DoMunmap | src/heaptrack_trace.c:844-875 | the swap-remove loop is the specification's scan, and ends |
| Tracer.Tracer.OnAlloc | src/heaptrack_trace.c:885-897 | the hook applies its event to the state |
| Tracer.Tracer.OnFree | src/heaptrack_trace.c:899-906 | the hook applies its event to the state |
| Tracer.Tracer.OnMmap | src/heaptrack_trace.c:911-970 | the hook applies its event, a fixed mapping unmapping first, and tells whether the tag's slot was inside the table |
| Tracer.Tracer.OnMunmap | src/heaptrack_trace.c:972-979 | the hook applies its event to the state |
| Tracer.Tracer.OnRealloc | src/heaptrack_trace.c:981-1001 | the hook applies its event, a free and an allocation unless the reallocation failed |
| Leb128.UnsignedRoundTrip | src/eh_frame.c:429-437 | the bytes written for an unsigned number read back as that number, whatever follows |
| Leb128.SignedRoundTrip | src/eh_frame.c:440-452 | the same for signed numbers |
| Leb128.ReadUleb | src/eh_frame.c:157-168 | the C loop returns the number modulo 2^64 and the place after it |
| Leb128.ReadSleb | src/resolver.c:979-994 | the C loop returns the signed number, wrapped to 64 bits, for up to ten bytes |
| Leb128.UnsignedReaders | tools/sword3_audit.py:196-210 | C and Python readers give back every unsigned 64-bit number, in at most ten bytes |
| Leb128.SignedReaders | tools/sword3_audit.py:212-226 | the C readers give back every signed 64-bit number, the Python one exactly those from -2^62, others 2^70 too large |
| Leb128.Digits | src/eh_frame.c:157-168 | byte k of a number carries its k-th digit to the base 128, and all but the last say that more follow |
| Leb128.Examples | src/eh_frame.c:429-452 | the worked examples of the standard, written and read |
| Leb128.PyReadUleb | tools/sword3_audit.py:196-210 | the Python loop returns the unreduced number, or fails on an eleventh byte or a cut-off |
| Leb128.PyReadSleb | tools/sword3_audit.py:212-226 | the Python loop as specified, sign extension only below 64 bits |
| FunctionStarts.StartsRoundTrip | src/trampoline.c:591-624 | every strictly increasing list of addresses decodes from its deltas, in C and in Python |
| FunctionStarts.DecodedRises | src/trampoline.c:591-624 | on any data, whatever the C decoder accepts is strictly increasing and inside the address space |
| FunctionStarts.DecodersAgree | tools/recover_sdl.py:356-369 | where the Python decoder's addresses fit 64 bits the C decoder finds the same |
| FunctionStarts.DecodeStarts | src/trampoline.c:551-633 | the nested loops compute the specification, with an empty list an error |
| FunctionStarts.ReadDelta | src/trampoline.c:591-604 | one delta, failing exactly when the data ends or an eleventh byte would be read |
| EhFrame.FrameInsnsSize | src/eh_frame.c:575-640 | frame instructions take 8+4x+6d bytes for x X pairs and d D pairs |
| EhFrame.LittleEndian | src/eh_frame.c:414-426 | words of four and eight bytes are written lowest byte first, and read back |
| EhEntries.FrameSize | src/eh_frame.c:549-645 | a frame FDE takes 33+4x+6d bytes, 8 more with an LSDA, rounded up to eight |
| EhEntries.FdeSize | src/eh_frame.c:549-726 | every FDE takes the bytes that its encoding and the presence of an LSDA say |
| EhEntries.BigExactly | src/eh_frame.c:549-726 | that is at most 88 bytes, and more than 80 exactly with an LSDA, four D pairs and at least four X pairs |
| EhEntries.FitsExactly | src/eh_frame.c:1005-1077 | the section's size, and that it fits the reservation exactly when the sizes of its CIEs and FDEs do |
| EhEntries.SectionFits | src/eh_frame.c:1005-1077 | the reservation holds the section whenever at most 492 functions are of that kind |
| EhEntries.SectionOverflows | src/eh_frame.c:1005-1077 | with four personalities and functions of that kind only, exactly 493 and more do not fit |
| EhCfi.FrameMeaning | src/eh_frame.c:575-640 | running a frame's instructions gives CFA=FP+16, LR at CFA-8, FP at CFA-16 and the k-th selected register at CFA-8(3+k), and nothing else, for every encoding |
| EhCfi.FramelessMeaning | src/eh_frame.c:652-693 | running a frameless function's instructions gives CFA=SP+16n and LR at CFA-8 when n>0 |
| EhParse.CieRead | src/eh_frame.c:471-541 | a standard reader finds the factors, the return register, the personality and the pointer encodings of either CIE |
| EhParse.FdeRead | src/eh_frame.c:549-573 | a standard reader finds the CIE pointer, the range, the LSDA and the instructions |
| EhMeaning.SectionMeaning | src/eh_frame.c:1021-1077 | for every emitted function and every point in it, the section yields its range, the rules of its encoding, LR as return register and the personality it selects; its LSDA is read back exactly when there is a personality |
| EhParts.SectionOfParts | src/eh_frame.c:1021-1077 | the section of any functions, given by register bits, stack units, personality index and flags, lists exactly those that are neither described elsewhere nor continuations, in order; unwinding through each finds CFA=FP+16 with those registers in order, or CFA=SP+16n, its personality, and its LSDA if flagged |
| EhParts.EveryEncoding | src/eh_frame.c:26-47 | every 32-bit encoding has such parts |
| EhParts.CappedMeans | src/eh_frame.c:1021-1033 | keeping the first four personalities changes nothing that an encoding can say |
| EhRead.WalkSection | src/eh_frame.c:1107-1127 | the shortcut loop computes its specification |
| EhRead.FindPointerEncoding | src/eh_frame.c:224-267 | the CIE scan computes its specification on any bytes, which `EhPointers` explains |
| EhRead.ParseSection | src/eh_frame.c:270-335 | the general parser's loop computes its specification on any bytes |
| EhRead.ReadersAgree | src/eh_frame.c:186-335 | on any built section with nonzero addresses both readers list exactly the emitted functions in order, without reading outside |
| EhPointers.PointerRead | src/eh_frame.c:186-221 | a pointer of two, four or eight bytes, signed or not, absolute, relative to its place or indirect, reads as what it means |
| EhPointers.ForeignEncoding | src/eh_frame.c:224-267 | in any CIE, of either version form and with any known letters, the scan finds the format its 'R' gives, else absolute; an unknown letter ends the search |
| EhPointers.ForeignSection | src/eh_frame.c:270-335 | in any section of such records, with lengths of 32 or 64 bits, the general parser lists exactly the functions whose addresses are not 0, in order, and never reads outside |
| EhEmit.Emitter.Uleb | src/eh_frame.c:429-437 | the loop appends the number's bytes |
| EhEmit.Emitter.Sleb | src/eh_frame.c:440-452 | the loop appends the number's bytes |
| EhEmit.Emitter.Align | src/eh_frame.c:455-459 | pads with no-operations to a multiple of eight |
| EhEmit.Emitter.PatchLength | src/eh_frame.c:536-538 | overwrites exactly the placeholder |
| EhEmit.Emitter.EmitCie | src/eh_frame.c:471-541 | appends the CIE record and returns where it starts |
| EhEmit.Emitter.EmitFdeFrame | src/eh_frame.c:549-645 | appends the FDE record of a frame |
| EhEmit.Emitter.EmitFdeFrameless | src/eh_frame.c:652-698 | appends the FDE record of a frameless function |
| EhEmit.Emitter.EmitFdeMinimal | src/eh_frame.c:700-726 | appends an FDE record without instructions |
| EhBuild.BuildSection | src/eh_frame.c:1005-1077 | the buffer ends up holding exactly the specified section, for any entries, and a write past the reservation is reported exactly when it does not fit |
| EhBuild.EmitFdes | src/eh_frame.c:1035-1074 | skips and emits entries as specified, each under the CIE its personality selects; `EhParts.SectionOfParts` says what they mean |
| EhTable.SearchFinds | src/eh_frame.c:827-842 | in a sorted index the binary search finds an entry of the function whenever there is one, else 0 |
| EhTable.EntrySays | src/eh_frame.c:806-825 | an entry's index picks a common encoding, then one of the page's own, else 0; its LSDA is looked up exactly when the encoding announces one |
| EhTable.FindLsda | src/eh_frame.c:827-842 | the loop computes the search |
| EhTable.SortSorts | src/eh_frame.c:887-898 | the result is sorted and a permutation |
| EhTable.SortKeeps | src/eh_frame.c:887-898 | the sort is stable |
| EhTable.InsertionSort | src/eh_frame.c:887-898 | the in-place loop computes the specified sort |
| EhTable.Tiles | src/eh_frame.c:900-907 | the sized functions tile the code from the first offset to 256 past the last, without overlap |
| EhTable.FillPages | src/eh_frame.c:786-884 | the filling pass writes exactly as many entries as the counting pass counted, in page order |
| EhTable.Collect | src/eh_frame.c:742-911 | whatever functions the pages describe (offset, common or own encoding, LSDA) are what is collected: by offset, equal offsets in page order, none added or lost, each reaching to the next and the last over 256 bytes |
| DyldRebase.Rebaser.Run | src/resolver.c:2220-2312 | on every well-formed stream the interpreter slides exactly the flat list before the first end mark, with multiplicity |
| DyldRebase.SlideAllWords | src/resolver.c:2220-2312 | when the words do not overlap each gets the slide once and every other byte keeps its value |
| DyldRebase.Lister.Run | tools/sword3_audit.py:723-782 | the Python decoder lists the whole flat list, or fails exactly when a place does not exist |
| DyldRebase.RebasesAgree | src/resolver.c:2220-2312 | the interpreter slides a prefix of the decoder's list, all of it exactly when no operation from the first end mark on names a place |
| RebaseWires.RebaseStream | src/resolver.c:2220-2312 | on the bytes of any list of rebase operations, the interpreter slides exactly the words that single steps of touching and moving by a pointer touch before the first end mark, and the Python decoder lists the addresses of all, or fails exactly when one lies outside its segment |
| RebaseWires.WireMeans | tools/sword3_audit.py:723-782 | what an operation does is what its single steps do |
| DyldBind.Binder.Run | src/resolver.c:2314-2427 | on every well-formed stream, lazy or not, the interpreter does exactly the binds of the flat list in known segments |
| DyldBind.Auditor.Run | tools/sword3_audit.py:795-897 | the Python decoder lists the flat list, or fails exactly when a place does not exist |
| DyldBind.AgreedExactly | tools/sword3_audit.py:850-861 | the operations both readers take alike: all but special ordinals 1 to 7 and ten-byte addends that are negative or too large |
| DyldBind.BindsAgree | src/resolver.c:2314-2427 | on streams the decoder accepts, the interpreter does a prefix of the listed binds, by place, symbol and flags; all of them exactly when the stream is lazy or nothing from the first end mark on binds; with library and addend exactly when those in force at each bind are taken alike, a weak stream's start ordinal not being |
| BindWires.BindStream | src/resolver.c:2314-2427 | on the bytes of any list of bind operations, the resolver does exactly the binds of their single steps before the first end mark, or of all in the lazy stream, in segments that exist; the Python decoder lists the binds of all steps and accepts exactly when each lies in its segment |
| BindWires.BindWireMeans | tools/sword3_audit.py:795-897 | what an operation does is what its single steps do, to either reader |
| Chains.FieldsRead | src/resolver.c:293-298 | the extracted fields of a chain word are the ones that were packed |
| Chains.Walker.WalkChain | src/resolver.c:1911-1967 | the walk visits every slot once in ascending order, leaves the value of each, counts the rebases, and ends |
| Chains.ChainRoundTrip | src/resolver.c:1911-1967 | planting any chain and walking it leaves every slot right and every other byte untouched |
| Chains.Walker.ProcessFixups | src/resolver.c:1465-1511 | the loops over segments and pages walk every chain of the image once, and pass over absent segments, pages without chains and other formats; afterwards every planted slot holds its target moved by the slide (format 2) or the header (format 6) with its high byte, or what its import resolves to for its signed addend |
| Chains.AllSlotsRight | src/resolver.c:1465-1511 | afterwards every slot of every chain holds its own value and every other byte is untouched |
| Chains.SlotFixed | src/resolver.c:1915-1950 | the same, slot by slot, from the fields of the planted link alone |
| Hooks.BranchReaches | src/trampoline.c:330-339 | the encoded branch leads to its island for every distance in range |
| Hooks.ReachExact | src/trampoline.c:330-339 | the distances accepted are exactly those that some B instruction spans |
| Hooks.Patcher.WriteTrampoline | src/trampoline.c:321-348 | succeeds exactly with room and range, then three instructions from the hooked address lead to the target; on failure only the unused pool is touched |
| Hooks.Patcher.Validate | src/trampoline.c:756-813 | accepts exactly the hook lists all of whose checks hold, and saves the original words |
| Hooks.Patcher.Commit | src/trampoline.c:839-858 | writes all hooks exactly when each can be written, otherwise rolls back to the original bytes and cursor |
| Hooks.Patcher.PatchAddresses | src/trampoline.c:736-870 | fails exactly when a check of the original memory or of the range fails, and then changes nothing; otherwise exactly the planned writes are done |
| Hooks.PrecheckSuffices | src/trampoline.c:815-832 | once the range check passes no trampoline can fail |
| Hooks.Restored | src/trampoline.c:846-853 | rolling back after any number of writes restores every byte outside the unused pool |
| Hooks.Hooked | src/trampoline.c:321-348 | after success each hooked word is a branch to its own island with its own target, and nothing else changed |
| HookCpu.IslandLeads | src/trampoline.c:41-51 | a branch to the two island words and a target takes any core in three steps to the target, with only X16 changed |
| Hooks.HooksLead | src/trampoline.c:839-858 | after success, on the bytes of memory, every hooked address leads to its own hook's target with only X16 changed, and bytes outside the hooked words and the new islands are as they were |
| Hooks.FunctionEndIs | src/trampoline.c:638-683 | an address starts a function exactly when it is a listed start in an instruction section; the function ends at the next start if that lies in the section, else with the section |
| Patches.HitsExact | src/patcher.c:338-363 | the scan's hits are exactly the matching places in the range |
| Patches.FindUnique | src/patcher.c:338-363 | the loop answers the only hit, and nothing when there are none or several |
| Patches.FoundOnly | src/patcher.c:399-424 | a resolved find site is the only match in its range |
| Patches.LastLet | src/patcher.c:551-567 | a label ends up where its last let said, under the labels known there |
| Patches.PlanMeaning | src/patcher.c:569-607 | every line of an applied file writes at its resolved address its word or a branch to its resolved target, and its expectation held beforehand |
| Patches.Patcher.Apply | src/patcher.c:538-626 | either an error and untouched memory, or all writes in file order |
| PatchMeaning.PlanExactly | src/patcher.c:538-608 | the writes of a file are exactly what its lines say, and there are none exactly when the lines say nothing consistent: an unknown label, symbol or site, an ambiguous pattern, a branch too far, an expectation not met |
| PatchMeaning.ResolveNamed | src/patcher.c:365-426 | a location is what it names: an address plus the slide, a symbol or label plus its offset, or the only place whose hexadecimal digits show the patterns |
| PatchMeaning.LetsMean | src/patcher.c:538-567 | a label is what the last let of its name before the line says |
| SgrCipher.CryptTwice | tools/sgr_repack.c:57-67 | enciphering twice with one generator state is the identity |
| SgrCipher.SealOpens | tools/sgr_extract.c:64-80 | data with its masked trailer deciphers to itself for every seed |
| SgrWords.StateIs | tools/sgr_repack.c:22-41 | the generator's state is five consecutive words of one recurrence, given in arithmetic modulo 2^32 |
| SgrWords.SealedBytes | tools/sgr_repack.c:57-67 | each sealed byte: every other one xor-ed with the low byte of one output each, after the skipped calls, the rest as they were, then the masked seed |
| SgrWords.Worked | tools/sgr_repack.c:22-67 | five bytes sealed under one seed, worked out |
| SgrCipher.Sugar.EncodeBuffer | tools/sgr_repack.c:57-67 | the in-place loop enciphers every other byte |
| SgrCipher.Sugar.DecodeBuffer | tools/sgr_extract.c:64-80 | the in-place loop opens what was sealed |
| SgrArchive.ArchiveRoundTrip | tools/sgr_extract.c:227-301 | in either format parsing a built archive gives back the header and every entry in order, an entry's data exactly when it is not empty |
| SgrWords.EntryPlaces | tools/sgr_repack.c:272-281 | the places of an entry's length, name, kind, size and data |
| SgrWords.HeaderPlaces | tools/sgr_repack.c:217-222 | title, developer and root, in this order, each after its length |
| SgrWords.NameEndsList | tools/sgr_extract.c:265-268 | an empty name, or one of more than 2000 bytes, ends the list of entries |
| SgrWords.LongString | tools/sgr_extract.c:230-245 | a header string of more than 255 bytes is cut but skipped as a whole |
| SgrArchive.Repack | tools/sgr_repack.c:217-286 | the repacker's loop builds the specified archive |
| SgrArchive.Extract | tools/sgr_extract.c:265-301 | the extractor's loop reads the specified entries |
| SgrArchive.Unpack | tools/sgr_extract.c:227-301 | header and entries together are what the format specifies, or nothing without a header |
| SgrArchive.Buf.Append | tools/sgr_repack.c:77-97 | appending to the doubling buffer |

## Left out

- RmwIsland.RmwAtomic: assumes the base register is not SP and the source fits, which `IslandExact` shows to be exact, and that the operand lies outside the 64 bytes below SP; alignment faults and memory ordering weaker than one shared memory are not modelled.
- CasIsland.CasAtomic: the same, with the compare register fitting a byte or halfword access; the decoder sets acquire for every CAS, which only strengthens it.
- ProgramSim.ProgramSimulates: programs that read the dead bytes below their stack pointer, enter the pool on their own, run a moved word outside its exact conditions, or use stack that other cores write.
- PatchedImage.MovedLseAtomic: words that look like SWP without being one are moved but no instruction is given to them.
- IsaEmul.PickScratch: the exclusion mask is a set of register numbers.
- EhBuild.BuildSection: where bytes past the reservation land; here they go on in a longer buffer.
- EhRead.ParseSection: a 64-bit record length is not wrapped, and reading outside the section is an outcome of its own.
- Leb128.ReadUleb: numbers of more than ten bytes, where the C shift is undefined; here what is shifted out is lost.
- Leb128.ReadSleb: the same; nothing is promised past ten bytes.
- DyldRebase.Rebaser.Run: malformed streams, for which only termination and memory safety of the model follow.
- DyldBind.Binder.Run: looking symbols up and writing the slots; each bind is recorded as it is passed on.
- Tracer.Tracer.OnMmap: what a write past the tag table does; the list here grows, and the result tells.
- Hooks.Patcher.PatchAddresses: library loading is a given result per hook, page protection a given answer.
- Patches.Patcher.Apply: page protection changes are assumed to succeed, and patch text arrives parsed.
- Address arithmetic in the tracer does not wrap around.
- The tracer's text formatting, the resident-size samples, symbol lookup and stack capture: records are abstract, names arrive as hints.
- Threads in the tracer: its lock makes each hook one step.
- The unwind header table built from the two lists: a library sort and a copy.
- Section and page headers of the unwind information are taken as already located.
- Mapping, protection, cache flushing, file reading, dlopen and dlsym: parameters or assumptions.
- zlib: the archives are modelled uncompressed.
- File names on disk in the SGR tools: both tools apply one and the same encoding.
- Configuration parsing, flag translation tables, the memory pool, UI, graphics and audio glue: small or invisible from here.
