# psxrecomp, verified

A Dafny model of the parts of psxrecomp, the static recompiler for PlayStation programs, on which
the meaning or the coverage of the recompiled code depends, and proofs that they keep it -- or,
where they do not, of exactly when they do.  Three external documents are relied on: the CRC of
section 8 of RFC 1952, the JSON grammar of sections 2 to 7 of RFC 8259, and the R3000A user's
instruction set.

**Code discovery.**  `FlowGraph` explores a control-flow graph the way the repository's walkers do:
a delay slot is marked with its owner and not expanded.  `OverlayImage`, `JumpTable` and
`OverlayWalk` are the queue-order walker of captured overlays, `StackWalk` the stack-order walkers of
the BIOS tools, `Classifier` the fixpoint that turns captured addresses into walk roots.
`JumpIdiom` runs the compiler's jump-table idiom on registers modulo 2^32 and compares what it jumps
to with what the backward scan recovers.  Three small modules hold counterexamples:
`SwallowedTarget` (a walk whose result depends on its order), `OpenCapture` (a capture whose roots are
not closed under calls) and `StrayAddiu` (an idiom whose table is misplaced and whose targets are missed).

**Translation.**  `R3000` is a reference semantics of the integer core and COP0 with the branch delay
slot, on 32-bit vectors and byte-addressed memory.  `StrictTranslator` is the translator's switch
with a semantics of the C it emits, `TranslationProof` and `ByteLanes` compare the two instruction by
instruction, `SliceWalker` is the bounded walk of a BIOS slice, `DelaySlot` the theorem that a walked
slice runs like the machine, `LinkOrder` the exact story for JAL (`RegisterUse` says which registers
an instruction reads and writes), `HazardScan` the scanner for branches whose delay slot writes their
operands.  For loads, stores, multiplications, moves from HI, LO and COP0 and the geometry engine the
semantics of the emitted C uses the reference's own functions (`LoadValue`, `StoreMem`, `Effective`,
the parameter `gte`), so there the comparison shows that operands and cases are routed alike and no
more; division, SUB, RFE and the unaligned words are compared between independent definitions.

**Basic blocks.**  `MipsDecoder`, `BasicBlocks` (the analyzer class), `BlockGraph` (what its blocks
and edges promise) and `BlockRuns` (a running program moves along the edges).

**The content-validated cache.**  `CacheProtocol` is the parallel build driver as interleaved steps of
workers under two kinds of locks.  `Crc32` (with `Polynomials`) is the content hash, `PythonText` and
`Manifest` the manifest files, `CodeRanges` the recompiler's listing of code ranges, `FunctionIds` the
identity of a compiled function, `StaticVariants` and `StaticDispatch` the dispatcher of a static
build with its run-time check and validation cache.

**Framing.**  `JsonFraming` is the fast-skipping scanner of the debug client.

## Findings

Where a property is false of the code, the code is kept as it is and the exact condition is proved.

- The translator emits SWL and SWR with masks that keep the wrong bytes unless the whole word is
  stored (`SwlMatchesIff`, `SwrMatchesIff`); the repository's interpreter
  (psxrecomp/runtime/src/psx_interpreter.c:462-492) has the right ones.
- SUB is translated as SUBU and never traps (`SubMatchesIff`); the interpreter traps (255-259).
- JAL writes $ra after its delay slot; the machine, and the interpreter (295-301), before it
  (`JalSliceRuns`, `JalSlotDecided`, `StoredLinkDiffers`).  A slot that uses $ra in no way and cannot
  trap hides the difference (`NeutralSlotRuns`).
- RFE clears bits 4 and 5 of the status register, and returns without setting the program counter
  (`RfeMatchesIff`); psxrecomp/runtime/src/dirty_ram_interp.c:1595-1598 keeps the bits.
- The contract in strict_translator.h:36-43 says that only conditional branches have snapshot code;
  JR and JALR have it too, which is why the slice theorem covers them.
- A comment in the slice walker (psxrecomp/recompiler/src/bios_slice_walker.cpp:182) says that nothing
  is emitted only if every word failed; a walk of no bytes, or one whose end wraps past the top of the
  address space, emits nothing and is reported ok, and no other walk does both (`EmptyWalkIsOk`).
- The jump-table scan reads on over `addiu` words in front of the bounds check and can take one for
  the low half of the table address (`TableFoundIff`, `TableIsMisplaced`); then an address the program
  jumps to can be missing (`TargetIsMissed`, with a run that goes there in `ExampleRuns`).
- A jump table of 512 entries or more is lost whole (`LargeTablesAreLost`), and so is an entry whose
  address wraps around; `JumpIsRecovered` has the exact condition.
- A walk marks delay slots without expanding them.  Where a slot is also a branch target the result
  depends on the order (`OrderMatters`), and the roots of a capture need not be closed under calls: the
  final walk of a root can meet a call that its first walk, with a higher cap, had swallowed
  (`RootsCanBeOpen`).  On clean slots neither happens (`WalkOrderIrrelevant`, `FinalWalksAreClosed`).
- A branch or JAL that ends the image without its delay slot gets the successor 4 if it is alone in
  its block (`StraySuccessorIff`), and no successor otherwise.  A block that ends in JALR lists no
  successor although a block starts where the call comes back (`ReturnIsBlock`).
- basic_block.h:45-47 asks callers to build predecessors after `analyze`, which has already done so;
  a second call lists every predecessor twice (`SecondCallDoubles`).
- The content check of static code caches its verdict under a sum of page generations, which grow
  only for watched pages, and the static path watches none: a store over unwatched code goes
  unnoticed (`StoreIsNoticedIff`).  Had it watched its code before the first check (`WatchAll`), the
  dispatcher would be right on every run of stores and calls (`RunWatched`).
- A comment in the classifier (compile_overlays.py:585-587) exempts all call-edge-proven reasons from
  the jump-table rejection; the code exempts declared entries only.  For direct calls the rejection
  cannot fire, because their targets are callable (`CallPassesGate`).

## Model

| member | source | states |
|---|---|---|
| FlowGraph.WalkIsSound | psxrecomp/tools/compile_overlays.py:435-491 | In any graph, whatever the order of the worklist: only reachable instructions and their delay slots are ever visited, and only facts of reachable instructions are recorded. |
| FlowGraph.WalkIsExact | psxrecomp/tools/compile_overlays.py:435-491 | Under the clean-slot condition the visited set is exactly the reachable instructions and their slots, and the recorded facts exactly theirs, although slots are never expanded. |
| FlowGraph.WalkOrderIrrelevant | psxrecomp/tools/build_instruction_inventory.py:315-396 | Any two finished walks of one clean graph, in any orders, compute the same sets. |
| FlowGraph.RecordsAreMonotone | psxrecomp/tools/compile_overlays.py:435-491 | Whatever any walk of a restricted graph visits and records, every walk of the larger clean graph has. |
| OverlayWalk.WalkOverlayFunction | psxrecomp/tools/compile_overlays.py:421-498 | The loop ends on every image and is an exploration of the overlay's flow graph; its branch and table targets are exactly those of the expanded instructions; without jumps through registers its marks and calls are those of the queue order. |
| OverlayWalk.QueueWalkIsWalk | psxrecomp/tools/compile_overlays.py:435-491 | Without jumps through registers the queue order, as a function of image, entry and cap, is one of the explorations the other results speak of. |
| OverlayWalk.OverlayWalkSound | psxrecomp/tools/compile_overlays.py:421-498 | Unconditionally: visited words are reachable or delay slots of reachable words, and every direct call target is an aligned callable word of the region. |
| OverlayWalk.OverlayWalkExact | psxrecomp/tools/compile_overlays.py:421-498 | With clean slots the walk visits exactly the covered words and records exactly the callable direct call targets. |
| OverlayWalk.LowerCapRestricts | psxrecomp/tools/compile_overlays.py:426-427 | Lowering the cap restricts the flow graph to the words below it, jump tables included. |
| OverlayWalk.CallsShrinkWithCap | psxrecomp/tools/compile_overlays.py:421-498 | A walk with a lower cap visits and records nothing that a walk of the same root with a higher cap missed. |
| SwallowedTarget.OrderMatters | psxrecomp/tools/compile_overlays.py:435-463 | A concrete image on which two orders visit different sets: the walker's own queue order swallows a branch target that is the delay slot of a jump, and misses a reachable instruction behind it. |
| OpenCapture.RootsCanBeOpen | psxrecomp/tools/compile_overlays.py:621-683 | A concrete capture whose classification, with every walk in queue order, leaves a callable call target of a root's final walk outside the roots. |
| StackWalk.WalkFunction | psxrecomp/tools/build_instruction_inventory.py:315-396 | The stack-order walk ends and explores the BIOS flow graph, mapping every visited address to its word. |
| StackWalk.ClassifiersAgree | psxrecomp/tools/build_instruction_inventory.py:271-312 | The BIOS tools and the overlay walker route a word alike if and only if it is neither a likely branch nor a coprocessor branch. |
| StackWalk.WalkersAgree | psxrecomp/tools/build_instruction_inventory.py:315-396 | On clean slots, undisputed words and no jump tables, the stack-order and the queue-order walker visit the same set. |
| JumpTable.FindJumpTableTargets | psxrecomp/tools/compile_overlays.py:327-399 | The recogniser with its early exits computes the scan specification, on every image. |
| JumpTable.TargetsFollowCap | psxrecomp/tools/compile_overlays.py:392-399 | A target is recovered under a lower cap if and only if it is recovered under the higher one and lies below the lower. |
| JumpIdiom.JumpsToTableWord | psxrecomp/tools/compile_overlays.py:330-330 | For every placement of the idiom's words, with any undisturbing words between them, and every index, the program jumps to the table word of its index, addresses taken modulo 2^32. |
| JumpIdiom.TableFoundIff | psxrecomp/tools/compile_overlays.py:339-389 | The scan finds the table the program reads if and only if the idiom has a low half or no stray addiu onto the first addend stands where the scan still reads. |
| JumpIdiom.JumpIsRecovered | psxrecomp/tools/compile_overlays.py:327-399 | Under that condition, for every index below the bound: the address jumped to is recovered if and only if the bound is below 512, the address is an aligned one of the function below the cap, and a captured table entry holds it at an address that does not wrap. |
| JumpIdiom.LargeTablesAreLost | psxrecomp/tools/compile_overlays.py:386-387 | Of an idiom whose bound is 512 or more nothing is recovered, wherever its words stand. |
| StrayAddiu.TableIsMisplaced | psxrecomp/tools/compile_overlays.py:362-371 | A concrete idiom instance, index rebased in place, whose table address the scan gets wrong. |
| StrayAddiu.TargetIsMissed | psxrecomp/tools/compile_overlays.py:362-399 | In that image every run into the jump goes to an aligned address of the function, and the scan recovers no target at all. |
| Classifier.Include | psxrecomp/tools/compile_overlays.py:573-604 | The gate's verdict, reason by reason, and which earlier reasons it overwrites; offered with its evidence, an address leaves every inclusion justified. |
| Classifier.CallPassesGate | psxrecomp/tools/compile_overlays.py:470-472 | A callable direct call target passes the gate with its own reason: the jump-table rejection cannot fire for it. |
| Classifier.WalkPending | psxrecomp/tools/compile_overlays.py:630-646 | The pending queue empties, and afterwards the calls found when each root was walked, under its cap of that time, are roots. |
| Classifier.PromotionShrinks | psxrecomp/tools/compile_overlays.py:661-673 | Promoting an orphan leaves strictly fewer unrooted words of the region: the measure of the outer loop. |
| Classifier.GrowRoots | psxrecomp/tools/compile_overlays.py:621-673 | The classification loop ends on every capture; roots are exactly the included non-interiors, and in a kernel window every remaining interior is in the walk of exactly one root. |
| Classifier.ClassifySeeds | psxrecomp/tools/compile_overlays.py:523-701 | The whole classification, evidence to exclusion reasons, ends in a classified state; declared entries of the region and all evidence that passes the gate are included. |
| Classifier.InclusionsAreSound | psxrecomp/tools/compile_overlays.py:573-604 | Every included address is an aligned word of the region with no fatal reason, a root exactly when it is not an interior, and promoted only in a kernel window. |
| Classifier.FinalWalksAreClosed | psxrecomp/tools/compile_overlays.py:630-646 | Although each root was walked once with an older, larger cap, every callable direct call of its walk up to the final cap is a root. |
| Classifier.RootsAreClosedUnderCalls | psxrecomp/tools/compile_overlays.py:675-683 | The same without walks: a callable direct call target reachable from a root below its final cap is an included root. |
| Classifier.RootWalksAreDisjoint | psxrecomp/tools/compile_overlays.py:655-660 | The final walks of two roots share no address. |
| Classifier.KernelInteriorsHaveOneHost | psxrecomp/tools/compile_overlays.py:651-673 | In a kernel window each remaining interior is covered from exactly one root up to the next. |
| CacheProtocol.StepKeepsInvariant | psxrecomp/tools/compile_overlays.py:2232-2290 | Every step of every worker, the unlocked check-build-update window and half-written manifests included, keeps the protocol invariant. |
| CacheProtocol.WarmSetsAreOnDisk | psxrecomp/tools/compile_overlays.py:2244-2250 | In every interleaving, at every moment, the warm set of a region lists only identities that are on disk. |
| CacheProtocol.SkipLosesNothing | psxrecomp/tools/compile_overlays.py:2249-2255 | Once a capture is skipped as covered, or built, its identities are on disk in every later state of the run. |
| CacheProtocol.ScheduleIrrelevant | psxrecomp/tools/compile_overlays.py:2338-2390 | With one capture per region and image hash, every complete schedule ends with the same identities on disk. |
| CacheProtocol.SomeoneCanStep | psxrecomp/tools/compile_overlays.py:2361-2375 | No deadlock: in every reachable state with an unfinished worker some worker can move. |
| CacheProtocol.RunsAreFinite | psxrecomp/tools/compile_overlays.py:2361-2375 | Every run is bounded: steps taken plus steps left never exceed the initial count. |
| CacheProtocol.DoCapture | psxrecomp/tools/compile_overlays.py:2092-2291 | One capture, built or skipped, adds exactly its own due identities to every region's disk listing and keeps warm sets on disk. |
| CacheProtocol.SequentialDriver | psxrecomp/tools/compile_overlays.py:2352-2354 | The sequential loop leaves on disk what every complete parallel schedule leaves there. |
| Crc32.Tables.Update | psxrecomp/runtime/src/crc32.c:11-31 | The table-driven update, table built or not, equals the bitwise definition. |
| Crc32.TableIsBitwise | psxrecomp/runtime/src/crc32.c:28-29 | For every register and byte one table lookup equals eight shift steps. |
| Crc32.HashesAgree | psxrecomp/tools/compile_overlays.py:1442-1449 | For any number and size of ranges the chained offline hash, the folded run-time hash and the one-shot hash of the concatenation are equal. |
| Crc32.BurstIsDetected | psxrecomp/tools/compile_overlays.py:1399-1405 | Two byte strings that differ only within four consecutive bytes have different hashes. |
| Manifest.WriteOverlayRangesFrom | psxrecomp/tools/compile_overlays.py:1457-1471 | The two loops produce the manifest text of the identity list and its count. |
| Manifest.LoadRegionCoverage | psxrecomp/tools/compile_overlays.py:1482-1509 | The identities found are exactly those some manifest of the region lists. |
| Manifest.LoadRegionEntrySet | psxrecomp/tools/compile_overlays.py:1523-1552 | The entries found are exactly those some manifest of the region lists. |
| Manifest.IdentitiesRoundTrip | psxrecomp/tools/compile_overlays.py:1457-1509 | Reading a written manifest gives exactly the pairs it was written from, down to padding, spaces and newlines; header and range lines add nothing. |
| Manifest.EntriesRoundTrip | psxrecomp/tools/compile_overlays.py:1457-1552 | The entry reader gives exactly the physical addresses of the written entries. |
| FunctionIds.ParseOverlayFuncIds | psxrecomp/tools/compile_overlays.py:1391-1454 | Listing lines become functions with their ranges, and those whose ranges were captured get an identity. |
| FunctionIds.IdentitiesAreHashes | psxrecomp/tools/compile_overlays.py:1438-1454 | An identity exists if and only if it is the content hash of a listed function with ranges, all inside the captured bytes. |
| FunctionIds.PatchChangesHash | psxrecomp/tools/compile_overlays.py:1438-1454 | Captures that differ in one stretch of at most four bytes inside a code range never give the function the same hash. |
| CodeRanges.Coalesce | psxrecomp/recompiler/src/code_generator.cpp:2967-2988 | Sorting and merging block intervals covers exactly the same addresses, each in exactly one interval, with a gap between any two. |
| CodeRanges.ListingRoundTrip | psxrecomp/recompiler/src/code_generator.cpp:2953-2995 | The offline tool reads back from the recompiler's listing exactly the functions of the overlay, with their ranges, in order; comments and other functions' range lines add nothing. |
| CodeRanges.PatchTouchesOneRange | psxrecomp/recompiler/src/code_generator.cpp:2978-2988 | Coalesced ranges are disjoint in physical memory, so a patch inside one touches no other. |
| StaticVariants.FunctionVariants | psxrecomp/tools/compile_overlays.py:2194-2202 | Every dispatchable function is offered under every one of its identities, and nothing else is. |
| StaticVariants.SynthesizeResumeWrappers | psxrecomp/tools/compile_overlays.py:2404-2433 | Every resumable block leader gets a wrapper per identity of its host; wrappers carry the ranges and hash of the host whose body they run. |
| StaticVariants.Deduplicate | psxrecomp/tools/compile_overlays.py:1306-1317 | One variant per address, hash and physical ranges remains, each from the input, and every input key is represented. |
| StaticDispatch.DuplicatesAddNothing | psxrecomp/tools/compile_overlays.py:1304-1384 | After deduplication a variant is entered at an address exactly when some original variant for it matches live memory. |
| StaticDispatch.EnteredCodeIsCurrent | psxrecomp/tools/compile_overlays.py:1356-1374 | Whatever is entered, live bytes over the ranges of the compiled function whose body runs hash to what it was compiled from, resume wrappers included. |
| StaticDispatch.MirrorsAgree | psxrecomp/tools/compile_overlays.py:1357-1357 | Physical, cached and uncached addresses of a word select the same case. |
| StaticDispatch.Dispatcher.CodeMatches | psxrecomp/runtime/src/overlay_loader.c:426-489 | The answer is the cached verdict while its generation sum stands and a fresh hash otherwise; on watched code, as WatchAll leaves it, it is always the truth about live memory. |
| StaticDispatch.Dispatcher.WatchAll | psxrecomp/runtime/src/memory.c:559-567 | Watches the pages of all code of the table and no others; done before the first check, it makes every later verdict right. |
| StaticDispatch.CachedVerdictIsRight | psxrecomp/runtime/src/memory.c:552-591 | Generations only grow, so an unchanged sum over watched pages means unchanged code, and the cached verdict is right. |
| StaticDispatch.StoreIsNoticedIff | psxrecomp/runtime/src/memory.c:593-604 | A store over cached matching code is noticed if and only if its page is watched. |
| StaticDispatch.Dispatcher.Store | psxrecomp/runtime/src/memory.c:593-604 | A store changes its bytes and the generation of its watched page, and keeps every cached verdict accounted for. |
| StaticDispatch.Dispatcher.Dispatch | psxrecomp/tools/compile_overlays.py:1356-1381 | Checks equal hits plus misses over every call sequence; the first variant of the address answered yes is entered; on watched code that is the first one that really matches, and none only if none does. |
| StaticDispatch.RunWatched | psxrecomp/tools/compile_overlays.py:1304-1384 | From a new dispatcher that watches its code: in any sequence of stores and calls, each call enters the first variant of its address that matches the memory of that moment, and the counters add up. |
| TranslationProof.DivisionIsExact | psxrecomp/recompiler/src/strict_translator.cpp:290-360 | C's quotient and the remainder by multiplication are the R3000A's, and no intermediate 32-bit result overflows. |
| TranslationProof.SubMatchesIff | psxrecomp/recompiler/src/strict_translator.cpp:399-407 | The emitted SUB does what the R3000A does if and only if the difference fits in 32 bits. |
| TranslationProof.RfeMatchesIff | psxrecomp/recompiler/src/strict_translator.cpp:1211-1226 | The emitted RFE leaves the right status register if and only if its bits 4 and 5 are zero, and it leaves the program counter alone. |
| TranslationProof.PlainRefines | psxrecomp/recompiler/src/strict_translator.cpp:64-1409 | Every word translated to straight-line code gets code with the R3000A's effect in every state, traps included, wherever the two agree on the instruction; memory accesses and COP2 words share their functions with the reference. |
| ByteLanes.LwlMatches | psxrecomp/recompiler/src/strict_translator.cpp:912-935 | The LWL mask formula merges the bytes the architecture merges, at every address. |
| ByteLanes.LwrMatches | psxrecomp/recompiler/src/strict_translator.cpp:938-961 | The same for LWR. |
| ByteLanes.SwlMatchesIff | psxrecomp/recompiler/src/strict_translator.cpp:1105-1145 | The emitted SWL is right for all memories and registers if and only if the address is the last byte of a word. |
| ByteLanes.SwrMatchesIff | psxrecomp/recompiler/src/strict_translator.cpp:1164-1198 | The emitted SWR is right for all memories and registers if and only if the address is the first byte of a word. |
| SliceWalker.Walk | psxrecomp/recompiler/src/bios_slice_walker.cpp:55-191 | Throws exactly when the start is outside the ROM or the walk runs off its end. Otherwise every walked word is emitted, recorded as a failure, or a terminator whose slot was; ok means no failures; failures are real, in walking order and inside the walked range; a slice ends in snapshot, slot, transfer. |
| SliceWalker.EmptyWalkIsOk | psxrecomp/recompiler/src/bios_slice_walker.cpp:180-191 | A walk emits nothing and is ok if and only if its size is zero or its end wraps past the top of the address space. |
| SliceWalker.EmittedOnce | psxrecomp/recompiler/src/bios_slice_walker.cpp:95-178 | No address is emitted twice but a snapshotted terminator, once as snapshot and once as transfer around its slot. |
| DelaySlot.TerminatorTransfers | psxrecomp/recompiler/src/strict_translator.cpp:537-682 | Snapshot code and transfer code together go where the machine decided before the slot, whatever the slot does to the registers. |
| DelaySlot.SliceRunsLikeMachine | psxrecomp/recompiler/src/bios_slice_walker.cpp:95-178 | For every ROM, state and slice ending in a conditional branch, J, JR or JALR: running the emitted entries gives the registers, memory, program counter or trap of the R3000A with its delay slot. |
| DelaySlot.CutOffSliceRuns | psxrecomp/recompiler/src/bios_slice_walker.cpp:180-191 | A slice cut off by the size limit stays in step with the machine up to its end. |
| DelaySlot.HarmlessWordsAgree | psxrecomp/recompiler/src/strict_translator.cpp:64-1409 | A stretch without SUB, SWL and SWR meets the agreement condition of the slice theorem from every state. |
| LinkOrder.JalSliceRuns | psxrecomp/recompiler/src/strict_translator.cpp:684-697 | A slice ending in JAL runs like the machine if and only if the order of link and slot is hidden: for slots that do not read $ra, and for all slots when $ra already holds the return address. |
| LinkOrder.JalSlotDecided | psxrecomp/recompiler/src/strict_translator.cpp:684-697 | Also for slots that read $ra: every computation, trapping ones included, every load, every move of $ra to HI, LO or COP0 and every store of $ra is right if and only if its result is the same from the old and the new return address. |
| LinkOrder.NeutralSlotRuns | psxrecomp/recompiler/src/strict_translator.cpp:684-697 | If the slot neither reads nor writes $ra and cannot trap, which its word alone shows, the slice runs like the machine from every state. |
| LinkOrder.StoredLinkDiffers | psxrecomp/recompiler/src/strict_translator.cpp:684-697 | With an aligned store of $ra in the slot, of a word, half or byte, the emitted code is right if and only if the stored part of $ra already was that of the return address. |
| HazardScan.WriteSetIsExact | psxrecomp/tools/scan_branch_delay_hazards.py:104-208 | For every CPU and COP0 word the reported registers are, $zero aside, exactly its architectural destinations, links included. |
| HazardScan.WriteSetIsSound | psxrecomp/tools/scan_branch_delay_hazards.py:104-208 | No register outside the reported ones changes, in any state. |
| HazardScan.UnflaggedBranchUnaffected | psxrecomp/tools/scan_branch_delay_hazards.py:386-410 | A branch the scan does not flag goes the same way whether its condition is read before or after its slot, in every state. |
| HazardScan.FlaggedBranchCanTurn | psxrecomp/tools/scan_branch_delay_hazards.py:386-395 | Over a slot that moves from HI, LO or COP0, every flagged branch goes another way from some state if read after the slot, if and only if it does not compare a register with itself. |
| HazardScan.ScanBranches | psxrecomp/tools/scan_branch_delay_hazards.py:365-410 | One entry per hazardous branch in address order; branches are hazards plus safe plus slotless; an unknown slot stops the scan at the first branch that has one. |
| HazardScan.CollectWords | psxrecomp/tools/scan_branch_delay_hazards.py:347-363 | The collected words contain a finished walk from every seed up to its cap. |
| HazardScan.ListedOrUnaffected | psxrecomp/tools/scan_branch_delay_hazards.py:303-413 | Every conditional branch reachable from a seed on clean slots is listed as a hazard or decides alike before and after its slot. |
| MipsDecoder.DecodeExecutable | psxrecomp/recompiler/src/mips_decoder.cpp:319-333 | The loop decodes exactly the whole words of the image. |
| MipsDecoder.DecoderAgrees | psxrecomp/recompiler/src/mips_decoder.cpp:133-229 | The branch, jump, return and delay-slot flags hold exactly for the control transfers of the R3000A. |
| MipsDecoder.DecoderTargets | psxrecomp/recompiler/src/mips_decoder.cpp:294-303 | Decoded branch and jump targets are the architectural ones. |
| BasicBlocks.BasicBlockAnalyzer.FindLeaders | psxrecomp/recompiler/src/basic_block.cpp:14-49 | The sorted list holds exactly the entry, the addresses behind delay slots, and the targets inside the image. |
| BasicBlocks.BasicBlockAnalyzer.ScanBlock | psxrecomp/recompiler/src/basic_block.cpp:188-232 | The flag-driven scan ends a block at a transfer and its slot, at the end of the image, or before the next leader. |
| BasicBlocks.BasicBlockAnalyzer.FindSuccessors | psxrecomp/recompiler/src/basic_block.cpp:234-294 | Successors are the sorted exits of the block, those of truncated blocks included. |
| BasicBlocks.BasicBlockAnalyzer.BuildPredecessors | psxrecomp/recompiler/src/basic_block.cpp:310-326 | Each block's predecessor list is extended, in order, by every block once per successor entry naming it. |
| BasicBlocks.BasicBlockAnalyzer.Analyze | psxrecomp/recompiler/src/basic_block.cpp:159-305 | One block per leader that starts a word, in address order, with edges both ways. |
| BasicBlocks.BasicBlockAnalyzer.FindBlock | psxrecomp/recompiler/src/basic_block.cpp:331-345 | Finds a containing block if and only if there is one, and the one starting at the address if there is one. |
| BlockGraph.WordsAreCovered | psxrecomp/recompiler/src/basic_block.cpp:172-232 | On a word-aligned image every word from the first block on is in a block. |
| BlockGraph.OverlapIsSlot | psxrecomp/recompiler/src/basic_block.cpp:199-221 | Two blocks share a word only if it is the delay slot that ends one and the leader that starts the next. |
| BlockGraph.OneTransfer | psxrecomp/recompiler/src/basic_block.cpp:199-221 | A block holds one transfer, followed by its slot, unless the slot is itself one. |
| BlockGraph.SuccessorsAreExits | psxrecomp/recompiler/src/basic_block.cpp:253-288 | A block with its slot inside the image lists exactly the architectural exits inside the image. |
| BlockGraph.SuccessorsAreBlocks | psxrecomp/recompiler/src/basic_block.cpp:253-299 | Every listed successor is the start of a built block. |
| BlockGraph.StraySuccessorIff | psxrecomp/recompiler/src/basic_block.cpp:243-272 | A block has a successor outside the image if and only if it is a lone branch or JAL at the end of the image. |
| BlockGraph.PredecessorsAreInverse | psxrecomp/recompiler/src/basic_block.cpp:310-326 | Predecessor lists are the exact inverse of successor lists, ascending and without repetition. |
| BlockGraph.SecondCallDoubles | psxrecomp/recompiler/include/basic_block.h:45-47 | Building predecessors again after the analysis lists each one exactly twice; only blocks without predecessors keep a proper list. |
| BlockRuns.BlockExitsTaken | psxrecomp/recompiler/src/basic_block.cpp:234-288 | Run from its start in any state, a block goes to one of its exits or its callee, unless it traps, jumps through a register or has a transfer in its slot. |
| BlockRuns.ReturnIsBlock | psxrecomp/recompiler/src/basic_block.cpp:23-29 | Where a call comes back, inside the image, a block starts; the calling block lists it if and only if it does not call through a register. |
| BlockRuns.LinkIsReturn | psxrecomp/recompiler/src/basic_block.cpp:23-29 | That address is the one the machine leaves in the link register of the call, unless that is $zero. |
| BlockRuns.RunsFollowEdges | psxrecomp/recompiler/src/basic_block.cpp:159-305 | Every run, of any length, goes from block start to block start: along the edges, into callees, back behind every call made before, and through registers to any other leader. It ends only where it traps, leaves the image, jumps through a register to no leader, or reaches a block that is cut off from its slot or has a transfer there. |
| JsonFraming.SendCmd | psxrecomp/tools/debug_client.py:90-141 | For every split into chunks the fast-skipping scanner stops where the per-byte automaton first closes an object, or returns everything received. |
| JsonFraming.ReplyIsUnique | psxrecomp/tools/debug_client.py:98-141 | The reply depends on the received bytes alone, not on how they were cut. |
| JsonFraming.ObjectIsFramed | psxrecomp/tools/debug_client.py:98-141 | Any JSON object, after white space and before arbitrary bytes, is returned exactly, nested values, strings and escapes included. |

## Left out

- PlainRefines: on SUB, SWL and SWR the emitted code and the R3000A differ; the lemma assumes agreement there and the exact conditions are separate lemmas.
- SliceRunsLikeMachine: slices that end in RFE are left out, because the emitted RFE returns without a program counter; JAL is the subject of JalSliceRuns.
- JalSlotDecided: of the slots that read $ra, multiplications and divisions of $ra, stores to addresses based on $ra, unaligned stores and COP2 words are decided only when $ra already holds the return address (JalSliceRuns).
- WriteSetIsExact: coprocessor 1 and 2 words are left out; the scanner reports no register for them, although moves from the geometry engine write one.
- JumpsToTableWord: registers are integers modulo 2^32 instead of bit vectors, and the guard of the bound is taken to fall through.
- FinalWalksAreClosed: needs the clean-slot condition; RootsCanBeOpen shows what happens without it.
- QueueWalkIsWalk: jump-table targets are queued in no fixed order, so the order is a function only where there are no jumps through registers; the other results about walks hold for every order.
- FlaggedBranchCanTurn: loads and computations in the slot are not decided; whether they can turn the branch depends on their operands.
- RunWatched: watched pages stay watched; the call that clears a range belongs to the dynamic loader.
- BlockExitsTaken: a delay slot that is itself a transfer is not followed.
- Identifiers such as `Gte` stand for what COP2 words do: the geometry engine is a parameter, and COP1 is not part of this model.
- Load delay slots, cycle timing, interrupts, cache isolation and memory-mapped devices: memory is plain bytes, and reads have no effect.
- System calls, breakpoints and overflows are modelled as traps that stop the program; the exception handler is not.
- C's signed overflow in address and sum computations of the emitted code is read as wrap-around.
- Interior fragments, `--force` builds, MIPS-side function pointer heuristics, Ghidra seeds and TOML parsing.
- Torn lines of a manifest being written: readers see a prefix of the identities, never half a line.
- File-system failures, crashes of the tools, the size of the thread pool and its output ordering.
- Numbers with a sign, an underscore or a `0x` prefix, which Python's `int(s, 16)` also accepts and the tools never write.
- The regex patching of generated C: functions and wrappers are symbols, and whether a host accepts an extra entry is a parameter.
- The order in which variants of one address are tried: the dispatcher is proved for every order of its table.
- Wrap-around of the 32-bit page generations and their sum, and the hash-table layout of the validation cache; its capacity is kept.
- Parsing the framed JSON bytes; the simpler scanner of psxrecomp/tools/check_sector_state.py.
