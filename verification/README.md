# XenonRecomp, verified

XenonRecomp translates Xbox 360 executables into C++. It finds where functions begin and end, recovers
jump tables, and emits for each PowerPC instruction host code that must do what the instruction does.
This project models the parts of it whose correctness is not obvious and proves what they are for.

* **Function boundaries.** `ControlFlow` says what control flow the analyser follows, `BlockWalk` is its
  worklist of growing blocks with projections, `FunctionExtent` what sorting, pruning and clamping make
  of the blocks. The loop keeps its asserted invariant and terminates without its block cap, as the region
  bounds the number of blocks. The blocks cover exactly the words that are reachable from the entry, and
  the reported extent is gapless. A conditional branch to the next word is the exception: it loses that
  word whenever nothing else enters it (`SelfFallThroughIsLost`, `CoverageIsExact`).
  `ReturnFlow` gives the exact set of returns that the analyser misreads, and `ArchitectureFlow` compares what
  it takes every word to do with the steps of the architecture: which words go on to the next one, where
  branches go, and the exact exceptions. `SectionScan` builds the tiling of a code section on the analyser,
  each freshly found function with the extent that the analyser gives it. `CrtHelpers` finds the register save and restore routines, and
  `HelperRuns` says what their entries do to registers and bytes of memory.
* **The translator.** `Translator` is the label scan, the emission loop, the branch cases and the
  `csrState` bookkeeping, emitting a list of statements. `Recognition` tells from a word's fields whether it is
  recognised, and when a function is reported complete. `LabelClosure` proves when every goto has exactly
  one label. `HostRuns` gives the statements a semantics and proves that leaving out floating-point mode
  switches is sound on every run, and that no idle one is left in. `GuestRuns` steps the guest by the architecture's BO and BI fields, and
  `Simulation` proves that an emitted function returns with a state if and only if the guest function
  returns with it or falls off its end in it. `FallOff` proves that the two return alike exactly if the
  guest never falls off, for which it is enough that the last instruction is `b`, `bctr` or `blr`.
* **Jump tables.** `JumpTables` finds a pattern and the bound check in front of it, reads the table, and proves
  label number i equal to the CTR that the pattern computes on index i, for all four patterns. `TableBound`
  runs the bound check: the indices that come through it to the pattern are exactly those that have labels.
  `TableSwitch` carries this over to the emitted `switch`, which reads the index register behind the
  pattern. It goes where the guest goes exactly if the pattern leaves the index register alone, for every
  table whose labels and entries can be told from indices.
* **Images.** `BasicCompression` proves the in-place backward expansion of the patcher equal to the
  loader's forward one, with the exact conditions under which their 32-bit sums are right; `DeltaPatch`
  proves the record walk to be a fold over the parsed records, and what each byte of the image is afterwards.
  `Sha1Standard` and `Sha1Hasher` are FIPS 180-4 and the streaming hasher that checks image blocks.
* **Emitted arithmetic.** `CarryChains`, `Rotates`, `VectorReversal`, `VectorTables` and
  `UnalignedVectors` prove emitted expressions equal to Power ISA v3.0B Book I.

Some pieces of the code do less than their names promise. The model keeps the code as it is and states
exactly when it is right. The analyser stops at branches to registers that test CTR alone, goes on behind
conditional branches that are always taken, and stops at words that the disassembler does not know
(`NextIsIsa`); the bound of a table is right only if the branch behind the comparison is on "greater",
while the search also takes `ble` (`BoundIsRightExactly`). Others are `addme` (`AddmeIsIsa`), the high
word of `rlwimi` (`RlwimiIsIsa`) and reading back the rounding mode on 64-bit ARM (`RoundingRoundTrips`).
Likewise the hasher writes only 32 bits of the message length (`LengthIsExact`), a computed jump table is
read without its mask (`LabelsAreTargets`), a pattern that overwrites its index register is switched on
the wrong value (`OverwrittenIndexIsLost`, `SwitchIsRightExactly`), word-wide save routines keep low words
only (`SaveThenRestore`), and a function whose last instruction falls through returns instead of going on
(`NopFallsOff`).

Conventions. The analyser's offsets are counted in instruction words where the source counts bytes, all
of which are multiples of four. Method parameters marked `ghost` (a region, the old contents of a buffer)
name what the contract speaks about and have no counterpart in the source. What the model cannot see is a
parameter: which words the disassembler decodes, which opcodes have an emitter case, what callees and
other instructions do to the guest state, the LZX decompressor, the configuration.

The simulation takes for granted what the translator takes for granted. Of the function (`WellPlaced`): it
is made of whole words inside its section, and its tables hold instruction addresses. Of every instruction
that the guest gets to (`Supported`): its opcode is recognised and no trap, callees outside the function
have symbols and are not `setjmp` or `longjmp`, a branch that decrements CTR stays in the function, CTR
agrees with a recovered table (`TableIsFollowed` says when it does), a branch to CTR without a table leaves
the function, a branch to LR returns to the caller. The guest is always at an instruction of the function,
has returned, or is just behind the last one (`AlwaysSupported`); `ReturnsAgree` asks that it is never
there (`AlwaysProceeds`). Callees keep the cached control register equal to the host's. LR is written or
not as the configuration says.

## Model

| member | source | states |
|---|---|---|
| PpcWord.OperandsAgree | thirdparty/disasm/ppc-dis.c:5417-5443 | the displacement macros and the disassembler's generic sign extension extract the same bits from every word |
| PpcWord.BdBitsValue | thirdparty/disasm/ppc.h:10-11 | the conditional displacement, read as a C int, is four times a signed 14-bit count |
| PpcWord.BiBitsValue | thirdparty/disasm/ppc.h:13-14 | the unconditional displacement is four times a signed 24-bit count |
| PpcWord.OperandIsMacro | thirdparty/disasm/ppc-dis.c:5741-5747 | the 32-bit operand that the disassembler stores is the address plus the macro's C int, modulo 2^32 |
| PpcWord.OperandIsTarget | thirdparty/disasm/ppc-dis.c:5741-5747 | and that is the architecture's branch target |
| PpcWord.DFormFields | XenonUtils/crt_helpers.cpp:9-15 | the field functions give back the fields of an instruction with two registers and an immediate |
| PpcWord.XFormFields | thirdparty/disasm/ppc.h:5-14 | and those of one with an extended opcode |
| PpcWord.IFormFields | thirdparty/disasm/ppc.h:5-14 | and those of an unconditional branch |
| ControlFlow.ReachableIsLeast | XenonAnalyse/function.cpp:71-231 | reachability is the least set that holds the entry and is closed under the analyser's successors |
| BlockWalk.SearchBlock | XenonAnalyse/function.cpp:9-39 | finds the first block that holds an address, an empty block holding its base; -1 exactly if there is none |
| BlockWalk.StepKeepsInv | XenonAnalyse/function.cpp:71-231 | one turn of the worklist, however many blocks there are, keeps the invariant (cursor at the end of the top block, suspended blocks empty, bases distinct) and makes progress in unused bases, stack depth or cursor |
| BlockWalk.IterateKeepsInv | XenonAnalyse/function.cpp:96-97 | the invariant that the source asserts, and the rest of it, holds after every number of turns, for every region |
| BlockWalk.IterateKeepsSound | XenonAnalyse/function.cpp:71-231 | every block ever created begins at a reachable word |
| BlockWalk.IterateKeepsComplete | XenonAnalyse/function.cpp:99-157 | without branches to their own fall-through, every finished block's successors are known and a projection ends at a known word |
| BlockWalk.IterateExtends | XenonAnalyse/function.cpp:71-231 | from any turn to any later one no block is dropped, moved or shrunk, so coverage only grows |
| BlockWalk.BlocksAreFew | XenonAnalyse/function.cpp:79-83 | without the cap there are never more than three blocks more than the region has words |
| BlockWalk.WrapAgrees | XenonAnalyse/function.cpp:119-147 | the 64-bit address arithmetic and range tests of branches agree with word offsets, wrap-around below the region included |
| BlockWalk.NothingWraps | XenonAnalyse/function.cpp:119-169 | for a region at 0x2000000 or above no branch target wraps |
| BlockWalk.TakeFork | XenonAnalyse/function.cpp:116-162 | a conditional branch finishes the block and adds left and right blocks, with projections, for targets that no block holds |
| BlockWalk.TakeJump | XenonAnalyse/function.cpp:164-200 | a jump finishes the block and continues at its target if that is new and not below the region |
| BlockWalk.TakeMayReturn | XenonAnalyse/function.cpp:201-221 | a conditional return finishes the block and continues behind it if that word is new |
| BlockWalk.ForkAdds | XenonAnalyse/function.cpp:119-157 | the blocks that a conditional branch adds, with the 64-bit distance to its target as projection if that is in the region |
| BlockWalk.JumpAddsExactly | XenonAnalyse/function.cpp:170-200 | the block that a jump adds, with what is left of the projection exactly if it comes right behind |
| BlockWalk.ExitsExactly | XenonAnalyse/function.cpp:71-83 | the loop ends with an empty stack, behind the word after the region or with more than 0x100000 blocks, and not before |
| BlockWalk.Walk | XenonAnalyse/function.cpp:57-231 | the worklist loop terminates without help from its block cap and leaves the blocks of the step function's first exited iteration |
| FunctionExtent.CoverageIsReachability | XenonAnalyse/function.cpp:71-231 | the blocks cover exactly the reachable words if and only if nothing reachable lies behind the region |
| FunctionExtent.CoverageIsExact | XenonAnalyse/function.cpp:71-231 | where nothing else enters the words behind conditional branches to the next word, coverage is reachability if and only if there are no such branches and nothing reachable lies behind the region |
| FunctionExtent.WalkEndsAgree | XenonAnalyse/function.cpp:99-104 | a block that begins inside another does not end before it: cut-offs end at covered words |
| FunctionExtent.CapIsNeverMet | XenonAnalyse/function.cpp:43-47 | in a region of less than four megabytes no iteration meets the block cap, and tameness does not depend on it |
| FunctionExtent.WalkedIsExact | XenonAnalyse/function.cpp:57-231 | in a tame region coverage is reachability and overlapping blocks end together |
| FunctionExtent.SortSorts | XenonAnalyse/function.cpp:236-239 | the blocks are sorted strictly, as their bases differ |
| FunctionExtent.Prune | XenonAnalyse/function.cpp:241-256 | keeps the longest front in which each block reaches the next one's base |
| FunctionExtent.NoGapBelow | XenonAnalyse/function.cpp:241-256 | although only neighbours are compared, the kept blocks leave no gap below any of their ends |
| FunctionExtent.EndIsFirstGap | XenonAnalyse/function.cpp:233-264 | the furthest kept end is the first word that no block holds, kept or dropped |
| FunctionExtent.FurthestEnd | XenonAnalyse/function.cpp:259-264 | the maximum of the ends |
| FunctionExtent.Trim | XenonAnalyse/function.cpp:233-271 | after sort, prune and clamp the extent ends at the first word that no block covers or at the region's end, and is reachable throughout; in a tame region it ends at the first unreachable word |
| FunctionExtent.ExtentIsUnique | XenonAnalyse/function.cpp:41-274 | below four megabytes a region has one such extent, so it determines the reported size |
| FunctionExtent.ExtentIsReachable | XenonAnalyse/function.cpp:41-274 | an extent is reachable from end to end, and in a tame region ends at the first unreachable word |
| FunctionExtent.Analyze | XenonAnalyse/function.cpp:41-274 | the same of the whole function; a shifted tail call is eight bytes |
| FunctionExtent.SelfFallThroughIsLost | XenonAnalyse/function.cpp:119-157 | a conditional branch to the next word leaves that word uncovered, in every region in which nothing else enters it |
| FunctionExtent.LostWords | XenonAnalyse/function.cpp:119-157 | `beq .+4; blr` is such a function: its second instruction is reachable and not covered |
| ReturnFlow.ReturnIsIsa | XenonAnalyse/function.cpp:201-224 | continuing behind a branch to LR or CTR agrees with the architecture exactly for branches that do not test CTR alone |
| ArchitectureFlow.NextIsIsa | XenonAnalyse/function.cpp:105-230 | the analyser goes on to the next word exactly when some state of the architecture does, calls included, if and only if the word is no branch to a register that tests CTR alone, no zero or unknown word and no conditional branch that is always taken |
| ArchitectureFlow.TargetIsIsa | XenonAnalyse/function.cpp:116-200 | for every word, the analyser's branch targets inside the code are exactly the addresses other than the next that some state leads to |
| ArchitectureFlow.PathIsIsa | XenonAnalyse/function.cpp:71-231 | in a region without those words, the analyser's paths are the architecture's |
| SectionScan.Find | XenonUtils/symbol_table.h:36-62 | of the symbols at an address, the last inserted that is not empty |
| SectionScan.ScanCalls | XenonRecomp/recompiler.cpp:278-297 | every call into the section has a symbol at its target afterwards; the symbols that are added are functions at targets that had none, with the extent that the analyser finds there |
| SectionScan.CallTargetIsIsa | XenonRecomp/recompiler.cpp:283-287 | a call target is that of a `bl` in the section whose architected target lies there too |
| SectionScan.SizeIsUnique | XenonRecomp/recompiler.cpp:292 | in a section below four megabytes the size of an analysed function is determined by its words |
| SectionScan.NextTile | XenonRecomp/recompiler.cpp:303-335 | a tile is a configured skip, or four bytes for a skip of zero; else the size of the function symbol there; else eight bytes for a shifted tail call or the analysed extent, which becomes a function symbol |
| SectionScan.ScanSection | XenonRecomp/recompiler.cpp:299-339 | the scan terminates and tiles the section from its start to at least its end; each tile is as long as its first word, the symbols from before the scan and the analyser say, and the new symbols are the analysed tiles |
| SectionScan.TiledOnce | XenonRecomp/recompiler.cpp:337-338 | every byte of the section lies in exactly one tile |
| CrtHelpers.DetectRegisterRun | XenonUtils/crt_helpers.cpp:54-74 | true exactly if the words are accesses that the matcher accepts, with ascending registers and displacements |
| CrtHelpers.DetectVectorRun | XenonUtils/crt_helpers.cpp:141-163 | true exactly if the words are pairs of a set-up and an accepted access with ascending registers and the same address registers |
| CrtHelpers.DetectCrtHelpers | XenonUtils/crt_helpers.cpp:186-271 | for each of the eight routines the result of a full scan of the code sections in order, early exit or not, wherever the sections lie |
| CrtHelpers.FoundIsFirst | XenonUtils/crt_helpers.cpp:190-267 | a found address is that of the first match with an address other than zero, and zero means that there is none |
| CrtHelpers.VectorRoutineExactly | XenonUtils/crt_helpers.cpp:141-163 | a vector routine is found at a word if and only if eighteen, or sixty-four, pairs of an `addi` and the encoded access begin there, of ascending registers and with the same address registers |
| CrtHelpers.WordsAreEncoded | XenonUtils/crt_helpers.cpp:21-23 | `lwz` and `stw` are exactly the words with their opcode, register and base, whatever the displacement |
| CrtHelpers.DoublesAreEncoded | XenonUtils/crt_helpers.cpp:17-19 | `ld` and `std` likewise, with zero in the low two bits |
| CrtHelpers.FloatsAreEncoded | XenonUtils/crt_helpers.cpp:25-27 | `lfd`, `stfd` and `addi` likewise, with any base |
| CrtHelpers.VectorsAreEncoded | XenonUtils/crt_helpers.cpp:29-33 | `lvx` and `stvx` are exactly the words with their extended opcodes |
| CrtHelpers.WideVectorsAreEncoded | XenonUtils/crt_helpers.cpp:35-41 | `lvx128` and `stvx128`, whose register number is put together from two fields |
| CrtHelpers.DisplacementsAreSigned | XenonUtils/crt_helpers.cpp:14-15 | displacements are the sign extensions of their fields |
| CrtHelpers.EntriesEndTogether | XenonRecomp/recompiler.cpp:144-214 | the registered entries of a detected routine, four- and eight-byte ones, each begin with the word that serves their register and all end at one address, behind the last register and three, two, one or no more words |
| HelperRuns.FoundIsRun | XenonUtils/crt_helpers.cpp:203-234 | the words of a detected integer or floating-point routine decode to eighteen accesses with the matcher's bank, base and displacements |
| HelperRuns.RunsAreFoundExactly | XenonUtils/crt_helpers.cpp:54-133 | and all such runs are found: the integer ones on the stack pointer, the floating-point ones on any base |
| HelperRuns.LoadsWords | XenonRecomp/recompiler.cpp:1499-1504 | words and doublewords in memory have their highest byte first |
| HelperRuns.EntryLoads | XenonRecomp/recompiler.cpp:1499-1504 | an entry of a restore loads its register and those behind it from their cells, zero-extended, and changes no other |
| HelperRuns.EntryStores | XenonRecomp/recompiler.cpp:1996-2001 | an entry of a save stores the low parts of its register and those behind it to their cells, and changes no other byte |
| HelperRuns.SaveThenRestore | XenonUtils/crt_helpers.cpp:203-234 | saving and restoring through the same entry gives low parts back, and whole registers if and only if the routines move doublewords or the values fit in words |
| BranchDecoding.MnemonicIsIsa | thirdparty/disasm/ppc-dis.c:2841-3095 | each extended branch mnemonic decrements CTR and tests what section 2.4 of the ISA says of its BO and BI fields |
| Recognition.RecognisedExactly | XenonRecomp/recompiler.cpp:763-938 | a word is recognised if and only if its fields say so: a relative `b` or `bl`; an unlinked relative `bc` that tests something and has a mnemonic, summary overflow alone excepted; of the branches to LR those that return, `bdnzlr` excepted; of those to CTR `bctr`, `bctrl` and `bnectr`; any other word with an emitter case |
| Recognition.CompleteExactly | XenonRecomp/recompiler.cpp:2860-2868 | a function is reported complete if and only if each of its words is recognised, is `blrl`, or is unknown to the disassembler |
| Recognition.CalleeExactly | XenonRecomp/recompiler.cpp:520-550 | longjmp and setjmp come before symbols, and a call has a function to go to exactly if there is a symbol |
| Recognition.CountExactly | XenonRecomp/recompiler.cpp:2700-2722 | a word is translated if and only if it begins in front of the end of the function and of its section |
| Recognition.GotosExactly | XenonRecomp/recompiler.cpp:763-880 | jumps and branches on a bit are gotos if and only if their target lies within the function's full size; branches that decrement CTR always are |
| Translator.ScanLabels | XenonRecomp/recompiler.cpp:2721-2799 | the label set is what the raw words, the tables and the mid-asm hooks of all instructions ask for |
| Translator.RecompileInsn | XenonRecomp/recompiler.cpp:763-938 | the statements, mode state and pending table that one instruction produces |
| Translator.SwitchCases | XenonRecomp/recompiler.cpp:779-795 | one case per label: a goto inside the function, an error outside |
| Translator.EmitOne | XenonRecomp/recompiler.cpp:2832-2868 | label, table lookup, instruction: one turn of the emission loop |
| Translator.Recompile | XenonRecomp/recompiler.cpp:2698-2872 | the loop emits the specified statements and reports whether all opcodes were recognised |
| LabelClosure.BranchTargetIsScanned | XenonRecomp/recompiler.cpp:2721-2730 | an in-range target that the disassembler extracts generically, in 32 bits, is one that the scan adds with the macros, in 64 |
| LabelClosure.ScannedExactly | XenonRecomp/recompiler.cpp:2721-2799 | an address is scanned if and only if an unlinked branch has it as its architected target, a table has it as a label or a hook jumps there |
| LabelClosure.TargetWasScanned | XenonRecomp/recompiler.cpp:2724-2741 | every in-range goto target, switches included, is in the scanned set |
| LabelClosure.TableAtInsnIsTheOpenOne | XenonRecomp/recompiler.cpp:2842-2843 | the table that a branch to CTR takes is the first one to begin since the branch to CTR before it, and there is one exactly if such a table begins |
| LabelClosure.LabelsEmitted | XenonRecomp/recompiler.cpp:2834-2840 | an address has one label if it is scanned and an instruction's, and none otherwise |
| LabelClosure.ClosedExactlyWhenCountersStayInside | XenonRecomp/recompiler.cpp:820-872 | every goto has exactly one label if and only if no CTR-decrementing branch leaves the function, as those have no range test |
| Fpscr.FpscrRegister.LoadFromHost | XenonUtils/ppc_context.h:260-264 | refreshes the cached register and returns the guest's rounding mode |
| Fpscr.FpscrRegister.StoreFromGuest | XenonUtils/ppc_context.h:266-271 | writes the rounding mode to the cached and the real register |
| Fpscr.FpscrRegister.EnableFlushMode | XenonUtils/ppc_context.h:285-292 | sets all flush bits unless they are set |
| Fpscr.FpscrRegister.DisableFlushMode | XenonUtils/ppc_context.h:294-301 | clears all flush bits unless they are clear |
| Fpscr.FpscrRegister.EnableFlushModeUnconditional | XenonUtils/ppc_context.h:273-277 | sets all flush bits |
| Fpscr.FpscrRegister.DisableFlushModeUnconditional | XenonUtils/ppc_context.h:279-283 | clears all flush bits |
| Fpscr.SwitchFlushSwitches | XenonUtils/ppc_context.h:273-301 | from a coherent state every switch, conditional or not, leaves exactly the asked flush bits and coherence |
| Fpscr.SwitchKeepsOthers | XenonUtils/ppc_context.h:273-301 | no switch changes any other bit of the register |
| Fpscr.RoundingKeepsFlush | XenonUtils/ppc_context.h:266-271 | setting the rounding mode does not touch the flush bits |
| Fpscr.RoundingKeepsOthers | XenonUtils/ppc_context.h:266-271 | nor any other bit but its own two |
| Fpscr.HostRoundsAsAsked | XenonUtils/ppc_context.h:211-271 | for every mode the host then rounds in the direction that the guest asked for |
| Fpscr.ReadDirectionIsHosts | XenonUtils/ppc_context.h:218-264 | the mode that the guest reads names the host's direction if and only if the host is x64 or rounds in no direction |
| Fpscr.RoundingRoundTrips | XenonUtils/ppc_context.h:218-271 | the guest reads back the mode it set if and only if the host is x64 or the mode names no direction |
| HostRuns.EmittedKeepsMode | XenonRecomp/recompiler.cpp:573-584 | the emitter's static state equals the mode that the text implies, wherever control can get to |
| HostRuns.EveryRunInMode | XenonRecomp/recompiler.cpp:2834-2840 | on every run of any statement list the host is in the mode that the text implies |
| HostRuns.FlushModeIsSound | XenonRecomp/recompiler.cpp:573-584 | for every function, callee behaviour and run length, a scalar statement executes with all flush bits clear and a vector one with all set |
| HostRuns.NoSwitchIsIdle | XenonRecomp/recompiler.cpp:573-584 | no switch is emitted where the text shows the mode that it switches to, and a switch tests for itself exactly where the text shows no mode |
| GuestRuns.DecodedIsIsa | XenonRecomp/recompiler.cpp:763-938 | the step told from the decoded instruction is the architecture's step on the word |
| Simulation.TextRuns | XenonRecomp/recompiler.cpp:763-938 | the statements of one instruction do what it does, in as many host steps as statements |
| Simulation.UnsupportedRuns | XenonRecomp/recompiler.cpp:520-550 | `blrl` stops the run, words without an emitter case do nothing, and a jump to an address without a symbol returns |
| Simulation.JumpArrives | XenonRecomp/recompiler.cpp:2834-2840 | a goto to a scanned address arrives at the statements of the instruction there |
| Simulation.StepIsSimulated | XenonRecomp/recompiler.cpp:2698-2876 | each guest step is matched by one or more host steps that end at the next instruction's statements in the same guest state |
| Simulation.RunIsSimulated | XenonRecomp/recompiler.cpp:2698-2876 | the same over runs of every length |
| Simulation.ReturnsExactly | XenonRecomp/recompiler.cpp:2698-2876 | the emitted function returns with a guest state if and only if the guest function returns with it or gets behind its last instruction in it |
| Simulation.ReturnsAgree | XenonRecomp/recompiler.cpp:2698-2876 | a guest that never gets behind its last instruction returns with a state if and only if the emitted function does |
| FallOff.ReturnsMatchExactly | XenonRecomp/recompiler.cpp:2871-2876 | emitted and guest function return with the same states if and only if the guest never falls off the end |
| FallOff.GuardedReturnsMatch | XenonRecomp/recompiler.cpp:2871-2874 | they do if the last instruction is `b`, `bctr` or `blr`, as the disabled diagnostic asks |
| FallOff.GuardIsExact | XenonRecomp/recompiler.cpp:2871-2874 | a recognised last instruction leads behind itself in some state if and only if it is none of these |
| FallOff.NopFallsOff | XenonRecomp/recompiler.cpp:2871-2876 | the one-word function `nop`: emitted, it returns; the guest function never does |
| JumpTables.SearchMask | XenonAnalyse/main.cpp:216-246 | finds the first place where the opcodes of the pattern stand, exactly if there is one |
| JumpTables.MatchesExactly | XenonAnalyse/main.cpp:344-387 | the words that match are those with the opcodes of the four lists |
| JumpTables.ScanTable | XenonAnalyse/main.cpp:169-204 | within 32 words finds the nearest branch on "greater" and, before it, the nearest comparison on its CR field, exactly if there are such: its register, one label more than its bound, the branch's target |
| JumpTables.ReadTable | XenonAnalyse/main.cpp:45-167 | succeeds exactly if the table is mapped and the shift plausible; then each label is made of its entry as the pattern's kind says |
| JumpTables.LabelInNumbers | XenonAnalyse/main.cpp:66-160 | the label of each kind as one sum modulo 2^32 of base, low part and entry, which a computed table shifts |
| JumpTables.EntryIsBigEndian | XenonAnalyse/main.cpp:73-160 | entries of one, two and four bytes are read with the highest byte first |
| JumpTables.RotatedByte | XenonAnalyse/main.cpp:96-105 | a byte rotated by at most 24 has only been shifted |
| JumpTables.PatternRuns | XenonAnalyse/main.cpp:344-387 | running each of the four patterns on an index leaves in CTR the target of that entry |
| JumpTables.LabelsAreTargets | XenonAnalyse/main.cpp:45-167 | label i is the CTR of index i if and only if the mask of a computed table keeps the entry |
| JumpTables.PlainShiftKeeps | XenonAnalyse/main.cpp:96-105 | a computed table compiled with a plain shift keeps every entry |
| TableBound.CheckRuns | XenonAnalyse/main.cpp:182-201 | comparison and branch, run: control comes to the pattern exactly with the indices below the number of labels, and otherwise leaves to the default label, or returns; with a branch on "not greater" the other way round |
| TableBound.BoundIsRightExactly | XenonAnalyse/main.cpp:182-201 | the reported bound is right on every machine if and only if the branch is on "greater" |
| TableBound.PassingIndexHasLabel | XenonAnalyse/main.cpp:45-204 | every index that passes the check has a label, and that is where the pattern goes |
| TableSwitch.SwitchCaseIsTarget | XenonRecomp/recompiler.cpp:775-799 | the case that the emitted switch takes is the guest's CTR if and only if the index register behind the pattern is an index of an equal label; in particular if the pattern does not write it |
| TableSwitch.TableIsFollowed | XenonRecomp/recompiler.cpp:775-799 | what `Supported` takes for granted of a table holds exactly if moreover the register's high word is zero and the label is in the function |
| TableSwitch.SwitchIsStatic | XenonRecomp/recompiler.cpp:775-799 | on every machine the switch is right, if and only if for each index the value that the pattern's last write leaves, computed from pattern and table, is an index of the same label |
| TableSwitch.SwitchIsRightExactly | XenonRecomp/recompiler.cpp:775-799 | of all four kinds: for a table whose labels, and some entry, are no indices, the switch is right on every machine if and only if no instruction of the pattern writes the index register |
| TableSwitch.OverwrittenIndexIsLost | XenonRecomp/recompiler.cpp:775-799 | a chained pattern that loads the entry into its index register: the label is right and the switch has no case |
| BasicCompression.LoadBasic | XenonUtils/xex.cpp:258-311 | fails exactly on an empty list, a bad size or too little data; otherwise gives the expansion of the blocks, unless a block's sum leaves 32 bits |
| BasicCompression.ExpandedBytes | XenonUtils/xex.cpp:301-310 | byte k of a block's stretch is its data's byte k, or zero behind the data |
| BasicCompression.SizeIsExact | XenonUtils/xex.cpp:275-281 | the size summed in 32 bits is the image's if and only if no block's sum leaves 32 bits |
| BasicCompression.TestIsRight | XenonUtils/xex_patcher.cpp:462-472 | the patcher's 32-bit size test never rejects what fits, and for a buffer of less than 2^32 bytes it is right if and only if the true total is below 2^32 or exceeds the buffer modulo 2^32 too |
| BasicCompression.ExpandInPlace | XenonUtils/xex_patcher.cpp:453-485 | rejects exactly an empty list and a failed test, changing nothing; if the image fits and its size is an `int32_t`, the image in the buffer is the same expansion of the data that lay there, and the rest is as it was |
| BasicCompression.ExtractExpanded | XenonUtils/xex.cpp:301-310 | expansion loses nothing: the data can be taken out again |
| DeltaPatch.ApplyRecord | XenonUtils/xex_patcher.cpp:190-216 | byte by byte: kind 0 zeroes the target stretch, kind 1 copies the old stretch into it, any other writes the decompressor's output for payload and old stretch; all other bytes stay, and the pointer moves by 12 bytes and the payload |
| DeltaPatch.ApplyPatch | XenonUtils/xex_patcher.cpp:183-223 | the pointer walk applies the parsed records in order, up to the end record, the end of the buffer or the first failure |
| DeltaPatch.UntargetedStays | XenonUtils/xex_patcher.cpp:196-216 | a byte that no record targets does not change, even when the patch fails |
| DeltaPatch.LastDecides | XenonUtils/xex_patcher.cpp:183-223 | after a successful patch a byte is what the last record that targets it made of it |
| DeltaPatch.FirstFailure | XenonUtils/xex_patcher.cpp:209-216 | a failed patch has applied the records in front of the first that fails, that one as far as it came, and none behind it |
| DeltaPatch.HeaderBytes | XenonUtils/xex.h:133-140 | the header's four big-endian fields; the end record is twelve zero bytes |
| DeltaPatch.RecordsRoundTrip | XenonUtils/xex.h:133-140 | reading gives the records that were written, with or without an end record behind them |
| Sha1Hasher.LengthIsExact | thirdparty/TinySHA1/TinySHA1.hpp:107-128 | the written length is the standard's if and only if the message is shorter than 2^29 bytes |
| Sha1Standard.LengthIsBigEndian | thirdparty/TinySHA1/TinySHA1.hpp:121-128 | the standard's eight length bytes are the bit count, highest byte first |
| Sha1Standard.MarkedBytes | thirdparty/TinySHA1/TinySHA1.hpp:108-120 | the padded message is the message, the byte 0x80 and fewer than 64 zeros |
| Sha1Standard.ConstantsAreRoots | thirdparty/TinySHA1/TinySHA1.hpp:184-200 | the four constants are 2^30 times the square roots of 2, 3, 5 and 10, rounded down |
| Sha1Hasher.RotationsAgree | thirdparty/TinySHA1/TinySHA1.hpp:38-40 | rotations by exclusive or are the standard's |
| Sha1Hasher.ChAgrees | thirdparty/TinySHA1/TinySHA1.hpp:188-190 | the choice by or is the standard's Ch |
| Sha1Hasher.MajAgrees | thirdparty/TinySHA1/TinySHA1.hpp:194-196 | the majority by or is the standard's Maj |
| Sha1Hasher.Sha1Hash.Reset | thirdparty/TinySHA1/TinySHA1.hpp:68-77 | the empty message |
| Sha1Hasher.Sha1Hash.ProcessByte | thirdparty/TinySHA1/TinySHA1.hpp:79-88 | appends a byte to the message |
| Sha1Hasher.Sha1Hash.ProcessBytes | thirdparty/TinySHA1/TinySHA1.hpp:90-104 | appends bytes to the message, so only the concatenation of all calls matters |
| Sha1Hasher.Sha1Hash.Expand | thirdparty/TinySHA1/TinySHA1.hpp:167-176 | the standard's message schedule |
| Sha1Hasher.OneRound | thirdparty/TinySHA1/TinySHA1.hpp:184-207 | one round of the standard, for each quarter of the rounds |
| Sha1Hasher.Sha1Hash.ProcessBlock | thirdparty/TinySHA1/TinySHA1.hpp:166-214 | the hash value after one more block |
| Sha1Hasher.Sha1Hash.Pad | thirdparty/TinySHA1/TinySHA1.hpp:108-120 | the standard's padding up to the length, for every message length |
| Sha1Hasher.Sha1Hash.Finalize | thirdparty/TinySHA1/TinySHA1.hpp:106-132 | the SHA-1 hash value of the message if it is shorter than 2^29 bytes |
| CarryChains.AddcIsIsa | XenonRecomp/recompiler.cpp:684-690 | low word and carry of `addc` are those of the exact sum, for every choice of registers |
| CarryChains.AddeIsIsa | XenonRecomp/recompiler.cpp:692-698 | the same of `adde` with the carry in |
| CarryChains.AddzeIsIsa | XenonRecomp/recompiler.cpp:729-735 | the same of `addze` |
| CarryChains.AddmeIsIsa | XenonRecomp/recompiler.cpp:721-727 | the low word of `addme` is right; its carry if and only if operand and carry are zero |
| CarryChains.SubfcIsIsa | XenonRecomp/recompiler.cpp:2045-2050 | low word and carry of `subfc` are those of complement plus operand plus one |
| CarryChains.SubfeIsIsa | XenonRecomp/recompiler.cpp:2052-2058 | the same of `subfe` with the carry in |
| CarryChains.SubfzeIsIsa | XenonRecomp/recompiler.cpp:2065-2071 | the same of `subfze` |
| CarryChains.ChainIsExact | XenonRecomp/recompiler.cpp:684-698 | chains of any number of words compute exact sums and differences with exact carry and borrow, destinations aliasing their operands or not |
| Rotates.MaskIsIsa | XenonRecomp/recompiler.cpp:6-12 | `ComputeMask` is the architecture's MASK for all arguments, wrap-around included |
| Rotates.RlwinmIsIsa | XenonRecomp/recompiler.cpp:1686-1690 | `rlwinm` is the architecture's on all 64 bits |
| Rotates.RldiclIsIsa | XenonRecomp/recompiler.cpp:1660-1664 | `rldicl` is the architecture's |
| Rotates.RldicrIsIsa | XenonRecomp/recompiler.cpp:1666-1670 | `rldicr` is the architecture's |
| Rotates.RldimiIsIsa | XenonRecomp/recompiler.cpp:1672-1677 | `rldimi`, with its complemented shift, is the architecture's |
| Rotates.RlwimiIsIsa | XenonRecomp/recompiler.cpp:1679-1684 | `rlwimi` is the architecture's on the low word, and on all 64 bits if and only if the mask does not wrap or the source word is zero |
| VectorReversal.VpermIsIsa | XenonUtils/ppc_context.h:661-666 | the permutation helper on reversed registers is the reversal of `vperm` |
| VectorReversal.LanesAreShifted | XenonUtils/ppc_context.h:661-666 | the byte-wise model of the helper's lane shift multiplies each 32-bit lane by eight |
| VectorReversal.VsldoiIsIsa | XenonRecomp/recompiler.cpp:2491-2494 | the same of `vsldoi`, for every shift |
| VectorReversal.MergeIsIsa | XenonRecomp/recompiler.cpp:2294-2318 | the same of the six merges, operands exchanged and halves swapped |
| VectorReversal.SplatIsIsa | XenonRecomp/recompiler.cpp:2510-2548 | the same of the three splats, for every element |
| VectorReversal.VpkuwumIsIsa | XenonRecomp/recompiler.cpp:2434-2438 | the same of `vpkuwum` |
| VectorTables.MaskLRow | XenonUtils/ppc_context.h:547-565 | every row of the left mask table, as written out, selects the quadword from byte n on, reversed |
| VectorTables.MaskRRow | XenonUtils/ppc_context.h:567-585 | every row of the right mask table selects the bytes in front of byte n, reversed |
| UnalignedVectors.LvslIsIsa | XenonUtils/ppc_context.h:587-625 | the shift tables hold the reversals of what `lvsl` and `lvsr` load |
| UnalignedVectors.LvxIsReversed | XenonRecomp/recompiler.cpp:1419-1430 | `lvx` loads the reversal of the aligned quadword |
| UnalignedVectors.LeftOrRightIsUnaligned | XenonRecomp/recompiler.cpp:1432-1448 | `lvlx` at ea or'ed with `lvrx` at ea + 16 loads the sixteen bytes at ea |
| UnalignedVectors.PermIsUnaligned | XenonRecomp/recompiler.cpp:1450-1456 | `vperm` of two aligned loads under `lvsl` loads the same bytes |
| UnalignedVectors.StoreLeft | XenonRecomp/recompiler.cpp:1962-1973 | `stvlx` writes the bytes up to the end of the quadword and no others |
| UnalignedVectors.StoreRight | XenonRecomp/recompiler.cpp:1975-1986 | `stvrx` writes the bytes in front of its address in the quadword and no others |
| UnalignedVectors.StoreUnaligned | XenonRecomp/recompiler.cpp:1962-1986 | `stvlx` then `stvrx` writes exactly the sixteen bytes at ea |
| UnalignedVectors.StoredIsLoaded | XenonRecomp/recompiler.cpp:1432-1456 | storing and loading unaligned, either way, is the identity |

## Left out

- CoverageIsReachability: requires that there are no branches to their own fall-through; `CoverageIsExact` adds those whose fall-through nothing else enters. If something else enters it, the outcome depends on which comes first in the walk.
- WrapAgrees: speaks of addresses and offsets. For a branch to an address below zero the source's pointer wraps too and lands in front of the region, where the model leaves the loop; `NothingWraps` says when there is no such branch.
- ReturnsAgree: floating-point values and the effect of single instructions are uninterpreted; the emitter cases with arithmetic worth proving are in the other modules.
- ReturnsAgree: callees are total functions of the guest state, so a callee that does not return is not described.
- ChainIsExact: speaks of low words, as 32-bit mode does; the high word of `subfze` differs from a 64-bit machine's.
- LoadBasic: what happens when the writes leave the buffer, which is exactly when a block's sum leaves 32 bits.
- ExpandInPlace: what happens when the test passes but the image does not fit or its size is no `int32_t`, so that the cursors lie elsewhere.
- LabelsAreTargets: the pattern's registers must be chained as a compiler chains them, which the code does not check. The loop over sections and candidates around the search is not modelled.
- Absolute branches, which the analyser asserts away and the emitter does not handle.
- Sorting is `std::sort` in the source and an insertion sort as a function here; with distinct bases every sort gives the same result.
- The calls of mid-asm hooks, of which only the labels are modelled, setjmp and longjmp, memory-mapped stores, atomics, registers kept as local variables: external code or a host memory model.
- The LZX codec, AES, and the block and chunk walk around them.
- EntryLoads, EntryStores: the vector routines; their set-up instructions are not checked, so their cells are not known.
- The extension of functions by trailing switch labels, .pdata parsing, XEX header validation: they would add easy members.
- sraw, vpkswss and the rest of the several hundred emitter cases: one representative of each shape is modelled.
- The second finalize of the hasher, which writes the words out as bytes, and its copy and init functions.
- Sizes and counts are unbounded where the source's `size_t` cannot overflow on data that fits in memory.
