# Verified models of a computer-systems course repository

The repository holds the programs of a computer-systems course. This project models those whose
correctness is hardest to see and proves what they are for:

* **The pipelined Y86-64 simulator** (`lab6/pipe/psim.c`, `lab6/pipe/pipe-std.c`) and the instruction-set
  model (`lab6/misc/isa.c`). Every cycle of every run of the pipeline is tied to the sequential run:
  forwarding, load-use stalls, mispredicted jumps, `ret`, conditional moves, the stack instructions and
  exceptions included. `Words`, `Memory`, `Isa`, `PipeStd` and `Psim` are the model; `Sequential`,
  `StageLemmas`, `PipeInvariant`, `PipeStep`, `PipeTheorems`, `PipeCorrect`, `PipeRuns` and `PipeCheck` the
  proof; `PipeExamples` and `PipePatches` have programs, supported and failing ones. An instruction in
  flight is tagged with its number in the sequential run, and the invariant says what each pipeline register
  holds and in which cycle it holds it.
* **Three heap allocators** whose bookkeeping lies in the heap itself: the segregated-fit allocator
  `lab7/mm7.c` with three circular free lists and an in-place `realloc` (`Rings`, `Layouts`, `HeapOps`,
  `HeapFacts`, `Mm7`), the next-fit allocator `lab7/mm.c` (`Implicit`, `NextFit`), and the eighteen free
  lists of `lab7/mm5.c` with their search (`Mm5`). Ghost state says which blocks tile the heap and which
  lists they are on; the methods work on the words.
* **Two language tools**: the translation of hardware control language expressions to C (`lab6/misc/node.c`;
  `HclTree`, `HclRead`, `HclCode`, `HclGenerates`, `HclText`, `HclCorrect`, `HclList`), and the two-pass
  assembler `lab6/misc/yas.c` with the listing that `load_mem` of `isa.c` reads back (`Assembly`, `Effects`,
  `Assembler`, `Listing`, `AsmCorrect`).
* **Three smaller programs**: the cache simulator `lab8/csim.c` (`Lru`, `Csim`), the 64x64 transposition of
  `lab8/trans.c` (`Transpose`) and the buffered reader of `lab10/csapp.c` (`Rio`).

`Options` and `Arithmetic` hold what several modules share.

## Conventions

* C words are mathematical integers with explicit wrap-around (`Words.Wrap`); the address `pos + 8` in the
  range checks of memory is not wrapped. A memory is at most 2^31 - 1 bytes long, as its length is a C int.
* Heap addresses and block sizes are counted in words of 4 bytes from the start of the heap; a pointer
  stored in the heap is the byte offset. NULL is the offset 0, where no block starts.
* Code that updates state is a class with methods, proved against functions on the values of its state;
  what the source promises is then proved about those functions.

## What the pipeline needs of a program

`PipeTheorems.Supported(s, n)` says which programs the theorems about the first n cycles are about, by a
condition on each instruction of the model's run that is fetched before cycle n; what the program does later
does not matter.

* The instruction is `Sequential.Alike`: the pipeline's stages and the model give it the same status. This is a
  condition on the bytes at the program counter and on the stack pointer, and it is exact
  (`Sequential.StagesExecuteIsa`). What it excludes are instructions within five bytes of the end of memory that
  do not fail in the model too, as the fetch stage probes the byte at offset 5 for every instruction
  (`lab6/pipe/psim.c:1403`); those whose constant lies beyond the end, which the pipeline does not notice;
  `iaddq` with a register and its constant, which only the model implements; and register fields that the model
  insists on and the pipeline does not.
* No store that is still to be made when the instruction is fetched changes the bytes that are fetched
  (`PipeTheorems.IsaUnwritten`). A store before a return, a misprediction or another delay may have been made by
  then (`PipePatches.PatchInTime`); one right before the instruction has not, and the pipeline executes what was
  there before (`PipePatches.PatchTooLate`). In this one direction only, as the bytes stored may be the old ones.
* Once it has left decode, no value has strayed into it (`PipeInvariant.Unstrayed`). The forwarding logic
  compares register codes, and the code for no register matches itself; so an operand without a register, such as
  the base of an absolute address, gets the value of the first instruction in flight without a destination.
  `PipeStep.StrayValue` says which value that is, and `PipeRuns.OperandsAreArchitectural` that, on every run, the
  operands leaving decode are the model's if and only if it is 0. `PipeExamples.StrayBaseRegister` is a program in
  which it is 40, and the pipeline computes with another address than the model.

The invariant of the pipeline itself asks for the last two only, of the pipeline's own sequential run
(`PipeInvariant.Sound`). So `PipeRuns.StatusExactly` can say of the first instruction that is not alike that the
processor reports another status than the model's (`PipeExamples.IaddqIsNotAlike` is a program with one).

Programs of any length satisfy all this (`PipeExamples.NopsAreSupported`, `NopsThenHalt`), and so does one with a
load-use pair, a mispredicted jump and a return (`HazardsAreSupported`). The model's run may end with any
exception. Only a stack fault shows a difference afterwards: the model has then moved the stack pointer and
the pipeline has not (`PipeCheck.CheckAgainstIsa`, an if-and-only-if; `PipeExamples.PushFaults` is an input).
The simulator's instruction count (`icount`) counts cycles, since a bubble's status is reported as AOK
(`lab6/pipe/pipe-std.c:212-216`); the theorems about runs therefore take limits in cycles.

## Model

| member | source | states |
|---|---|---|
| Words.WrapUnique | lab6/misc/isa.c:460-480 | 64-bit arithmetic leaves the one word congruent to the exact result |
| Words.BitwiseIsPerBit | lab6/misc/isa.c:460-480 | and/xor of two's-complement words act on every bit separately |
| Words.BitsDetermine | lab6/misc/isa.c:460-480 | a word is determined by its 64 bits |
| Words.BitOfQuotient | lab8/csim.c:38-39 | dividing by a power of two shifts the bits down |
| Words.BitOfRemainder | lab8/csim.c:38-39 | the remainder by a power of two has just the lowest bits |
| Words.HalvesOfByte | lab6/misc/isa.h:53-54 | a byte is its high half followed by its low half |
| Words.LowestFirst | lab6/misc/isa.c:310-343 | byte k of an encoded number has the weight 256 to the power of k |
| Words.WordRoundTrip | lab6/misc/isa.c:310-343 | a word written as eight little-endian bytes is read back as itself |
| Words.EncodeDecode | lab6/misc/isa.c:310-343 | eight bytes read as a word are written back as the same bytes |
| Memory.LoadAfterStore | lab6/misc/isa.c:310-343 | a load at the address of a store yields the stored word, wherever the store fits |
| Memory.StoreElsewhere | lab6/misc/isa.c:333-343 | a store changes no byte outside its eight |
| Memory.RegistersAfterStore | lab6/misc/isa.c:405-424 | writing a register through the register memory changes that register only; code 15 writes nothing |
| Memory.Mem.GetByteVal | lab6/misc/isa.c:302-308 | the byte, or failure exactly outside memory |
| Memory.Mem.GetWordVal | lab6/misc/isa.c:310-323 | the loop assembles the little-endian word, or fails exactly where it does not fit |
| Memory.Mem.SetWordVal | lab6/misc/isa.c:333-343 | the loop stores the word's bytes, or changes nothing and fails |
| Memory.Mem.GetRegVal | lab6/misc/isa.c:405-412 | the register's word, 0 for a code that names none |
| Memory.Mem.SetRegVal | lab6/misc/isa.c:414-424 | the register file with that register replaced |
| Isa.SubtractionCompares | lab6/misc/isa.c:482-506 | after a subtraction conditions 1 to 6 are the signed comparisons of b with a, for all 64-bit a and b, overflow or not |
| Isa.AdditionSign | lab6/misc/isa.c:482-506 | after an addition conditions 2 and 5 tell the sign of the exact sum, overflow or not; 3 tells whether it is 0, but for one pair of operands |
| Isa.OperationsByCode | lab6/misc/isa.c:460-480 | codes 0 to 3 are a + b, b - a modulo 2^64, and the conjunction and exclusive or of each of the 64 bits |
| Isa.LogicCompares | lab6/misc/isa.c:482-506 | after andq and xorq nothing overflows, and conditions 1 to 6 compare the result with 0 |
| Isa.AlwaysHolds | lab6/misc/isa.c:590-622 | condition 0 always holds, and codes above 6 never |
| Isa.AndWithItself | lab6/misc/isa.c:460-480 | andq of a register with itself leaves it and tells whether it is 0 |
| Isa.FetchErrors | lab6/misc/isa.c:627-674 | which error the bytes at pc alone give rise to: no byte, no instruction, no register byte, a constant that is cut off |
| Isa.Machine.StepState | lab6/misc/isa.c:627-943 | the in-place step makes the change and returns the status of the functional step, exceptions included |
| Isa.Machine.ExecuteOnRegisters | lab6/misc/isa.c:627-943 | the branches for instructions that do not touch memory |
| Isa.Machine.ExecuteOnMemory | lab6/misc/isa.c:627-943 | the branches for loads, stores, calls and the stack |
| Psim.Simulator.FetchOpcode | lab6/pipe/psim.c:1387-1437 | the opcode byte, a nop outside memory, and an error unless the byte five places on is inside as well |
| Psim.Simulator.DoIfStage | lab6/pipe/psim.c:1387-1437 | fetch fills the next decode register and the predicted pc from the memory and the selected pc |
| Psim.Simulator.DoMemStage | lab6/pipe/psim.c:1537-1570 | the memory stage's reads, its pending write and the status it passes on |
| Psim.Simulator.DoExStage | lab6/pipe/psim.c:1491-1529 | the execute stage's result and the pending condition codes |
| Psim.Simulator.DoIdWbStages | lab6/pipe/psim.c:1452-1481 | decode with forwarding and the pending register writes |
| Psim.Simulator.DoStallCheck | lab6/pipe/psim.c:1580-1601 | the operation of every pipeline register |
| Psim.Simulator.UpdateStateInPlace | lab6/pipe/psim.c:597-648 | pending writes take effect under their flags, memory to dstM after dstE |
| Psim.Simulator.UpdatePipesInPlace | lab6/pipe/psim.c:1279-1307 | five assignments, one for each pipeline register, load it, keep it or empty it as its operation says |
| Psim.Simulator.SimStepPipe | lab6/pipe/psim.c:687-743 | one cycle in place is one cycle of the functional simulator, counters included, which an instruction with the code I_POP2 does not move |
| Psim.Simulator.SimRunPipe | lab6/pipe/psim.c:755-773 | the run loop with its two limits is the functional run |
| Sequential.DecodersAgree | lab6/misc/isa.c:627-674 | the fetch stage and the instruction-set model find the same fields in every complete instruction |
| Sequential.StagesExecuteIsa | lab6/pipe/psim.c:1387-1570 | one instruction pushed through the stage functions alone has the model's status if and only if it is alike, a condition on its bytes and the stack pointer, and then its effect if it completes |
| Sequential.ExceptionCommitsNoMemory | lab6/pipe/pipe-std.c:146-153 | an excepting instruction changes neither memory nor condition codes |
| StageLemmas.ForwardingIsInOrder | lab6/pipe/pipe-std.c:98-118 | for a register 0..14 the forwarded value is what the register file holds once the instructions in E, M and W have written back in order |
| StageLemmas.FetchUnaffected | lab6/pipe/psim.c:1387-1437 | a store that misses the bytes that are fetched, or any store if the probe at offset 5 fails, does not change how an instruction is fetched |
| StageLemmas.StrayDecides | lab6/pipe/pipe-std.c:65-118 | operands that are the instruction's but for a stray value are its own if and only if every operand has a register or the stray value is 0 |
| PipeInvariant.FetchEarly | lab6/pipe/psim.c:1387-1437 | fetching from a memory in which the stores of instructions in flight are still to be made finds the instruction the sequential run executes |
| PipeStep.StrayValue | lab6/pipe/pipe-std.c:98-118 | the value forwarded for the code of no register, from the states of the instructions before |
| PipeStep.RetiredFromExecute | lab6/pipe/pipe-std.c:98-118 | the register file of an instruction in decode is the current one with three write-backs still to come |
| PipeStep.NextFlags | lab6/pipe/pipe-std.c:146-153 | condition codes change in program order and not in the shadow of an exception |
| PipeStep.Hazards | lab6/pipe/pipe-std.c:223-260 | the stall and bubble conditions recognise just the load-use, misprediction and return hazards of the instructions in flight |
| PipeStep.NextFetch | lab6/pipe/pipe-std.c:9-14 | the fetch register keeps its prediction under a hazard and takes the next one otherwise |
| PipeStep.StepTimely | lab6/pipe/psim.c:687-743 | every instruction is in its stage in exactly the cycle computed for it, one bubble after a load-use, two after a misprediction, three after a return |
| PipeStep.StepKeepsInv | lab6/pipe/psim.c:687-743 | a cycle keeps the invariant that ties each pipeline register to the sequential run of the stage functions, whether or not the model agrees with that run |
| PipeTheorems.NoConflictingControls | lab6/pipe/psim.c:1580-1592 | stall and bubble are never both raised, whatever the registers hold, so the error state is unreachable |
| PipeTheorems.CycleIsAdvance | lab6/pipe/psim.c:687-743 | a cycle of the simulator depends only on the pipeline registers, registers, memory and condition codes |
| PipeTheorems.AnyRoomIsEnough | lab6/pipe/psim.c:687-743 | with room for three instructions the limit does not change what a cycle does |
| PipeTheorems.RunsAgree | lab6/misc/isa.c:627-943 | the pipeline's stage functions, one instruction at a time, run like the instruction-set model up to the first instruction not yet fetched, and give each the same cycles |
| PipeTheorems.InvariantHolds | lab6/pipe/psim.c:687-743 | the invariant holds after n cycles of every run from reset, whatever instructions are fetched later |
| PipeCorrect.EveryCycleRefines | lab6/pipe/psim.c:687-743 | after every cycle the registers are the model's before the one instruction due in write back, memory and condition codes those after the one or two completing ones ahead |
| PipeCorrect.DueIsUnique | lab6/pipe/psim.c:687-743 | in no cycle are two instructions due in write back |
| PipeCorrect.DueIsVisible | lab6/pipe/psim.c:687-743 | whichever instruction the model's run puts into write back, the visible state is the one before it |
| PipeRuns.CycleBounds | lab6/pipe/pipe-std.c:223-260 | instruction k is in write back after 4 + (k + 1) cycles and its bubbles, at most three for each instruction |
| PipeRuns.InWriteBackOnTime | lab6/pipe/psim.c:687-743 | in the cycle computed for it write back holds instruction k with the model's results |
| PipeRuns.AokUntil | lab6/pipe/pipe-std.c:212-216 | the processor status is AOK until the exception reaches write back |
| PipeRuns.ExceptionIsPrecise | lab6/pipe/psim.c:687-743 | when the model halts or faults at instruction k, the pipeline shows that status in a known cycle with exactly the model's registers, memory and condition codes |
| PipeRuns.NothingToUpdate | lab6/pipe/psim.c:687-703 | when the exception is in the memory or the execute stage, the updates of memory and condition codes that a near limit holds back would change nothing |
| PipeRuns.StatusExactly | lab6/pipe/psim.c:687-743 | behind instructions that are alike, the processor's status in the cycle of the next one is the model's if and only if that one is alike too |
| PipeRuns.RunStopsAtException | lab6/pipe/psim.c:755-773 | the run loop stops in exactly that cycle, for all limits that reach so far |
| PipeRuns.CountersExact | lab6/pipe/psim.c:731-739 | the performance counters count the instructions that have reached write back, without one whose code is I_POP2, and the cycles since the first that counts |
| PipeRuns.CyclesPerInstruction | lab6/pipe/psim.c:1088-1098 | at the exception all k + 1 instructions are counted if and only if the faulting byte is not that of I_POP2; the cycles are one for each and its bubbles, at most four for each |
| PipeRuns.Pop2CountsNothing | lab6/pipe/psim.c:731-739 | a program that starts with a byte 0xD0 to 0xDF ends with an invalid instruction, and neither instruction nor cycle is counted |
| PipeRuns.OperandsAreArchitectural | lab6/pipe/pipe-std.c:65-118 | on every run each operand an instruction takes out of decode is the model's, with up to three older instructions still to write, if and only if none lacks a register or the stray value is 0 |
| PipeCheck.ExceptionEffect | lab6/misc/isa.c:830-943 | an excepting step changes registers if and only if it is a stack fault, and nothing else |
| PipeCheck.DiffMem | lab6/misc/isa.c:163-181 | the word-by-word comparison finds a difference exactly if there is one |
| PipeCheck.RunIsa | lab6/pipe/psim.c:234-269 | the model's half of the check runs to its exception |
| PipeCheck.CheckAgainstIsa | lab6/pipe/psim.c:234-269 | with any limit that the pipeline's cycles do not exceed, the comparison of the two runs succeeds if and only if the run does not end in a stack fault |
| PipeExamples.NopsAreSupported | lab6/pipe/psim.c:1387-1437 | whatever follows n nops, the conditions of the theorems are met for n + 1 cycles |
| PipeExamples.NopsThenHalt | lab6/pipe/psim.c:1387-1437 | programs of every length meet them in every cycle |
| PipeExamples.HazardsAreSupported | lab6/pipe/pipe-std.c:223-260 | a program with a load-use pair, a mispredicted jump and a return meets them, takes one, two and three bubbles for these and halts in cycle 16 |
| PipeExamples.HazardsExist | lab6/pipe/pipe-std.c:223-260 | there is a memory that holds that program |
| PipeExamples.IaddqIsNotAlike | lab6/misc/isa.c:908-932 | an iaddq at address 0: the model completes it, and the pipeline reports an invalid instruction |
| PipeExamples.JumpAtTheEnd | lab6/pipe/psim.c:1387-1437 | a jump in the last five bytes of memory is supported, with an address error on both sides |
| PipeExamples.PushFaults | lab6/misc/isa.c:830-943 | a push with the stack pointer 0 is supported and ends in a stack fault, at which the comparison of the two runs fails |
| PipeExamples.StrayBaseRegister | lab6/pipe/pipe-std.c:98-118 | a load from the absolute address 0 behind a store to 40: the pipeline's base is 40, the model's 0 |
| PipePatches.PatchInTime | lab6/pipe/psim.c:687-743 | a store into the instruction behind a mispredicted jump is supported, and the new instruction is executed |
| PipePatches.PatchTooLate | lab6/pipe/psim.c:687-743 | a store into the next instruction: the model halts there, and in that cycle the processor's status is AOK |
| Rings.InsertedRing | lab7/mm7.c:152-171 | linking a node behind the header gives a well-formed circular list with the node in front |
| Rings.RemovedRing | lab7/mm7.c:174-178 | unlinking a node gives a well-formed circular list of the others |
| Layouts.BlockWords | lab7/mm7.c:319-338 | the adjusted size has room for the request and wastes less than 8 bytes |
| Layouts.Pack | lab7/mm7.c:47-49 | size and allocated bit are recovered from a packed word |
| Layouts.TagBits | lab7/mm7.c:46-52 | in a tag the size in bytes is what the three lowest bits leave |
| HeapOps.InsertRepresents | lab7/mm7.c:152-171 | inserting a block keeps tags, payloads and the other lists, and the list is complete again |
| HeapOps.RemoveRepresents | lab7/mm7.c:174-178 | removing a block keeps tags, payloads and the other lists |
| HeapOps.JoinRepresents | lab7/mm7.c:181-212 | one pair of tags turns joinable neighbours into one block of a tiling |
| HeapOps.SplitRepresents | lab7/mm7.c:215-232 | two pairs of tags turn a block into two |
| HeapOps.AppendRepresents | lab7/mm7.c:235-248 | the words the heap grows by become a block before a new epilogue |
| HeapOps.StretchRepresents | lab7/mm7.c:379-382 | the last block may take over the words the heap grows by |
| HeapFacts.RingWalk | lab7/mm7.c:252-264 | going right from the header visits the free blocks of the group once and returns |
| HeapFacts.PayloadIsPrivate | lab7/mm7.c:319-338 | a live payload is 8-aligned, inside the heap and apart from every other block, every tag and every link |
| HeapFacts.MovedBytes | lab7/mm7.c:398-405 | the payload survives allocation of the new block, copying and freeing of the old one |
| Mm7.GroupBytes | lab7/mm7.c:152-171 | blocks up to 48 bytes are in the first group, up to 432 in the second, all others in the third |
| Mm7.GrowthBytes | lab7/mm7.c:252-276 | the heap grows by the request, or by 48 or 432 bytes if that is more |
| Mm7.Allocator.MmInit | lab7/mm7.c:281-314 | a valid heap with no live block and one free block of the least group, or failure if there is no memory for the prologue |
| Mm7.Allocator.InsertFreeBlock | lab7/mm7.c:152-171 | the block is at the front of the list of its size, everything else is unchanged |
| Mm7.Allocator.RemoveFreeBlock | lab7/mm7.c:174-178 | the block is off its list, everything else is unchanged |
| Mm7.Allocator.Coalesce | lab7/mm7.c:181-212 | all four cases: the merged block spans exactly the free neighbours and is on the list of its size |
| Mm7.Allocator.Place | lab7/mm7.c:215-232 | the block is allocated, and what is left over is free and listed if it is large enough |
| Mm7.Allocator.ExtendHeap | lab7/mm7.c:235-248 | the words written when the heap grows, or nothing at all if there is no room |
| Mm7.Allocator.SearchGroup | lab7/mm7.c:252-264 | the first block of the group's list that is large enough; NULL if and only if there is none |
| Mm7.Allocator.FindFitGroup | lab7/mm7.c:252-264 | a fitting block; the heap grows if and only if the group has none, and only then it needs room |
| Mm7.Allocator.FindFit | lab7/mm7.c:267-276 | the same for the group of the request's own size |
| Mm7.Allocator.MmMalloc | lab7/mm7.c:319-338 | a new live block with room for the request and less than a least block to spare, the first fit of its group or new words of the heap; all other live blocks keep place, size and payload |
| Mm7.Allocator.MmFree | lab7/mm7.c:343-349 | the block is free and merged with exactly its free neighbours; all live blocks keep place, size and payload |
| Mm7.Allocator.CutOff | lab7/mm7.c:369-377 | a live block cut down, with its rest freed and merged |
| Mm7.Allocator.GrowLast | lab7/mm7.c:379-382 | the last block grown in place |
| Mm7.Allocator.GrowInto | lab7/mm7.c:383-397 | a block grown over its free successor |
| Mm7.Allocator.Memcpy | lab7/mm7.c:402 | the bytes are copied, down to the last partial word, and no other word changes |
| Mm7.Allocator.MmRealloc | lab7/mm7.c:354-408 | in every branch the first min(old, new) payload bytes are kept, all other live blocks are untouched, less than a least block is wasted, and the block moves only if it can neither shrink nor grow where it is |
| Mm5.OffsetIsLeast | lab7/mm5.c:227-284 | a size belongs to the list whose bound is the least power of two, from 16 bytes to a megabyte, that is not below it, or to the last |
| Mm5.PushedHolds | lab7/mm5.c:291-308 | inserting at the front keeps all eighteen lists well formed |
| Mm5.DroppedHolds | lab7/mm5.c:313-334 | removing any node keeps all eighteen lists well formed |
| Mm5.SkippedAreSmall | lab7/mm5.c:339-358 | the lists that a search skips have no block that is large enough |
| Mm5.FreeLists.constructor | lab7/mm5.c:114-116 | eighteen well-formed lists without a node |
| Mm5.FreeLists.InsertList | lab7/mm5.c:291-308 | the block is at the front of the list of its size |
| Mm5.FreeLists.DeleteList | lab7/mm5.c:313-334 | the block is off its list, in all four cases |
| Mm5.FreeLists.FindFit | lab7/mm5.c:339-358 | NULL if and only if no listed block of any size class is large enough; otherwise the first fit of the smallest class that has one |
| Implicit.SpliceHolds | lab7/mm.c:57-124 | replacing blocks by others of the same total size, with their tags, leaves a well-formed heap |
| Implicit.MergedNotAdjacent | lab7/mm.c:57-89 | after merging no two free blocks are adjacent |
| Implicit.BoundaryAfterMerge | lab7/mm.c:84-88 | the roving pointer is still the start of a block after merging, moved only if it was inside |
| NextFit.Allocator.Coalesce | lab7/mm.c:57-89 | the row of blocks after merging, and the roving pointer, which moves only if it was inside the merged block |
| NextFit.Allocator.Place | lab7/mm.c:110-124 | the free block split at exactly the size asked for; the roving pointer stays at its block |
| NextFit.Allocator.ExtendHeap | lab7/mm.c:93-106 | the heap grown and the new block merged with a free last block, or nothing if there is no room; the roving pointer stays |
| NextFit.Allocator.Search | lab7/mm.c:140-157 | the first fit going round from the roving pointer; NULL if and only if no free block fits, and then `end` is the last block |
| NextFit.GrownParts | lab7/mm.c:173-193 | growing by what a free last block lacks gives a block of exactly the size asked for |
| NextFit.Allocator.NormMalloc | lab7/mm.c:173-193 | which block serves the request and how far the heap grows, in all three cases, or NULL for want of room; the roving pointer is at the block found, and stays where it was if none fits |
| NextFit.Allocator.MmMalloc | lab7/mm.c:274-347 | the block has room for the request and other live blocks keep their payload; the roving pointer is at it if a block fitted, and stays otherwise |
| NextFit.NextFitGoesOn | lab7/mm.c:140-193 | two requests in turn: the second is served by the first fit going round from the block that the first one got |
| NextFit.FreedIsPassedBy | lab7/mm.c:140-193 | malloc(8) twice, free of the first, malloc(8): the last is served at byte 48, although the block at 16 fits |
| NextFit.LackingBytes | lab7/mm.c:173-193 | the heap grows by the bytes that a free last block lacks, or by the request or 4096 bytes, whichever is more |
| NextFit.Allocator.MmFree | lab7/mm.c:263-271 | the block is free and merged; NULL is ignored; the roving pointer stays at its block or at the one that took it in |
| NextFit.Allocator.Shrink | lab7/mm.c:364-371 | the block keeps place and payload, the rest is free and merged, and where the roving pointer is then |
| NextFit.Allocator.MmInit | lab7/mm.c:236-254 | prologue, epilogue and one free chunk, the roving pointer at the start; or failure for want of room |
| HclTree.ConcatAssociative | lab6/misc/node.c:187-196 | joining node lists is associative, so that left-recursive grammar rules build the list in order |
| HclTree.BooleanIsBit | lab6/misc/node.c:238-272 | every expression accepted as Boolean evaluates to 0 or 1 |
| HclTree.FirstOfName | lab6/misc/node.c:133-150 | the first symbol of a name is found, if there is one |
| HclTree.AcceptsExactly | lab6/misc/node.c:238-315 | the checks made while nodes are built accept exactly the expressions that are well typed, a notion without nodes |
| HclList.Concat | lab6/misc/node.c:187-196 | writing the last link of the first list in place joins the two lists and changes no other node |
| HclRead.ElementPerNode | lab6/misc/node.c:566-586 | each node of a list is printed as one element |
| HclRead.ReadBack | lab6/misc/node.c:187-315 | the nodes built for an expression are what the generator takes the expression to be if and only if every case expression inside a set is one row and last or unconditional |
| HclGenerates.GeneratesExactly | lab6/misc/node.c:479-643 | code is generated without an error if and only if every symbol that is visited is declared and there is a node wherever one is needed, told from the expression |
| HclGenerates.ProperGenerates | lab6/misc/node.c:479-643 | for proper expressions that is just that their symbols are declared, but for rows behind a condition 1 |
| HclText.NodeExactly | lab6/misc/node.c:566-636 | an element of a set, in front of any list, is printed as it is meant if and only if it is printable and, for a case expression not ended by a condition 1, what follows prints like its end |
| HclText.TextExactly | lab6/misc/node.c:479-643 | where code is generated, an expression is printable (every case expression in a set is one row which has the condition 1, or is last, or has something behind it that prints like its end) if and only if the code is the text that is meant and no case without rows is in a set |
| HclText.ProperIsPrintable | lab6/misc/node.c:187-315 | expressions that the generator takes for what they are print as what they are |
| HclCorrect.GenIsText | lab6/misc/node.c:479-643 | for nodes read as an expression code is generated if and only if its symbols are declared, and it is the expression's text |
| HclCorrect.TextParses | lab6/misc/node.c:479-643 | the text, whatever follows it, parses by C precedence (section 6.5 of ISO/IEC 9899:2011) to the intended syntax tree |
| HclCorrect.TreeMeans | lab6/misc/node.c:479-643 | that tree evaluates to the value of every expression accepted by the type checks |
| HclCorrect.CodeIsCorrect | lab6/misc/node.c:479-643 | for every accepted printable expression that the generator gets through, code is generated, and it is one C expression with the expression's value, for all values of the symbols |
| HclCorrect.CaseInSetGoesWrong | lab6/misc/node.c:301-308 | an expression accepted by the checks whose code finds a value in a set that is not there |
| HclCorrect.MisreadButPrinted | lab6/misc/node.c:566-636 | an expression that the generator takes for another one and that prints as it is meant |
| HclCorrect.EmptyElementFilledIn | lab6/misc/node.c:566-636 | a set with a case expression without rows, whose text is the one that is meant although no element prints as it should |
| Assembly.AlignIsNextMultiple | lab6/misc/yas.c:364-379 | an alignment leads to the least multiple that is not before the position |
| Assembly.NextLine | lab6/misc/yas.c:305-443 | a line leads on by the bytes of its instruction, and .pos to its number |
| Assembly.CutToInt | lab6/misc/yas.c:345-379 | the number of a directive is cut to the congruent one of 32 bits |
| Assembly.DivisionCutsOff | lab6/misc/yas.c:364-379 | the division in .align cuts off towards 0 |
| Assembly.OperandsAsWritten | lab6/misc/yas.c:205-291 | the operands of every mnemonic are read if and only if they are written with its tokens, punctuation and order, labels and optional address parts included |
| Assembly.LabelIsStart | lab6/misc/yas.c:505-522 | a label is found if and only if some line defines it, and stands for the start of the first such line |
| Assembly.DecodesAsAssembled | lab6/misc/isa.c:627-674 | the instruction-set model decodes the assembled bytes to the mnemonic's codes, the registers, the constant and the next address |
| Assembly.EncodingBytes | lab6/misc/isa.c:62-106 | byte by byte the encoding of every instruction, with its opcode as a number |
| Effects.OverflowIsExact | lab6/misc/isa.c:460-506 | result and flags of all four operations: the overflow flag is set if and only if the exact sum or difference is not a word |
| Effects.PerformsByName | lab6/misc/isa.c:627-943 | what every mnemonic does to registers, memory, flags and pc, errors included, told without its code |
| Effects.AssembledPerforms | lab6/misc/isa.c:627-943 | where memory holds the bytes of an instruction, a step performs just that |
| Effects.CompareAndJump | lab6/misc/isa.c:590-622 | a conditional jump behind subq compares two registers as signed words, and behind andq or xorq the result with 0, as its name says |
| Assembler.TableIsFormat | lab6/misc/isa.c:62-106 | the operand kinds and places in the instruction table produce the instruction format for every mnemonic, and fail exactly for unreadable operands |
| Assembler.Assembler.FindSymbol | lab6/misc/yas.c:514-522 | the first symbol of that name, or an error |
| Assembler.Assembler.GetReg | lab6/misc/yas.c:205-223 | the register goes to its half of its byte and the other half stays |
| Assembler.Assembler.PutNumber | lab6/misc/yas.c:241-242 | the loop writes the number's low bytes, lowest first |
| Assembler.Assembler.GetNum | lab6/misc/yas.c:227-243 | a number or a label's position in little-endian order, or an error |
| Assembler.Assembler.GetMem | lab6/misc/yas.c:255-291 | optional displacement and optional base register, or an error |
| Assembler.Assembler.Instruction | lab6/misc/yas.c:378-441 | the room an instruction takes in both passes, and its listing line or an error in the second |
| Assembler.Assembler.FinishLine | lab6/misc/yas.c:305-443 | the effect of a line on position, symbols, errors and output in either pass |
| Assembler.Assembler.FirstPass | lab6/misc/yas.c:602-608 | positions and symbol table of the first pass, and an error exactly for an ill-formed line |
| Assembler.Assembler.SecondPass | lab6/misc/yas.c:610-624 | every line starts where it did in the first pass; the listing, and an error exactly for a line that is not good |
| Assembler.Assembler.Assemble | lab6/misc/yas.c:548-624 | both passes succeed if and only if the program assembles, and then print its listing |
| Assembler.FourDigits | lab6/misc/yas.c:133-152 | the addresses that can be printed are those of four hexadecimal digits |
| Listing.DigitsInOrder | lab6/misc/yas.c:122-131 | the digits are 0 to 9 and a to f |
| Listing.HexStuff | lab6/misc/yas.c:122-131 | digits written from the lowest backwards are the hexadecimal number, and no other character changes |
| Listing.PrintCode | lab6/misc/yas.c:133-190 | the template filled in place is the listing line, for three- and four-digit addresses |
| Listing.LoadBytesInto | lab6/misc/isa.c:254-270 | pairs of digits are stored one after the other until they end or memory does |
| Listing.LoadLineInto | lab6/misc/isa.c:211-270 | a line's address is read and its bytes are stored, or the error is reported |
| Listing.LoadMem | lab6/misc/isa.c:194-300 | the memory after all lines, or failure |
| Listing.PrintedIsLoaded | lab6/misc/isa.c:194-300 | loading a printed line stores exactly its bytes at its address |
| Listing.EmptyIsNotLoaded | lab6/misc/isa.c:217-223 | a printed empty line stores nothing |
| AsmCorrect.ListingIsLoaded | lab6/misc/yas.c:133-190 | loading the whole listing stores exactly the assembled bytes in order |
| AsmCorrect.CodeStays | lab6/misc/yas.c:305-443 | a line's bytes are in the loaded memory unless a later line overwrites them |
| AsmCorrect.SourceIsDecoded | lab6/misc/isa.c:627-674 | at the start of every instruction line the loaded memory decodes to the instruction and operands that the source line names |
| AsmCorrect.SourceIsExecuted | lab6/misc/isa.c:627-943 | and a step of the model there does what the mnemonic's name says with the operands as they are written |
| AsmCorrect.LabelOperand | lab6/misc/yas.c:227-243 | a label operand, forward or backward, is the start of the one line that defines it |
| Lru.LineFrom | lab8/csim.c:110-119 | the first line that holds the tag |
| Lru.StoreFrom | lab8/csim.c:123-140 | the first invalid line, or a line with the least time if all are valid |
| Lru.SinceIsAhead | lab8/csim.c:123-147 | a tag's place in the order of use lists exactly the tags used since |
| Lru.HoldsRecentTags | lab8/csim.c:110-147 | if the clock does not go back and its ties are harmless, a set of n lines holds a tag if and only if it was used and fewer than n other tags have been used since |
| Lru.LruExactly | lab8/csim.c:123-147 | with a clock that does not go back, that holds after every access, for all tags, if and only if the times increase strictly between the second access and the n-th last, or n is 1 |
| Lru.MisleadingFails | lab8/csim.c:123-147 | for any other times, the tags and the access at which it fails |
| Lru.MoreLinesHoldMore | lab8/csim.c:110-147 | the contents for n lines are contained in those for more, each run with a clock of its own |
| Lru.EqualTimesBreakLru | lab8/csim.c:143-147 | an instance: four accesses at one time into two lines, after which a tag used more recently than one that is held is not held |
| Csim.AddressBits | lab8/csim.c:38-39 | set index and tag are the bits b to b + s - 1 of the address and the 64 - s - b bits above |
| Csim.SameBlock | lab8/csim.c:202-203 | two addresses have the same set and tag if and only if they are in the same block of 2^b bytes |
| Csim.SameBlockHits | lab8/csim.c:183-230 | an access to the block of the access right before is a hit |
| Csim.NewBlockMisses | lab8/csim.c:183-230 | the first access to a block is a miss, under any clock |
| Csim.SetsAreIndependent | lab8/csim.c:183-230 | each set is what its own accesses make of it |
| Csim.EverySetIsLru | lab8/csim.c:183-230 | the same characterisation for every set after every trace; the clock need only serve the accesses to that set |
| Csim.TickingServes | lab8/csim.c:183-230 | a clock that advances from each access to the next serves every set |
| Csim.MoreLinesHitMore | lab8/csim.c:183-230 | with more lines in each set no run over the same accesses has fewer hits or more misses, each with a clock of its own that serves every set |
| Csim.NothingIsLost | lab8/csim.c:183-230 | under any clock, hits plus misses count loads and stores once and modifications twice, and misses are evictions plus valid lines |
| Csim.Simulator.FindLine | lab8/csim.c:110-119 | the search loop finds the first line with the tag |
| Csim.Simulator.FindStore | lab8/csim.c:123-140 | the loop finds the line to fill and says whether it evicts |
| Csim.Simulator.UpdateCache | lab8/csim.c:143-147 | one line changes and nothing else |
| Csim.Simulator.DealWith | lab8/csim.c:192-229 | one access in place, with its counters |
| Csim.Simulator.DealWithFile | lab8/csim.c:183-230 | the loop over a trace is the functional run |
| Transpose.Park | lab8/trans.c:65-76 | the first pass puts half of a block in place and parks the other half to the right of it |
| Transpose.UnparkRow | lab8/trans.c:78-105 | a row hands down what is parked in it and gets its own elements |
| Transpose.Unpark | lab8/trans.c:78-105 | the second pass completes the block and touches nothing outside of it |
| Transpose.TransposeSubmit | lab8/trans.c:59-108 | B is the transpose of A, for every 64x64 matrix |
| Transpose.Trans | lab8/trans.c:133-143 | so it is after the plain loops, for matrices of any size |
| Transpose.IsTranspose | lab8/trans.c:167-179 | the check answers yes if and only if B is the transpose of A |
| Rio.TakenDelivers | lab10/csapp.c:805-830 | a short read takes a prefix of what the descriptor delivers |
| Rio.LineLength | lab10/csapp.c:871-893 | the length of a line: to the first newline, the limit or the end of the data |
| Rio.ServedMore | lab10/csapp.c:849-864 | successive pieces of a stream add up to one piece, whichever calls fetched them |
| Rio.Descriptor.Read | lab10/csapp.c:805-830 | what one call of read can do: a short read, end of file, an interruption, a failure |
| Rio.Reader.Refill | lab10/csapp.c:805-820 | interruptions are invisible; the buffer is filled, or the end of file or the failure is reported |
| Rio.Reader.RioRead | lab10/csapp.c:805-830 | the next bytes of the stream, at least one if there are any |
| Rio.Reader.ReadNb | lab10/csapp.c:849-864 | exactly the next n bytes of the stream, or all there are; what follows stays for the next call |
| Rio.Reader.ReadLineB | lab10/csapp.c:871-893 | exactly the next line of the stream, ended by a zero byte; what follows stays for the next call |

## Left out

- PipeTheorems.InvariantHolds: programs that overwrite an instruction after it has been fetched, or whose operands without a register take a stray value, are not covered by the invariant, because the pipeline does not execute them one instruction after the other.
- Psim.Simulator.SimStepPipe: the graphical display, the log and the report of each cycle are not modelled; one register bubble of the program is initialised a value short, and the missing one is taken as 0 as C does.
- PipeCheck.CheckAgainstIsa: exceptions that are stack faults make the comparison fail; that is stated, and not repaired. Runs that a limit cuts off before the exception are not covered.
- Mm7.Allocator.MmMalloc: where no listed block fits, requires that the heap can grow, since the program uses the result of a failed `extend_heap` as a block (`Mm7.HasRoom`).
- Mm7.Allocator.MmRealloc: likewise requires room exactly in the branches that grow the heap (`Mm7.HasRoomAt`).
- Mm7.Allocator.MmInit: a memory with room for the prologue but not for the first block is excluded, since the program lists the NULL that it gets then.
- Mm7.Allocator.constructor: the storage stands for the memory of `lab7/memlib.c`; the consistency checker `mm_check`, which marks blocks in place, is not modelled.
- NextFit.Allocator.MmMalloc: the paths of `lab7/mm.c` made for particular traces are left out, as are its in-place growing branches of `mm_realloc`.
- HclCorrect.CodeIsCorrect: one direction only, as an expression that is not printable may still have the right value, like `v in {[b:x; 1:x;]}`. Numbers are taken by value, so a literal with a leading zero, which C reads as octal, is not modelled; the text given for a symbol counts as one C expression; line breaks are not modelled.
- HclText.TextExactly: for sets with a case expression without rows it only says that they are not printable; what they print may still be the text that is meant by accident (`HclCorrect.EmptyElementFilledIn`).
- HclTree.BooleanIsBit: the symbol table's limit of 100 entries and its reference counts are not modelled.
- HclList.Concat: the proofs about whole expressions use lists as values; that joining in place agrees with them is stated for the list alone.
- Assembler.Assembler.FinishLine: lines come as tokens; the scanner, its errors, the limit of twelve tokens on a line, and the Verilog output are not modelled. What the second pass prints for a line with an error is not stated.
- Listing.LoadBytesInto: `isa.c` only tests that an address is not at or beyond the end, so that 16 digits with the top bit set are a negative address that passes; the model reports an error for every address outside memory.
- Listing.LoadLineInto: the same.
- Listing.LoadMem: the count of bytes it returns and the memory after an error are not stated, and lines are shorter than its buffer.
- Lru.HoldsRecentTags: tags are taken to fit into a C int.
- Csim.Simulator.DealWithFile: the trace comes as a list of accesses with the clock's values; parsing and the verbose report are left out.
- Transpose.TransposeSubmit: only the 64x64 case; the 32x32 case keeps a block in local variables, and the 61x67 case runs past the matrix.
- Rio.Descriptor.Read: the behaviour of the system call is any finite list of outcomes, so that a reader interrupted for ever is not modelled.
- Mm5.FreeLists.FindFit: speaks of the listed blocks; that the blocks of `lab7/mm5.c` tile the heap, its coalescing, placement and `realloc` are not modelled, as they repeat those of `lab7/mm.c` and `lab7/mm7.c`.
- `lab6/pipe/pipe-full.c` and `lab6/seq/seq-full.c`: variants of the control logic modelled here.
- The shells, proxies and bit puzzles of the other labs.
