# Verified model of the Cairo VM in C

This project models three connected parts of cairo-vm.c in Dafny and proves what they promise:

- the **write-once segmented memory** (`src/memory.c`, `src/relocatable.c`): inserts, bulk loads, segment
  creation, the printing traversal, and the heap blocks behind the table;
- the **runner's initialisation** (`src/cairo_runner.c`): segments, call frame, registers, and the two bulk
  loads whose results are thrown away;
- the **instruction decoder and byte codecs** (`src/decoder.c`, `src/utils.c`, `src/instruction.c`): masks,
  shifts and byte loops, with the decoder as a bijection.

`dafny verify dfyconfig.toml` checks the whole project.

## How the model is built

*Integers.* `unsigned int`, `uint16_t` and `uint64_t` are bounded integers (`Words.dfy`); every addition
that C reduces modulo 2^32 is written with `Wrap32`. C's shifts and `&`, `|` are defined on the binary
digits of naturals (`Bits.dfy`) and related to division and remainder by lemmas. The buffers of the codecs
are arrays, their loops are loops.

*Memory.* `Memory.Memory` and `HashTable.Table` are classes. The table is a sequence of entries, each
pointing to a key block and a value block, searched with `KeyCompare`; `malloc` and `free` act on the set of
live blocks of `Heap.Allocator`, and `free` needs a live block. `MemoryModel.MemoryState` is the value that
these objects represent: the segment counter, a finite map of cells, and the number of calls of
`cc_hashtable_add` so far. Whether the k-th such call finds storage is given by an arbitrary
`AddSchedule: nat -> bool`; the theorems hold for every pattern of failures and say with `AddsSucceed` which
additions matter; only `Accounting.RunAddsCells` and
`Reachability.NewSegmentTakesDataExactly` speak of runs in which none fails.

*Runner.* `Runner.Runner` is a class over the memory object; `RunnerModel` gives each step as a function of
the represented value, and keeps the results of the two ignored loads so that theorems can speak of them.

## What turned out different from the comments and the documentation

- **Ignored load errors** (`src/cairo_runner.c:33-35` calls them unreachable). They are reachable in three
  ways: the 2^30-th `runner_initialize` on one runner wraps the segment counter to zero and its stack is
  refused; a program of more than 2^32 elements may disagree with itself after the offset wraps; and the table
  may find no storage for a cell. `RunnerTheorems.IgnoredLoadsSucceedExactly` gives the exact condition for
  every `runner_initialize` of every run, whatever the program and the storage, `EntryPoints.EntrySucceedsExactly`
  and `EntryPoints.EntryRunSucceedsExactly` for a function entry with any caller's stack, and
  `RunnerTheorems.IgnoredLoadCanFail` a run that fails with any storage.
- **A new segment is new** (`README.md:171`). Exactly until the counter wraps, or when it stands at
  2^32 - 1, a segment that no write can reach: `Reachability.NextSegmentIsFreshExactly`. It takes any data for
  one creation less: `Reachability.NewSegmentTakesDataExactly`.
- **A bulk load returns the next free slot** (`README.md:179`). It returns the slot after the data, which is
  free exactly when it was free before and the data is shorter than a segment:
  `Loading.EndPointerIsFreeExactly`; `Reachability.EndPointerCanBeTaken` reaches a memory where it is not.
- **The wide byte codecs are inverses.** Only on the sets given by `U64LeRoundTrip`, `U64LeReencode`,
  `U64BeRoundTrip`, `U64BeReencode` and `U32LeRoundTrip`: the decoding loops shift the accumulator by `8 * i`
  in every round, and the 32-bit one accumulates in 16 bits. `u64_to_be_bytes` writes the same bytes as
  `u64_to_le_bytes`, so its output is big-endian only for palindromes (`U64BeWritesValue`), and
  `u64_from_be_bytes` reads the big-endian number only when that number is zero (`U64BeReadsValue`).
- **Printing shows the memory** (`src/memory.c:93-116`). The counter is converted to `int`, so a memory of 2^31
  segments or more prints nothing, and below that printing does not end on a segment that is written in full:
  `InitialState.RunIsVisited`, `InitialState.PrintingEndsExactly`.

## Model

| member | source | states |
|---|---|---|
| Bits.BitwiseOperators | src/utils.c:9-40 | `&` and `\|` as modelled act on each binary digit separately |
| Bits.FieldExtract | src/decoder.c:22-42 | masking and shifting by a run of ones reads that field as a quotient and remainder |
| ByteCodecs.U64ToLeBytes | src/utils.c:9-14 | fills the first 8 bytes with the value's base-256 digits, lowest first, and nothing else |
| ByteCodecs.U64ToBeBytes | src/utils.c:16-21 | leaves the same bytes in the same order as the little-endian writer |
| ByteCodecs.U16ToLeBytes | src/utils.c:46-51 | fills the first 2 bytes with the value's base-256 digits and nothing else |
| ByteCodecs.U32ToLeBytes | src/utils.c:66-71 | fills the first 4 bytes with the value's base-256 digits and nothing else |
| ByteCodecs.U64FromLeBytes | src/utils.c:23-30 | closed form of the loop: bytes 0 to 3 at weights 1, 2^8, 2^24, 2^48, the others lost |
| ByteCodecs.U64FromBeBytes | src/utils.c:32-40 | the loop, round by round, leaves byte 7 alone, at weight 2^56 |
| ByteCodecs.U16FromLeBytes | src/utils.c:53-60 | the number that the two bytes denote |
| ByteCodecs.U32FromLeBytes | src/utils.c:73-80 | closed form of the loop with a 16-bit accumulator: only bytes 0 and 1 survive |
| ByteCodecs.LeBytesDenoteValue | src/utils.c:9-14 | the bytes written denote the value again when it fits |
| ByteCodecs.U64LeReadsValue | src/utils.c:23-30 | the reader returns the denoted number exactly when bytes 2 to 7 are zero |
| ByteCodecs.U64LeRoundTrip | src/utils.c:9-30 | decode after encode is the identity exactly for values below 2^16 |
| ByteCodecs.U64LeReencode | src/utils.c:9-30 | encode after decode is the identity exactly when bytes 2 to 7 are zero |
| ByteCodecs.U64BeRoundTrip | src/utils.c:16-40 | decode after encode is the identity exactly for multiples of 2^56 |
| ByteCodecs.U64BeReencode | src/utils.c:16-40 | encode after decode is the identity exactly when bytes 0 to 6 are zero |
| ByteCodecs.U64BeReadsValue | src/utils.c:32-40 | the reader returns the big-endian number exactly when all eight bytes are zero |
| ByteCodecs.U64BeWritesValue | src/utils.c:16-21 | the bytes written denote the value in big-endian order exactly when they are a palindrome |
| ByteCodecs.U32LeRoundTrip | src/utils.c:66-80 | decode after encode keeps the low 16 bits; encode after decode is the identity exactly when bytes 2 and 3 are zero |
| ByteCodecs.U16LeRoundTrip | src/utils.c:46-60 | the 16-bit pair is inverse in both directions |
| Decoder.DecodeOffset | src/decoder.c:3-18 | through both byte loops and the subtraction: (x mod 2^16) - 2^15 for every 64-bit x |
| Decoder.DecodeInstruction | src/decoder.c:20-248 | masks, shifts and switches compute the decoder given by division and remainder |
| Decoder.OptionsByFlags | src/decoder.c:49-247 | of every accepted word: each offset is its 16 bits less 2^15, and each option is named by its flag: registers, op1, res, pc, ap and fp update, opcode |
| Decoder.DecodeInvertsEncode | src/instruction.h:6-19 | every well-formed instruction is the decoding of its encoding |
| Decoder.EncodeInvertsDecode | src/decoder.c:44-247 | every accepted word decodes to a well-formed instruction whose encoding is that word |
| Decoder.DecodeIsInjective | src/decoder.c:44-247 | distinct accepted words decode to distinct instructions |
| Decoder.RefusalIsFirstFailure | src/decoder.c:44-208 | accepted exactly when bit 63 is clear and every option group has at most one bit set; otherwise the first failing check in source order is reported |
| Decoder.FieldsAreIndependent | src/decoder.c:44-208 | for any two words: acceptance and the reported error depend on bits 48-63 only; for accepted words each offset agrees exactly when its own 16 bits do, and the options exactly when bits 48-63 do |
| InstructionStream.WalkInvertsFlatten | src/instruction.c:3-8 | stepping by instruction size through the words of well-formed instructions ends at the end and finds the same instructions |
| InstructionStream.FlattenInvertsWalk | src/instruction.c:3-8 | any words that can be stepped through to the end are exactly the words of the instructions found |
| Relocatables.MaybeRelocatableEqual | src/relocatable.c:4-13 | the comparison is equality of values |
| Relocatables.FeltEqual | src/utils.c:3 | the limb comparison is equality of the four-limb values |
| Relocatables.KeyCompare | src/memory.c:10-14 | zero exactly for equal addresses |
| HashTable.Table.Get | src/memory.c:28-36 | the search over entries finds exactly what the represented map holds |
| HashTable.EntriesCountCells | src/memory.c:57-61 | one entry for each stored cell |
| HashTable.EntriesCountBlocks | src/memory.c:57-61 | two blocks for each entry, all different |
| HashTable.SelectedEntriesAreDistinct | src/memory.c:57-61 | entries with distinct keys taken from unshared pairs of blocks share no block |
| Memory.Memory.constructor | src/memory.c:16-26 | the empty memory, owning no block |
| Memory.Memory.Get | src/memory.c:28-36 | reads the represented map, an error exactly for unwritten addresses |
| Memory.Memory.Insert | src/memory.c:38-67 | refused, always with the insert error, exactly when the segment does not exist, another value is stored, or the address is free and the addition fails; otherwise the value is stored; no value altered, other blocks untouched, every block accounted for |
| Memory.Memory.AddSegment | src/memory.c:69-73 | hands out the counter and advances it with the 32-bit wrap |
| Memory.Memory.LoadData | src/memory.c:75-91 | succeeds exactly under the load condition, then holds exactly the old cells and the data; no value altered even on failure |
| Memory.Memory.VisitSegment | src/memory.c:96-113 | the inner loop ends and collects, in order from offset 0, the cells before the first unwritten offset |
| Memory.Memory.VisitCells | src/memory.c:93-116 | below 2^31 segments, visits in order exactly the stored cells of every segment below the counter that have only written offsets before them; from 2^31 segments on, none |
| Memory.Memory.Free | src/memory.c:118-129 | releases every key and value block of the table once, and no other block |
| Loading.BatchAcceptedExactly | src/memory.c:38-67 | a batch of inserts is accepted in full exactly when all segments exist, batch and memory are single-valued together, and storage is found for each new cell; the result is the old memory plus the batch |
| Loading.BatchOrderIsIrrelevant | src/memory.c:38-67 | any order of an accepted batch is accepted and gives the identical memory |
| Loading.LoadSucceedsExactly | src/memory.c:75-91 | exact success condition of a bulk load under the 32-bit wrap, its final memory and returned pointer |
| Loading.LoadedElements | src/memory.c:75-91 | a load that succeeds returns the address after the data, modulo 2^32, and leaves every element at its own |
| Loading.LoadsCompose | src/memory.c:75-91 | loading a + b is loading a and then b from the returned pointer: same outcome, memory and pointer |
| Loading.ReloadChangesNothing | src/memory.c:75-91 | repeating a successful load succeeds and changes nothing, whatever the storage |
| Loading.FailedLoadKeepsPrefix | src/memory.c:80-88 | a failed load stored exactly a prefix and was refused at the next element |
| Loading.EndPointerIsFreeExactly | src/memory.c:75-91 | the returned pointer is a stored cell exactly when it was before the load or the data has 2^32 elements or more |
| Loading.LoadSucceedsWhenReadable | src/memory.c:75-91 | into a segment that exists, a load succeeds exactly when every element is readable at its address afterwards |
| Loading.NewCellHoldsElement | src/memory.c:75-91 | every cell that a load adds, successful or not, holds an element of the data at that element's address |
| SegmentLoads.PrefixSegmentCell | src/memory.c:75-91 | into a segment that holds the first elements of the data, or none, each offset afterwards: the element, if the data reaches it and every addition up to it succeeds, and nothing otherwise |
| SegmentLoads.TwoLoadsSucceedExactly | src/memory.c:75-91 | two loads into different segments both succeed exactly when each could alone and the storage is found for both |
| SegmentLoads.LoadOfLongData | src/memory.c:75-91 | elements past the first 2^32 never change the memory, whether or not the load fails on them |
| MemoryRuns.WriteOnce | src/memory.c:28-91 | over every run of operations, failed ones included, a value once readable stays readable |
| MemoryRuns.CounterCountsSegments | src/memory.c:69-73 | the counter is the number of creations modulo 2^32 |
| MemoryRuns.CellsInCreatedSegments | src/memory.c:38-73 | in every run, past the wrap of the counter too, every stored address is in one of the segments created so far |
| Reachability.ReachableExactly | src/memory.c:38-91 | for any storage: exactly which memories are at the end of a run with a given number of creations |
| Reachability.ReachableWithoutFailure | src/memory.c:38-91 | while no addition failed those are the memories with the wrapped counter, one addition for each cell, and every cell below the number of creations and below 2^32 - 1 |
| Reachability.SegmentsAreDistinctExactly | src/memory.c:69-73 | the segments handed out in a run are pairwise distinct exactly when there are at most 2^32 of them |
| Reachability.NextSegmentIsFreshExactly | src/memory.c:69-73 | the number of creations after which the next segment is empty in every run |
| Reachability.ReusedSegment | src/memory.c:69-73 | for every other number of creations and every value, a run whose next segment starts with that value |
| Reachability.NewSegmentTakesDataExactly | src/memory.c:69-91 | after n creations a new segment takes all data that survives the wrap, in every run whose additions succeed, exactly when n + 1 < 2^32 |
| MemoryRuns.NewSegmentTakesData | src/memory.c:69-91 | from any memory whose next segment is empty: the new segment takes data from its start exactly when the data is empty, or the creation does not wrap the counter, the data survives the wrap and the storage is found |
| Reachability.EndPointerCanBeTaken | src/memory.c:75-91 | a run after which a load succeeds and returns a pointer to a written cell |
| Traversal.InnerLoopEndsExactly | src/memory.c:97-113 | the inner loop over a segment meets an unwritten cell exactly when the segment has one |
| Traversal.VisitsExactly | src/memory.c:93-116 | the traversal visits exactly the cells before the first gap of each segment |
| Traversal.VisitsInOrder | src/memory.c:93-116 | the visited addresses increase, so each is visited once |
| Runner.Runner.constructor | src/cairo_runner.c:8-12 | the new runner: all registers at 0:0, empty memory |
| Runner.Runner.InitializeState | src/cairo_runner.c:30-39 | both loads happen in order and the initial pc wraps, whatever the loads return |
| Runner.Runner.InitializeFunctionEntrypoint | src/cairo_runner.c:44-56 | refines the represented step, for any caller stack, the program's own array included; final pc, initial pc and initial fp by the counter, the bases and the size of the stack |
| Runner.Runner.Initialize | src/cairo_runner.c:80-86 | refines the represented step, owning every block it takes; each register by the counter before the call, pc at the entry point, ap and fp behind the frame |
| Runner.Runner.Free | src/cairo_runner.c:14-17 | releases the memory's blocks and the program's, each exactly once |
| RunnerCalls.CallEffect | src/cairo_runner.c:20-86 | a call is two loads into four new segments, and its registers follow from their numbers |
| RunnerCalls.CallSucceedsExactly | src/cairo_runner.c:33-37 | from any memory: both ignored loads succeed exactly when each is loadable and the storage is found for the cells that are missing |
| RunnerTheorems.RunReaches | src/cairo_runner.c:20-86 | counter and registers at every point of every run: call n uses segments 4(n-1) to 4n-1 modulo 2^32 |
| RunnerTheorems.RunWithinImage | src/cairo_runner.c:20-86 | no run ever stores anything but the program and the frames of its calls, whatever the program and the storage, past the wrap too |
| RunnerImage.RunCellsExactly | src/cairo_runner.c:20-86 | each address at every point of every run, whatever the program and the storage, past the wrap too: it holds its value exactly when a call that got its block found storage up to it |
| RunnerImage.RunImage | src/cairo_runner.c:20-86 | for every program: if the storage for the image is found, the memory is exactly the image of the calls, past the wrap too; before the wrap only then |
| RunnerTheorems.RunLeavesNoHoles | src/cairo_runner.c:20-86 | no run leaves an unwritten offset below a written one |
| RunnerTheorems.RunKeepsCells | src/cairo_runner.c:20-86 | no call alters a cell left by an earlier one, whatever the program and the storage |
| RunnerTheorems.IgnoredLoadsSucceedExactly | src/cairo_runner.c:33-37 | both ignored loads of call n succeed exactly when 2^30 does not divide n, the program survives the wrap, and the storage is found for the missing cells, which before the wrap are all of the call's |
| RunnerTheorems.IgnoredLoadCanFail | src/cairo_runner.c:33-37 | a run in which an ignored load fails |
| InitialState.FreshInitialization | src/cairo_runner.c:80-86 | registers and counter of a new runner after one initialisation; when its ignored loads succeed, and when every cell is there and no other |
| EntryPoints.EntryEffect | src/cairo_runner.c:44-56 | from any runner state: a function entry is two loads into three new segments, and its registers follow from their numbers |
| EntryPoints.EntrySucceedsExactly | src/cairo_runner.c:33-37 | from any runner state and for any caller's stack: both ignored loads succeed exactly when each is loadable and the storage is found for the cells that are missing |
| EntryPoints.EntryRunSucceedsExactly | src/cairo_runner.c:33-37 | in every sequence of function entries on a new runner until the counter wraps, for every program, stack and storage: both ignored loads succeed exactly when program and frame survive the wrap and storage is found for all their cells |
| EntryPoints.CallFrame | src/cairo_runner.c:44-56 | for any stack and storage: registers, the stack, return fp and end pointer in order up to the first addition that fails, nothing else in the segment, an empty final segment, and whether both ignored loads succeeded |
| InitialState.RetReachesEnd | src/decoder.c:49-51 | the addresses that `ret` names in the initial frame hold the return fp and the final pc, each exactly when the storage up to it is found |
| InitialState.RunIsVisited | src/memory.c:93-116 | printing the memory at any point of any run visits exactly the cells of the segments below the signed counter: all of them before 2^29 calls, and none when the signed counter is not positive |
| InitialState.PrintingEndsExactly | src/memory.c:93-116 | printing at any point of any run ends exactly when no call so far filled one of the segments that are visited |
| InitialState.EarlyPrintingEndsExactly | src/memory.c:93-116 | before 2^29 calls: exactly when the program is shorter than a segment, or no call found 2^32 additions in a row |
| Accounting.RunAccounts | src/memory.c:38-91 | after any operations with any storage, each addition made has stored a cell or failed |
| Accounting.RunAddsCells | src/memory.c:38-91 | while no addition fails, any operations leave one cell for each addition |
| Conservation.LiveAreStored | src/memory.c:57-61 | of the pairs of blocks taken the table holds one for each cell, and all of them exactly when there are as many cells as pairs |
| Conservation.Perform | src/memory.c:38-91 | the memory object through any operations: it follows the run, and its live blocks are a key and a value for each cell, plus two for each failed addition |
| Conservation.InitializeTimes | src/cairo_runner.c:80-86 | the runner object through any number of calls follows a run of the model: registers, image, other blocks untouched, live blocks in balance |
| Conservation.ReleaseLeaves | src/memory.c:118-129 | what remains of the blocks after release, two for each failed addition |
| Conservation.RunnerLife | src/cairo_runner.c:8-17 | creation, any number of calls and release leave as many blocks as before, less the program's items, plus two for each addition that failed; nothing else is lost exactly when none failed |

## Left out

- JSON parsing (`src/parser.cpp`), the field arithmetic of lambdaworks, hints, builtins, relocation and the
  execution loop: input and output, external libraries, or not written yet. A felt is its four limbs.
- The inside of the Collections-C table and array: the table is searched entry by entry; its hashing, buckets
  and its own storage are not part of this model. Growing a `CC_Array` is taken to succeed, and `malloc` to
  return a block.
- Blocks are written once, at their allocation, as in the source; a client that changes a program's values
  between two calls is not modelled.
- The stack array of `runner_initialize_main_entrypoint` and its two local values are not heap blocks.
- The shape of `decode_instruction` as one function: it is split here into methods for the field masks, the
  offsets and the switches; the inner loop of `print_memory` is a method of its own too.
- Memory.Memory.VisitSegment: needs an unwritten offset in the segment, because on a segment that is written in
  full the source loops forever (`Traversal.InnerLoopEndsExactly`).
- Memory.Memory.VisitCells: needs an unwritten offset in every segment visited, for the same reason; the printed
  text is not modelled, only the order of visits.
- RunnerImage.RunImage: past the wrap later calls try the cells of earlier blocks again, so the image may be
  completed after a failed addition and the storage condition is only sufficient there; `RunCellsExactly` decides
  each cell.
- EntryPoints.EntryRunSucceedsExactly: ends before the counter wraps, because three segments for each entry do not
  divide 2^32 and later entries overlap earlier ones unevenly; `EntrySucceedsExactly` decides those from the memory
  they find.
- ByteCodecs.U32FromLeBytes: the shift of a promoted `uint16_t` by 24 overflows `int` for bytes from 128 on,
  which C leaves undefined; the model takes the 16-bit truncation.
- Immediate words of an instruction stream are 64-bit words; wider field elements are not modelled.
- `src/main.c`, the tests and the build files: no logic to prove.
