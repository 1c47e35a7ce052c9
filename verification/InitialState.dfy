/** What a program finds when it starts: the memory image, the call frame and the way back. */
module InitialState {
  import opened Instructions
  import opened Loading
  import opened MemoryModel
  import opened Relocatables
  import opened RunnerCalls
  import opened RunnerImage
  import opened RunnerModel
  import opened RunnerTheorems
  import opened Words

  import Decoder
  import EntryPoints
  import MemoryRuns
  import SegmentLoads
  import Traversal

  /** The cells of a first initialisation, and no others. */
  ghost predicate FreshCells(cells: map<Relocatable, MaybeRelocatable>, program: seq<MaybeRelocatable>) {
    && (forall i: uint32 :: i < |program| ==> Relocatable(0, i) in cells && cells[Relocatable(0, i)] == program[i])
    && Relocatable(1, 0) in cells && cells[Relocatable(1, 0)] == Pointer(Relocatable(2, 0))
    && Relocatable(1, 1) in cells && cells[Relocatable(1, 1)] == Pointer(Relocatable(3, 0))
    && (forall p :: p in cells ==>
          (p.segmentIndex == 0 && p.offset < |program|) || (p.segmentIndex == 1 && p.offset < 2))
  }

  lemma FirstBlockImage(m: MemoryState, program: seq<MaybeRelocatable>)
    requires WithinImage(m, program, 1)
    ensures FreshCells(m.cells, program) <==> IsImage(m, program, 1)
  {
    if FreshCells(m.cells, program) {
      forall p | InImage(program, 1, p)
        ensures p in m.cells
      {
        assert p.segmentIndex == 0 ==> p == Relocatable(0, p.offset);
        assert p.segmentIndex == 1 ==> p == Relocatable(1, 0) || p == Relocatable(1, 1);
      }
    }
  }

  lemma FirstLoadsSucceed(schedule: AddSchedule, program: seq<MaybeRelocatable>)
    ensures CallLoads(schedule, EMPTY_MEMORY, program).1
       <==> WrapsConsistently(program) && AddsSucceed(schedule, 0, CellCount(program) + 2)
  {
    CallWithinImage(schedule, EMPTY_MEMORY, program, 0, 0);
    MissingCellsOfEmptyBlock(EMPTY_MEMORY, program, 0);
  }

  lemma FirstImage(schedule: AddSchedule, program: seq<MaybeRelocatable>)
    ensures FreshCells(CallLoads(schedule, EMPTY_MEMORY, program).0.cells, program)
       <==> AddsSucceed(schedule, 0, CellCount(program) + 2)
  {
    CallStaysWithin(schedule, EMPTY_MEMORY, program, 0, 1);
    ImageGrows(schedule, EMPTY_MEMORY, program, 0);
    FirstBlockImage(CallLoads(schedule, EMPTY_MEMORY, program).0, program);
  }

  /**
   * The exact state of a new runner after one initialisation: its registers whatever the storage, and
   * when the ignored loads succeed and when every cell is there.
   */
  lemma FreshInitialization(schedule: AddSchedule, program: seq<MaybeRelocatable>, main: uint32)
    ensures var (r, end, loaded) := Initialize(schedule, NewRunner(program, main));
      var stored := AddsSucceed(schedule, 0, CellCount(program) + 2);
      && r.memory.numSegments == 4
      && r.context == RunContext(Relocatable(0, main), Relocatable(1, 2), Relocatable(1, 2))
      && end == r.finalPc == Relocatable(3, 0)
      && (loaded <==> stored && WrapsConsistently(program))
      && (FreshCells(r.memory.cells, program) <==> stored)
  {
    assert BlockAfter(0) == 0 && BlockAfter(1) == 1;
    OneMoreCall(schedule, NewRunner(program, main), program, main, 0);
    FirstLoadsSucceed(schedule, program);
    FirstImage(schedule, program);
  }

  const RET_WORD: uint64 := 0x208b7fff7fff7ffe

  /** The address named by an offset from the frame pointer. */
  function FrameAddress(fp: Relocatable, off: int): Relocatable
    requires 0 <= fp.offset + off < U32_RANGE
  {
    fp.(offset := fp.offset + off)
  }

  lemma RetDecodes()
    ensures Decoder.Decode(RET_WORD)
         == Decoded(Instruction(-2, -1, -1, RegFp, RegFp, OpFp, Op1, Jump, ApRegular, Dst, Ret))
  {
    var ret := Instruction(-2, -1, -1, RegFp, RegFp, OpFp, Op1, Jump, ApRegular, Dst, Ret);
    assert Decoder.EncodeFlags(ret) == 0x208b;
    Decoder.DecodeInvertsEncode(ret);
  }

  /**
   * A `ret` in the initial frame finds the return frame pointer and the final program counter, each
   * exactly when the storage for the frame up to it was found.
   */
  lemma RetReachesEnd(schedule: AddSchedule, start: RunnerState, e: EntryPoints.Entry, r: RunnerState, ret: Instruction)
    requires |e.stack| + 2 < U32_RANGE && start.memory.numSegments + 3 < U32_RANGE
    requires MemoryRuns.CellsBelow(start.memory, start.memory.numSegments)
    requires r == EntryPoints.Enter(schedule, start, e).0
    requires Decoder.Decode(RET_WORD) == Decoded(ret)
    ensures 0 <= r.initialFp.offset + ret.off0 < U32_RANGE && 0 <= r.initialFp.offset + ret.off2 < U32_RANGE
    ensures var adds := EntryPoints.Loaded(schedule, start.memory, start.program).adds;
      && Get(r.memory, FrameAddress(r.initialFp, ret.off0))
         == (if AddsSucceed(schedule, adds, |e.stack| + 1) then Ok(Pointer(e.returnFp)) else Err(GetError))
      && Get(r.memory, FrameAddress(r.initialFp, ret.off2))
         == (if AddsSucceed(schedule, adds, |e.stack| + 2) then Ok(Pointer(r.finalPc)) else Err(GetError))
  {
    RetDecodes();
    EntryPoints.CallFrame(schedule, start, e);
    var frame := e.stack + [Pointer(e.returnFp), Pointer(r.finalPc)];
    assert frame[|e.stack|] == Pointer(e.returnFp) && frame[|e.stack| + 1] == Pointer(r.finalPc);
  }

  // Printing the memory of a run

  lemma CellBeforeGap(m: MemoryState, p: Relocatable)
    requires SegmentLoads.NoHoles(m) && p in m.cells
    ensures p.offset < Traversal.FirstGap(m, p.segmentIndex, 0)
  {
    Traversal.FirstGapBounds(m, p.segmentIndex, 0);
  }

  lemma StoredIsVisited(m: MemoryState, cell: Traversal.Cell)
    requires SegmentLoads.NoHoles(m)
    ensures var segments := Traversal.SignedInt(m.numSegments);
      cell in Traversal.VisitOrder(m, segments)
      <==> && cell.address in m.cells && cell.value == m.cells[cell.address]
           && cell.address.segmentIndex < segments
  {
    Traversal.VisitsExactly(m, Traversal.SignedInt(m.numSegments), cell);
    if cell.address in m.cells {
      CellBeforeGap(m, cell.address);
    }
  }

  lemma SignedCounter(calls: nat)
    ensures var segments := Traversal.SignedInt(4 * BlockAfter(calls));
      && (segments <= 0 <==> BlockAfter(calls) == 0 || BlockAfter(calls) >= 0x2000_0000)
      && (calls < 0x2000_0000 ==> segments == 4 * calls)
  {
  }

  /**
   * Printing the memory of any run visits exactly the stored cells of the segments below the signed
   * counter: all of them while it is positive, and none when it is not.
   */
  lemma RunIsVisited(
    schedule: AddSchedule, states: seq<RunnerState>, program: seq<MaybeRelocatable>, main: uint32, calls: nat,
    cell: Traversal.Cell)
    requires IsRun(schedule, states) && calls < |states| && states[0] == NewRunner(program, main)
    ensures var m := states[calls].memory; var segments := Traversal.SignedInt(m.numSegments);
      && (cell in Traversal.VisitOrder(m, segments)
          <==> && cell.address in m.cells && cell.value == m.cells[cell.address]
               && cell.address.segmentIndex < segments)
      && (calls < 0x2000_0000 ==> segments == 4 * calls && MemoryRuns.CellsBelow(m, segments))
      && (segments <= 0 <==> BlockAfter(calls) == 0 || BlockAfter(calls) >= 0x2000_0000)
      && (segments <= 0 ==> Traversal.VisitOrder(m, segments) == [] && Traversal.PrintingEnds(m))
  {
    RunMemory(schedule, states, program, main, calls);
    StoredIsVisited(states[calls].memory, cell);
    SignedCounter(calls);
  }

  /** The last address of a segment. */
  function LastCell(segment: uint32): Relocatable {
    Relocatable(segment, 0xFFFF_FFFF)
  }

  lemma FullWithoutHoles(m: MemoryState, segment: uint32)
    requires SegmentLoads.NoHoles(m)
    ensures Traversal.HasGap(m, segment) <==> LastCell(segment) !in m.cells
  {
    if LastCell(segment) in m.cells {
      forall offset: uint32
        ensures Relocatable(segment, offset) in m.cells
      {
        assert Relocatable(segment, offset).offset <= LastCell(segment).offset;
      }
    }
  }

  /** A segment is written in full exactly when a call of the run reached its last address. */
  lemma SegmentIsFullExactly(
    schedule: AddSchedule, states: seq<RunnerState>, program: seq<MaybeRelocatable>, main: uint32, calls: nat,
    segment: uint32)
    requires IsRun(schedule, states) && calls < |states| && states[0] == NewRunner(program, main)
    ensures !Traversal.HasGap(states[calls].memory, segment)
       <==> RunReachesCell(schedule, states, program, calls, LastCell(segment))
  {
    RunLeavesNoHoles(schedule, states, program, main, calls);
    RunCellsExactly(schedule, states, program, main, calls, LastCell(segment));
    FullWithoutHoles(states[calls].memory, segment);
  }

  /** No call of the run so far filled one of the first segments. */
  ghost predicate NoneFilled(
    schedule: AddSchedule, states: seq<RunnerState>, program: seq<MaybeRelocatable>, calls: nat, segments: int)
    requires calls < |states|
  {
    forall segment: uint32 :: segment < segments ==>
      !RunReachesCell(schedule, states, program, calls, LastCell(segment))
  }

  /**
   * Printing the memory of a run ends exactly when no call so far filled one of the segments that are
   * visited.
   */
  lemma PrintingEndsExactly(
    schedule: AddSchedule, states: seq<RunnerState>, program: seq<MaybeRelocatable>, main: uint32, calls: nat)
    requires IsRun(schedule, states) && calls < |states| && states[0] == NewRunner(program, main)
    ensures var m := states[calls].memory;
      Traversal.PrintingEnds(m)
      <==> NoneFilled(schedule, states, program, calls, Traversal.SignedInt(m.numSegments))
  {
    var m := states[calls].memory;
    forall segment: uint32
      ensures Traversal.HasGap(m, segment) <==> !RunReachesCell(schedule, states, program, calls, LastCell(segment))
    {
      SegmentIsFullExactly(schedule, states, program, main, calls, segment);
    }
  }

  lemma OneCallReaches(
    schedule: AddSchedule, states: seq<RunnerState>, program: seq<MaybeRelocatable>, calls: nat, p: Relocatable)
    requires p.segmentIndex / 4 < calls < 0x4000_0000 && calls < |states|
    ensures RunReachesCell(schedule, states, program, calls, p)
       <==> CallReaches(schedule, states[p.segmentIndex / 4].memory, program, p)
  {
    assert forall call: nat :: call < calls ==> BlockAfter(call) == call;
  }

  /** Before the wrap the one call that got an address's block decides, and starts with an empty block. */
  lemma OnlyCallOfBlock(
    schedule: AddSchedule, states: seq<RunnerState>, program: seq<MaybeRelocatable>, main: uint32, calls: nat,
    block: nat, p: Relocatable)
    requires IsRun(schedule, states) && calls < |states| && states[0] == NewRunner(program, main)
    requires block < calls < 0x4000_0000 && p.segmentIndex / 4 == block
    ensures RunReachesCell(schedule, states, program, calls, p)
       <==> CallReaches(schedule, states[block].memory, program, p)
    ensures AddsToReach(states[block].memory, p) == p.offset + 1
  {
    RunMemory(schedule, states, program, main, block);
    assert BlockAfter(block) == ImageBlocks(block) == block;
    FreshAdds(states[block].memory, program, block, p);
    OneCallReaches(schedule, states, program, calls, p);
  }

  /** The call that got the segment is for a long program, and finds storage for a whole segment. */
  ghost predicate FillsSegment(
    schedule: AddSchedule, states: seq<RunnerState>, program: seq<MaybeRelocatable>, segment: uint32)
    requires segment / 4 < |states|
  {
    segment % 4 == 0 && |program| >= U32_RANGE && AddsSucceed(schedule, states[segment / 4].memory.adds, U32_RANGE)
  }

  lemma FilledEarly(
    schedule: AddSchedule, states: seq<RunnerState>, program: seq<MaybeRelocatable>, main: uint32, calls: nat,
    segment: uint32)
    requires IsRun(schedule, states) && calls < |states| && states[0] == NewRunner(program, main)
    requires segment < 4 * calls && calls < 0x4000_0000
    ensures RunReachesCell(schedule, states, program, calls, LastCell(segment))
       <==> FillsSegment(schedule, states, program, segment)
  {
    OnlyCallOfBlock(schedule, states, program, main, calls, segment / 4, LastCell(segment));
  }

  lemma NoneFilledEarly(
    schedule: AddSchedule, states: seq<RunnerState>, program: seq<MaybeRelocatable>, main: uint32, calls: nat)
    requires IsRun(schedule, states) && calls < |states| && states[0] == NewRunner(program, main)
    requires calls < 0x4000_0000
    ensures NoneFilled(schedule, states, program, calls, 4 * calls)
       <==> forall block: nat :: block < calls ==> !FillsSegment(schedule, states, program, 4 * block)
  {
    forall segment: uint32 | segment < 4 * calls
      ensures RunReachesCell(schedule, states, program, calls, LastCell(segment))
         <==> FillsSegment(schedule, states, program, segment)
    {
      FilledEarly(schedule, states, program, main, calls, segment);
    }
    forall segment: uint32 | segment < 4 * calls && FillsSegment(schedule, states, program, segment)
      ensures exists block: nat :: block < calls && FillsSegment(schedule, states, program, 4 * block)
    {
      assert segment == 4 * (segment / 4) && segment / 4 < calls;
    }
  }

  /** Before the signed bound: the program is shorter than a segment, or no call finds storage to fill one. */
  lemma EarlyPrintingEndsExactly(
    schedule: AddSchedule, states: seq<RunnerState>, program: seq<MaybeRelocatable>, main: uint32, calls: nat)
    requires IsRun(schedule, states) && calls < |states| && states[0] == NewRunner(program, main)
    requires calls < 0x2000_0000
    ensures Traversal.PrintingEnds(states[calls].memory)
       <==> || |program| < U32_RANGE
            || forall block: nat :: block < calls ==> !AddsSucceed(schedule, states[block].memory.adds, U32_RANGE)
  {
    RunMemory(schedule, states, program, main, calls);
    SignedCounter(calls);
    PrintingEndsExactly(schedule, states, program, main, calls);
    NoneFilledEarly(schedule, states, program, main, calls);
    BlockFills(schedule, states, program, calls);
  }

  lemma BlockFills(schedule: AddSchedule, states: seq<RunnerState>, program: seq<MaybeRelocatable>, calls: nat)
    requires calls < |states| && calls < 0x2000_0000
    ensures forall block: nat :: block < calls ==>
      (FillsSegment(schedule, states, program, 4 * block)
       <==> |program| >= U32_RANGE && AddsSucceed(schedule, states[block].memory.adds, U32_RANGE))
  {
    forall block: nat | block < calls
      ensures FillsSegment(schedule, states, program, 4 * block)
         <==> |program| >= U32_RANGE && AddsSucceed(schedule, states[block].memory.adds, U32_RANGE)
    {
      assert (4 * block) % 4 == 0 && (4 * block) / 4 == block;
    }
  }
}
