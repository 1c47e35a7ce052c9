/** Whole runs of initialisations: the memory they leave and the loads they ignore. */
module RunnerTheorems {
  import opened Loading
  import opened MemoryModel
  import opened Relocatables
  import opened RunnerCalls
  import opened RunnerModel
  import opened Words

  import SegmentLoads

  // Successive calls on a new runner

  /** The block of four segments that a call gets after `calls` others. */
  function BlockAfter(calls: nat): (block: nat)
    ensures block < 0x4000_0000
  {
    calls % 0x4000_0000
  }

  lemma NextBlock(calls: nat)
    ensures BlockAfter(calls + 1) == if BlockAfter(calls) == 0x3FFF_FFFF then 0 else BlockAfter(calls) + 1
    ensures Wrap32(4 * BlockAfter(calls) + 4) == 4 * BlockAfter(calls + 1)
  {
  }

  /** How many blocks have cells: the block that would wrap the counter never gets any. */
  function ImageBlocks(calls: nat): nat {
    if calls < 0x3FFF_FFFF then calls else 0x3FFF_FFFF
  }

  /** Program, counter and registers after a number of calls. */
  ghost predicate Reached(r: RunnerState, program: seq<MaybeRelocatable>, main: uint32, calls: nat) {
    && r.program == program && r.main == main
    && r.memory.numSegments == 4 * BlockAfter(calls)
    && (calls > 0 ==>
          var first := 4 * BlockAfter(calls - 1);
          && r.programBase == Relocatable(first, 0) && r.executionBase == Relocatable(first + 1, 0)
          && r.initialPc == Relocatable(first, main) && r.initialFp == Relocatable(first + 1, 2)
          && r.finalPc == Relocatable(first + 3, 0)
          && r.context == RunContext(r.initialPc, r.initialFp, r.initialFp))
  }

  lemma OneMoreCall(
    schedule: AddSchedule, r: RunnerState, program: seq<MaybeRelocatable>, main: uint32, calls: nat)
    requires Reached(r, program, main, calls)
    ensures var (after, end, loaded) := Initialize(schedule, r);
      && Reached(after, program, main, calls + 1) && end == after.finalPc
      && (after.memory, loaded) == CallLoads(schedule, r.memory, program)
  {
    CallEffect(schedule, r);
    CallKeepsCounter(schedule, r.memory, program);
    SegmentsOfBlock(r.memory, BlockAfter(calls));
    NextBlock(calls);
  }

  /** Program, counter and registers at every point of every run of a new runner. */
  lemma {:induction false} RunReaches(
    schedule: AddSchedule, states: seq<RunnerState>, program: seq<MaybeRelocatable>, main: uint32, calls: nat)
    requires IsRun(schedule, states) && calls < |states| && states[0] == NewRunner(program, main)
    ensures Reached(states[calls], program, main, calls)
  {
    if calls == 0 {
    } else {
      RunReaches(schedule, states, program, main, calls - 1);
      OneMoreCall(schedule, states[calls - 1], program, main, calls - 1);
    }
  }

  /** Whatever the program and the storage, no call of a run alters a cell that an earlier one left. */
  lemma {:induction false} RunKeepsCells(
    schedule: AddSchedule, states: seq<RunnerState>, first: nat, later: nat, p: Relocatable)
    requires IsRun(schedule, states) && first <= later < |states|
    requires Get(states[first].memory, p).Ok?
    ensures Get(states[later].memory, p) == Get(states[first].memory, p)
    decreases later
  {
    if first == later {
    } else {
      var before := states[later - 1];
      RunKeepsCells(schedule, states, first, later - 1, p);
      CallEffect(schedule, before);
      CallExtends(schedule, before.memory, before.program);
    }
  }

  // What the memory may hold: any program, any storage, any number of calls

  /** The cells of the first `blocks` calls: the program in segment 4b and the frame in 4b + 1. */
  predicate InImage(program: seq<MaybeRelocatable>, blocks: nat, p: Relocatable) {
    && p.segmentIndex < 4 * blocks
    && ((p.segmentIndex % 4 == 0 && p.offset < |program|) || (p.segmentIndex % 4 == 1 && p.offset < 2))
  }

  /** The program's element, or the pointer to segment 4b + 2 (return fp) or 4b + 3 (end). */
  function ImageValue(program: seq<MaybeRelocatable>, p: Relocatable): MaybeRelocatable
    requires p.segmentIndex % 4 == 0 ==> p.offset < |program|
  {
    if p.segmentIndex % 4 == 0 then program[p.offset]
    else Pointer(Relocatable(Wrap32(p.segmentIndex + 1 + p.offset), 0))
  }

  /** Every cell is one of the image and has its value there. */
  ghost predicate WithinImage(m: MemoryState, program: seq<MaybeRelocatable>, blocks: nat) {
    forall p :: p in m.cells ==> InImage(program, blocks, p) && m.cells[p] == ImageValue(program, p)
  }

  /** A cell that a call adds belongs to the call's block. */
  lemma NewCellOfCall(
    schedule: AddSchedule, m: MemoryState, program: seq<MaybeRelocatable>, block: nat, p: Relocatable)
    requires block < 0x3FFF_FFFF && m.numSegments == 4 * block
    requires p in CallLoads(schedule, m, program).0.cells && p !in m.cells
    ensures p.segmentIndex / 4 == block && InImage(program, block + 1, p)
    ensures CallLoads(schedule, m, program).0.cells[p] == ImageValue(program, p)
  {
    var loaded := Loaded(schedule, m, program);
    SegmentsOfBlock(m, block);
    if p in loaded.cells {
      var data := SegmentLoads.Trimmed(program);
      SegmentLoads.LoadOfLongData(schedule, Counted(m), Segment(m, 0), program);
      var i := NewCellHoldsElement(schedule, Counted(m), Segment(m, 0), data, p);
      LoadExtends(schedule, loaded, Segment(m, 1), Frame(m));
    } else {
      var i := NewCellHoldsElement(schedule, loaded, Segment(m, 1), Frame(m), p);
    }
  }

  lemma CallStaysWithin(
    schedule: AddSchedule, m: MemoryState, program: seq<MaybeRelocatable>, block: nat, blocks: nat)
    requires block < 0x3FFF_FFFF && m.numSegments == 4 * block
    requires WithinImage(m, program, blocks) && block < blocks
    ensures WithinImage(CallLoads(schedule, m, program).0, program, blocks)
  {
    var after := CallLoads(schedule, m, program).0;
    CallExtends(schedule, m, program);
    forall p | p in after.cells
      ensures InImage(program, blocks, p) && after.cells[p] == ImageValue(program, p)
    {
      if p !in m.cells {
        NewCellOfCall(schedule, m, program, block, p);
      }
    }
  }

  lemma NextCallStaysWithin(schedule: AddSchedule, m: MemoryState, program: seq<MaybeRelocatable>, calls: nat)
    requires m.numSegments == 4 * BlockAfter(calls) && WithinImage(m, program, ImageBlocks(calls))
    ensures WithinImage(CallLoads(schedule, m, program).0, program, ImageBlocks(calls + 1))
  {
    var block := BlockAfter(calls);
    if block == 0x3FFF_FFFF {
      WrappedCall(schedule, m, program);
    } else {
      assert WithinImage(m, program, ImageBlocks(calls + 1));
      CallStaysWithin(schedule, m, program, block, ImageBlocks(calls + 1));
    }
  }

  /** No run ever stores anything but the image of its calls. */
  lemma {:induction false} RunWithinImage(
    schedule: AddSchedule, states: seq<RunnerState>, program: seq<MaybeRelocatable>, main: uint32, calls: nat)
    requires IsRun(schedule, states) && calls < |states| && states[0] == NewRunner(program, main)
    ensures WithinImage(states[calls].memory, program, ImageBlocks(calls))
  {
    if calls == 0 {
    } else {
      RunReaches(schedule, states, program, main, calls - 1);
      RunWithinImage(schedule, states, program, main, calls - 1);
      OneMoreCall(schedule, states[calls - 1], program, main, calls - 1);
      NextCallStaysWithin(schedule, states[calls - 1].memory, program, calls - 1);
    }
  }

  /** No run leaves a hole in a segment. */
  lemma {:induction false} RunLeavesNoHoles(
    schedule: AddSchedule, states: seq<RunnerState>, program: seq<MaybeRelocatable>, main: uint32, calls: nat)
    requires IsRun(schedule, states) && calls < |states| && states[0] == NewRunner(program, main)
    ensures SegmentLoads.NoHoles(states[calls].memory)
  {
    if calls == 0 {
    } else {
      RunLeavesNoHoles(schedule, states, program, main, calls - 1);
      CallEffect(schedule, states[calls - 1]);
      CallKeepsNoHoles(schedule, states[calls - 1].memory, states[calls - 1].program);
    }
  }

  /** The memory at any point of a run: its counter, what it may hold, and that it has no holes. */
  lemma RunMemory(
    schedule: AddSchedule, states: seq<RunnerState>, program: seq<MaybeRelocatable>, main: uint32, calls: nat)
    requires IsRun(schedule, states) && calls < |states| && states[0] == NewRunner(program, main)
    ensures var m := states[calls].memory;
      && m.numSegments == 4 * BlockAfter(calls) && WithinImage(m, program, ImageBlocks(calls))
      && SegmentLoads.NoHoles(m)
  {
    RunReaches(schedule, states, program, main, calls);
    RunWithinImage(schedule, states, program, main, calls);
    RunLeavesNoHoles(schedule, states, program, main, calls);
  }

  /** One call of a run, as far as the memory goes. */
  lemma RunStep(
    schedule: AddSchedule, states: seq<RunnerState>, program: seq<MaybeRelocatable>, main: uint32, call: nat)
    requires IsRun(schedule, states) && 1 <= call <= |states| && states[0] == NewRunner(program, main)
    ensures var m := states[call - 1].memory;
      && m.numSegments == 4 * BlockAfter(call - 1) && WithinImage(m, program, ImageBlocks(call - 1))
      && SegmentLoads.NoHoles(m)
      && Initialize(schedule, states[call - 1]).2 == CallLoads(schedule, m, program).1
      && (call < |states| ==> states[call].memory == CallLoads(schedule, m, program).0)
  {
    RunMemory(schedule, states, program, main, call - 1);
    RunReaches(schedule, states, program, main, call - 1);
    OneMoreCall(schedule, states[call - 1], program, main, call - 1);
  }

  // The loads that the runner ignores

  lemma WrappedElement(program: seq<MaybeRelocatable>, i: nat)
    requires WrapsConsistently(program) && i < |program|
    ensures Wrap32(i) < |program| && program[Wrap32(i)] == program[i]
  {
    assert Wrap32(i) == i || (Wrap32(i) < i && Wrap32(Wrap32(i)) == Wrap32(i));
  }

  lemma ElementInImage(m: MemoryState, program: seq<MaybeRelocatable>, block: nat, blocks: nat, i: nat)
    requires WithinImage(m, program, blocks) && WrapsConsistently(program)
    requires block < 0x4000_0000 && i < |program| && AddressAt(Relocatable(4 * block, 0), i) in m.cells
    ensures m.cells[AddressAt(Relocatable(4 * block, 0), i)] == program[i]
  {
    assert AddressAt(Relocatable(4 * block, 0), i) == Relocatable(4 * block, Wrap32(i));
    WrappedElement(program, i);
  }

  lemma ProgramLoadable(m: MemoryState, program: seq<MaybeRelocatable>, block: nat, blocks: nat)
    requires block < 0x3FFF_FFFF && m.numSegments == 4 * block && WithinImage(m, program, blocks)
    ensures Loadable(Counted(m), Segment(m, 0), program) <==> WrapsConsistently(program)
  {
    SegmentsOfBlock(m, block);
    if WrapsConsistently(program) {
      forall i | 0 <= i < |program| && AddressAt(Segment(m, 0), i) in m.cells
        ensures m.cells[AddressAt(Segment(m, 0), i)] == program[i]
      {
        ElementInImage(m, program, block, blocks, i);
      }
    }
  }

  lemma FrameLoadable(m: MemoryState, program: seq<MaybeRelocatable>, block: nat, blocks: nat)
    requires block < 0x3FFF_FFFF && m.numSegments == 4 * block && WithinImage(m, program, blocks)
    ensures Loadable(Counted(m), Segment(m, 1), Frame(m))
  {
    SegmentsOfBlock(m, block);
    SegmentLoads.ShortDataIsConsistent(Frame(m));
  }

  lemma CallWithinImage(
    schedule: AddSchedule, m: MemoryState, program: seq<MaybeRelocatable>, block: nat, blocks: nat)
    requires block < 0x3FFF_FFFF && m.numSegments == 4 * block && WithinImage(m, program, blocks)
    ensures CallLoads(schedule, m, program).1
       <==> WrapsConsistently(program) && AddsSucceed(schedule, m.adds, MissingCells(m, program))
  {
    CallSucceedsExactly(schedule, m, program);
    ProgramLoadable(m, program, block, blocks);
    FrameLoadable(m, program, block, blocks);
  }

  lemma NextCallSucceedsExactly(schedule: AddSchedule, m: MemoryState, program: seq<MaybeRelocatable>, calls: nat)
    requires m.numSegments == 4 * BlockAfter(calls) && WithinImage(m, program, ImageBlocks(calls))
    ensures CallLoads(schedule, m, program).1
       <==> && BlockAfter(calls + 1) != 0 && WrapsConsistently(program)
            && AddsSucceed(schedule, m.adds, MissingCells(m, program))
  {
    NextBlock(calls);
    if BlockAfter(calls) == 0x3FFF_FFFF {
      WrappedCall(schedule, m, program);
    } else {
      CallWithinImage(schedule, m, program, BlockAfter(calls), ImageBlocks(calls));
    }
  }

  lemma ImageMissesBlock(m: MemoryState, program: seq<MaybeRelocatable>, block: nat)
    requires WithinImage(m, program, block)
    ensures IsEmptyBlock(m, block)
  {
  }

  lemma NextCallMissesAll(m: MemoryState, program: seq<MaybeRelocatable>, calls: nat)
    requires m.numSegments == 4 * BlockAfter(calls) && WithinImage(m, program, ImageBlocks(calls))
    ensures calls + 1 < 0x4000_0000 ==> MissingCells(m, program) == CellCount(program) + 2
  {
    if calls + 1 < 0x4000_0000 {
      ImageMissesBlock(m, program, calls);
      MissingCellsOfEmptyBlock(m, program, calls);
    }
  }

  /**
   * When the loads that the runner ignores succeed: in every call but each 2^30-th, if the program
   * survives the wrap of its offsets and storage is found for the cells that are missing. Before the
   * wrap those are all the cells of the call. The source holds a failure to be unreachable.
   */
  lemma IgnoredLoadsSucceedExactly(
    schedule: AddSchedule, states: seq<RunnerState>, program: seq<MaybeRelocatable>, main: uint32, call: nat)
    requires IsRun(schedule, states) && 1 <= call < |states| && states[0] == NewRunner(program, main)
    ensures var m := states[call - 1].memory;
      Initialize(schedule, states[call - 1]).2
      <==> && call % 0x4000_0000 != 0 && WrapsConsistently(program)
           && AddsSucceed(schedule, m.adds, MissingCells(m, program))
    ensures call < 0x4000_0000 ==> MissingCells(states[call - 1].memory, program) == CellCount(program) + 2
  {
    RunStep(schedule, states, program, main, call);
    NextCallSucceedsExactly(schedule, states[call - 1].memory, program, call - 1);
    NextCallMissesAll(states[call - 1].memory, program, call - 1);
  }

  lemma {:induction false} RunExists(schedule: AddSchedule, start: RunnerState, calls: nat)
    returns (states: seq<RunnerState>)
    ensures |states| == calls + 1 && IsRun(schedule, states) && states[0] == start
  {
    states := [start];
    if calls == 0 {
    } else {
      var earlier := RunExists(schedule, start, calls - 1);
      states := earlier + [Initialize(schedule, earlier[calls - 1]).0];
    }
  }

  /** A run in which an ignored load does fail, whatever the storage: the 2^30-th call on the empty program. */
  lemma IgnoredLoadCanFail(schedule: AddSchedule) returns (states: seq<RunnerState>)
    ensures |states| == 0x4000_0000 && IsRun(schedule, states) && states[0] == NewRunner([], 0)
    ensures !Initialize(schedule, states[0x3FFF_FFFF]).2
  {
    var start := NewRunner([], 0);
    var run := RunExists(schedule, start, 0x4000_0000);
    IgnoredLoadsSucceedExactly(schedule, run, [], 0, 0x4000_0000);
    states := run[..0x4000_0000];
  }
}
