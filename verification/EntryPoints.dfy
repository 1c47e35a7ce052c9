/** Function entry points: the call frame for any caller's stack, and the two loads whose results are ignored. */
module EntryPoints {
  import opened Loading
  import opened MemoryModel
  import opened Relocatables
  import opened RunnerModel
  import opened Words

  import MemoryRuns
  import RunnerCalls
  import SegmentLoads

  /** The arguments of a function entry point. */
  datatype Entry = Entry(entrypoint: uint32, stack: seq<MaybeRelocatable>, returnFp: Relocatable)

  /** Creating the segments and then entering a function. */
  function Enter(schedule: AddSchedule, r: RunnerState, e: Entry): (RunnerState, Relocatable, bool) {
    InitializeFunctionEntrypoint(schedule, InitializeSegments(r), e.entrypoint, e.stack, e.returnFp)
  }

  // One entry, as two loads into the memory

  /** What is loaded for the function: the caller's stack, the return fp and the end. */
  function EntryFrame(m: MemoryState, e: Entry): seq<MaybeRelocatable> {
    e.stack + [Pointer(e.returnFp), Pointer(RunnerCalls.Segment(m, 2))]
  }

  /** The memory once an entry has created its three segments. */
  function Counted(m: MemoryState): MemoryState {
    m.(numSegments := Wrap32(m.numSegments + 3))
  }

  /** The memory once an entry has loaded the program, as far as that went. */
  function Loaded(schedule: AddSchedule, m: MemoryState, program: seq<MaybeRelocatable>): MemoryState {
    LoadData(schedule, Counted(m), RunnerCalls.Segment(m, 0), program).0
  }

  /** The two loads of an entry, and whether both succeed. */
  function EntryLoads(schedule: AddSchedule, m: MemoryState, program: seq<MaybeRelocatable>, e: Entry)
    : (MemoryState, bool)
  {
    var (loaded, programLoad) := LoadData(schedule, Counted(m), RunnerCalls.Segment(m, 0), program);
    var (ready, stackLoad) := LoadData(schedule, loaded, RunnerCalls.Segment(m, 1), EntryFrame(m, e));
    (ready, programLoad.Ok? && stackLoad.Ok?)
  }

  /** The runner that an entry leaves: its registers follow from the segments it created. */
  function AfterEntry(r: RunnerState, e: Entry, memory: MemoryState): RunnerState {
    var program, execution := RunnerCalls.Segment(r.memory, 0), RunnerCalls.Segment(r.memory, 1);
    r.(memory := memory, programBase := program, executionBase := execution,
       initialPc := Relocatable(program.segmentIndex, e.entrypoint),
       initialFp := Relocatable(execution.segmentIndex, Wrap32(|e.stack| + 2)),
       finalPc := RunnerCalls.Segment(r.memory, 2))
  }

  /** An entry is two loads into three new segments, whatever the runner's state. */
  lemma EntryEffect(schedule: AddSchedule, r: RunnerState, e: Entry)
    ensures var (memory, loaded) := EntryLoads(schedule, r.memory, r.program, e);
      Enter(schedule, r, e) == (AfterEntry(r, e, memory), RunnerCalls.Segment(r.memory, 2), loaded)
  {
    RunnerCalls.CountersOfCall(r.memory);
    assert AddressAt(RunnerCalls.Segment(r.memory, 0), e.entrypoint)
        == Relocatable(RunnerCalls.Segment(r.memory, 0).segmentIndex, e.entrypoint);
  }

  // When both loads succeed

  /** From any memory: both loads are loadable, and the storage for the cells that are missing is found. */
  lemma EntrySucceedsExactly(schedule: AddSchedule, r: RunnerState, e: Entry)
    ensures var m := r.memory;
      var program, execution := RunnerCalls.Segment(m, 0), RunnerCalls.Segment(m, 1);
      Enter(schedule, r, e).2
      <==> && Loadable(Counted(m), program, r.program)
           && Loadable(Counted(m), execution, EntryFrame(m, e))
           && AddsSucceed(schedule, m.adds,
                          NewCells(Counted(m), program, r.program) + NewCells(Counted(m), execution, EntryFrame(m, e)))
  {
    var m := r.memory;
    EntryEffect(schedule, r, e);
    SegmentLoads.TwoLoadsSucceedExactly(
      schedule, Counted(m), RunnerCalls.Segment(m, 0), r.program, RunnerCalls.Segment(m, 1), EntryFrame(m, e));
  }

  lemma LoadableIntoEmptySegment(m: MemoryState, segment: uint32, data: seq<MaybeRelocatable>)
    requires segment < m.numSegments && SegmentLoads.IsEmptySegment(m, segment)
    ensures Loadable(m, Relocatable(segment, 0), data) <==> WrapsConsistently(data)
  {
  }

  /** Into new segments: program and frame survive the wrap of their offsets, and there is storage for both. */
  lemma FreshEntrySucceedsExactly(schedule: AddSchedule, r: RunnerState, e: Entry)
    requires MemoryRuns.CellsBelow(r.memory, r.memory.numSegments) && r.memory.numSegments + 3 < U32_RANGE
    ensures var frame := EntryFrame(r.memory, e);
      Enter(schedule, r, e).2
      <==> && WrapsConsistently(r.program) && WrapsConsistently(frame)
           && AddsSucceed(schedule, r.memory.adds, CellCount(r.program) + CellCount(frame))
  {
    var base, counted, frame := r.memory.numSegments, Counted(r.memory), EntryFrame(r.memory, e);
    EntrySucceedsExactly(schedule, r, e);
    LoadableIntoEmptySegment(counted, base, r.program);
    LoadableIntoEmptySegment(counted, base + 1, frame);
    SegmentLoads.NewCellsOfEmptySegment(counted, base, r.program);
    SegmentLoads.NewCellsOfEmptySegment(counted, base + 1, frame);
  }

  /** After an entry the cells still lie below the counter. */
  lemma EntryStaysBelow(schedule: AddSchedule, r: RunnerState, e: Entry)
    requires MemoryRuns.CellsBelow(r.memory, r.memory.numSegments) && r.memory.numSegments + 3 < U32_RANGE
    ensures var after := Enter(schedule, r, e).0;
      && after.program == r.program && after.memory.numSegments == r.memory.numSegments + 3
      && MemoryRuns.CellsBelow(after.memory, after.memory.numSegments)
  {
    var m, bound := r.memory, r.memory.numSegments + 3;
    var loaded := Loaded(schedule, m, r.program);
    EntryEffect(schedule, r, e);
    LoadExtends(schedule, Counted(m), RunnerCalls.Segment(m, 0), r.program);
    LoadExtends(schedule, loaded, RunnerCalls.Segment(m, 1), EntryFrame(m, e));
    MemoryRuns.LoadStaysBelow(schedule, Counted(m), RunnerCalls.Segment(m, 0), r.program, bound);
    MemoryRuns.LoadStaysBelow(schedule, loaded, RunnerCalls.Segment(m, 1), EntryFrame(m, e), bound);
  }

  // Successive entries on one runner

  /** Each state of the sequence is the previous one after one more entry. */
  ghost predicate IsEntryRun(schedule: AddSchedule, states: seq<RunnerState>, entries: seq<Entry>) {
    |states| == |entries| + 1
    && forall i :: 0 <= i < |entries| ==> states[i + 1] == Enter(schedule, states[i], entries[i]).0
  }

  lemma {:induction false} EntryRunReaches(
    schedule: AddSchedule, states: seq<RunnerState>, entries: seq<Entry>, program: seq<MaybeRelocatable>,
    main: uint32, calls: nat)
    requires IsEntryRun(schedule, states, entries) && states[0] == NewRunner(program, main)
    requires calls <= |entries| && 3 * calls < U32_RANGE
    ensures states[calls].program == program && states[calls].memory.numSegments == 3 * calls
    ensures MemoryRuns.CellsBelow(states[calls].memory, 3 * calls)
  {
    if calls == 0 {
    } else {
      EntryRunReaches(schedule, states, entries, program, main, calls - 1);
      EntryStaysBelow(schedule, states[calls - 1], entries[calls - 1]);
    }
  }

  /**
   * When the loads that the runner ignores succeed, for every program, every caller's stack and every
   * storage, in every sequence of function entries until the segment counter wraps.
   */
  lemma EntryRunSucceedsExactly(
    schedule: AddSchedule, states: seq<RunnerState>, entries: seq<Entry>, program: seq<MaybeRelocatable>,
    main: uint32, call: nat)
    requires IsEntryRun(schedule, states, entries) && states[0] == NewRunner(program, main)
    requires call < |entries| && 3 * call + 3 < U32_RANGE
    ensures var frame := entries[call].stack + [Pointer(entries[call].returnFp), Pointer(Relocatable(3 * call + 2, 0))];
      Enter(schedule, states[call], entries[call]).2
      <==> && WrapsConsistently(program) && WrapsConsistently(frame)
           && AddsSucceed(schedule, states[call].memory.adds, CellCount(program) + CellCount(frame))
  {
    EntryRunReaches(schedule, states, entries, program, main, call);
    FreshEntrySucceedsExactly(schedule, states[call], entries[call]);
  }

  // What the frame holds

  /** Beyond segment `base` there is the frame in segment `base + 1`, up to the first addition that fails. */
  ghost predicate HoldsFrame(
    schedule: AddSchedule, adds: nat, m: MemoryState, base: nat, frame: seq<MaybeRelocatable>)
  {
    forall p: Relocatable :: p.segmentIndex > base ==>
      Get(m, p) == if p.segmentIndex == base + 1 && p.offset < |frame| && AddsSucceed(schedule, adds, p.offset + 1)
                   then Ok(frame[p.offset]) else Err(GetError)
  }

  lemma FrameIsLoaded(schedule: AddSchedule, m: MemoryState, program: seq<MaybeRelocatable>, e: Entry)
    requires MemoryRuns.CellsBelow(m, m.numSegments) && m.numSegments + 3 < U32_RANGE
    ensures HoldsFrame(schedule, Loaded(schedule, m, program).adds, EntryLoads(schedule, m, program, e).0,
                       m.numSegments, EntryFrame(m, e))
  {
    var base, loaded, frame := m.numSegments, Loaded(schedule, m, program), EntryFrame(m, e);
    LoadExtends(schedule, Counted(m), Relocatable(base, 0), program);
    forall p: Relocatable | p.segmentIndex > base
      ensures p !in loaded.cells
    {
      LoadKeepsOtherSegments(schedule, Counted(m), Relocatable(base, 0), program, p);
    }
    forall p: Relocatable | p.segmentIndex > base
      ensures Get(LoadData(schedule, loaded, Relocatable(base + 1, 0), frame).0, p)
           == if p.segmentIndex == base + 1 && p.offset < |frame| && AddsSucceed(schedule, loaded.adds, p.offset + 1)
              then Ok(frame[p.offset]) else Err(GetError)
    {
      if p.segmentIndex == base + 1 {
        SegmentLoads.EmptySegmentCell(schedule, loaded, base + 1, frame, p.offset);
      } else {
        LoadKeepsOtherSegments(schedule, loaded, Relocatable(base + 1, 0), frame, p);
      }
    }
  }

  /**
   * The frame that a function entry point leaves for a caller's stack, whatever the storage and the
   * program's load did: the stack, the return fp, the end pointer, cut off at the first addition that
   * fails, and an end without cells; and whether both loads succeeded. When the storage for the program
   * is found, the additions of the frame follow those of its cells.
   */
  lemma CallFrame(schedule: AddSchedule, start: RunnerState, e: Entry)
    requires MemoryRuns.CellsBelow(start.memory, start.memory.numSegments)
    requires start.memory.numSegments + 3 < U32_RANGE
    ensures var base, frame := start.memory.numSegments, EntryFrame(start.memory, e);
      var (r, end, loaded) := Enter(schedule, start, e);
      && r.programBase == Relocatable(base, 0) && r.executionBase == Relocatable(base + 1, 0)
      && r.initialPc == Relocatable(base, e.entrypoint)
      && r.initialFp == Relocatable(base + 1, Wrap32(|e.stack| + 2))
      && r.finalPc == end == Relocatable(base + 2, 0)
      && frame == e.stack + [Pointer(e.returnFp), Pointer(end)]
      && HoldsFrame(schedule, Loaded(schedule, start.memory, start.program).adds, r.memory, base, frame)
      && (loaded <==> && WrapsConsistently(start.program) && WrapsConsistently(frame)
                      && AddsSucceed(schedule, start.memory.adds, CellCount(start.program) + CellCount(frame)))
    ensures AddsSucceed(schedule, start.memory.adds, CellCount(start.program)) ==>
      Loaded(schedule, start.memory, start.program).adds == start.memory.adds + CellCount(start.program)
  {
    EntryEffect(schedule, start, e);
    FrameIsLoaded(schedule, start.memory, start.program, e);
    FreshEntrySucceedsExactly(schedule, start, e);
    if AddsSucceed(schedule, start.memory.adds, CellCount(start.program)) {
      SegmentLoads.AddsOfEmptySegment(schedule, Counted(start.memory), start.memory.numSegments, start.program);
    }
  }
}
