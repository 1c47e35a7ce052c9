/** One initialisation: the two loads it makes, and what it adds to the memory. */
module RunnerCalls {
  import opened Loading
  import opened MemoryModel
  import opened Relocatables
  import opened RunnerModel
  import opened Words

  import SegmentLoads
  import Traversal

  /** The start of the k-th segment that a call creates. */
  function Segment(m: MemoryState, k: nat): Relocatable {
    Relocatable(Wrap32(m.numSegments + k), 0)
  }

  function Frame(m: MemoryState): seq<MaybeRelocatable> {
    [Pointer(Segment(m, 2)), Pointer(Segment(m, 3))]
  }

  /** The memory once a call has created its four segments. */
  function Counted(m: MemoryState): MemoryState {
    m.(numSegments := Wrap32(m.numSegments + 4))
  }

  /** The memory once a call has loaded the program, as far as that went. */
  function Loaded(schedule: AddSchedule, m: MemoryState, program: seq<MaybeRelocatable>): MemoryState {
    LoadData(schedule, Counted(m), Segment(m, 0), program).0
  }

  /** The two loads of a call, and whether both succeed. */
  function CallLoads(schedule: AddSchedule, m: MemoryState, program: seq<MaybeRelocatable>): (MemoryState, bool) {
    var (loaded, programLoad) := LoadData(schedule, Counted(m), Segment(m, 0), program);
    var (ready, stackLoad) := LoadData(schedule, loaded, Segment(m, 1), Frame(m));
    (ready, programLoad.Ok? && stackLoad.Ok?)
  }

  /** The runner that a call leaves: its registers follow from the segments it created. */
  function AfterCall(r: RunnerState, memory: MemoryState): RunnerState {
    var pc := Relocatable(Segment(r.memory, 0).segmentIndex, r.main);
    var fp := Relocatable(Segment(r.memory, 1).segmentIndex, 2);
    RunnerState(r.program, r.main, memory, RunContext(pc, fp, fp),
                Segment(r.memory, 0), Segment(r.memory, 1), pc, fp, Segment(r.memory, 3))
  }

  lemma CountersOfCall(m: MemoryState)
    ensures var one := AddSegment(m); var two := AddSegment(one.0);
      var three := AddSegment(two.0); var four := AddSegment(three.0);
      && one.1 == Segment(m, 0) && two.1 == Segment(m, 1) && three.1 == Segment(m, 2) && four.1 == Segment(m, 3)
      && four.0 == Counted(m)
  {
  }

  lemma CallEffect(schedule: AddSchedule, r: RunnerState)
    ensures var (memory, loaded) := CallLoads(schedule, r.memory, r.program);
      Initialize(schedule, r) == (AfterCall(r, memory), Segment(r.memory, 3), loaded)
  {
    CountersOfCall(r.memory);
    assert [] + Frame(r.memory) == Frame(r.memory);
    assert AddressAt(Segment(r.memory, 0), r.main) == Relocatable(Segment(r.memory, 0).segmentIndex, r.main);
  }

  lemma CallKeepsCounter(schedule: AddSchedule, m: MemoryState, program: seq<MaybeRelocatable>)
    ensures CallLoads(schedule, m, program).0.numSegments == Wrap32(m.numSegments + 4)
  {
    LoadExtends(schedule, Counted(m), Segment(m, 0), program);
    LoadExtends(schedule, Loaded(schedule, m, program), Segment(m, 1), Frame(m));
  }

  lemma CallExtends(schedule: AddSchedule, m: MemoryState, program: seq<MaybeRelocatable>)
    ensures Extends(m, CallLoads(schedule, m, program).0)
  {
    LoadExtends(schedule, Counted(m), Segment(m, 0), program);
    LoadExtends(schedule, Loaded(schedule, m, program), Segment(m, 1), Frame(m));
  }

  lemma CallKeepsNoHoles(schedule: AddSchedule, m: MemoryState, program: seq<MaybeRelocatable>)
    requires SegmentLoads.NoHoles(m)
    ensures SegmentLoads.NoHoles(CallLoads(schedule, m, program).0)
  {
    SegmentLoads.LoadKeepsNoHoles(schedule, Counted(m), Segment(m, 0).segmentIndex, program);
    SegmentLoads.LoadKeepsNoHoles(schedule, Loaded(schedule, m, program), Segment(m, 1).segmentIndex, Frame(m));
  }

  // When both loads succeed

  /** How many of the cells that a call writes are not there yet. */
  ghost function MissingCells(m: MemoryState, program: seq<MaybeRelocatable>): nat {
    NewCells(m, Segment(m, 0), program) + NewCells(m, Segment(m, 1), Frame(m))
  }

  /** For any memory: both loads are loadable, and the storage for their missing cells is found. */
  lemma CallSucceedsExactly(schedule: AddSchedule, m: MemoryState, program: seq<MaybeRelocatable>)
    ensures CallLoads(schedule, m, program).1
       <==> && Loadable(Counted(m), Segment(m, 0), program)
            && Loadable(Counted(m), Segment(m, 1), Frame(m))
            && AddsSucceed(schedule, m.adds, MissingCells(m, program))
  {
    SegmentLoads.TwoLoadsSucceedExactly(schedule, Counted(m), Segment(m, 0), program, Segment(m, 1), Frame(m));
    assert NewCells(Counted(m), Segment(m, 0), program) == NewCells(m, Segment(m, 0), program);
    assert NewCells(Counted(m), Segment(m, 1), Frame(m)) == NewCells(m, Segment(m, 1), Frame(m));
  }

  /** A call whose fourth segment wraps the counter to zero has its stack refused. */
  lemma WrappedCall(schedule: AddSchedule, m: MemoryState, program: seq<MaybeRelocatable>)
    requires m.numSegments == 0xFFFF_FFFC
    ensures CallLoads(schedule, m, program) == (Counted(m), false)
  {
  }

  // Blocks of four segments

  lemma SegmentsOfBlock(m: MemoryState, block: nat)
    requires block < 0x4000_0000 && m.numSegments == 4 * block
    ensures Segment(m, 0).segmentIndex == 4 * block && Segment(m, 1).segmentIndex == 4 * block + 1
    ensures Segment(m, 3).segmentIndex == 4 * block + 3
    ensures block < 0x3FFF_FFFF ==>
      Counted(m).numSegments == 4 * block + 4 && Frame(m) == BlockFrame(block)
  {
  }

  /** The frame of the call that gets a block: the return fp and the end. */
  function BlockFrame(block: nat): seq<MaybeRelocatable>
    requires block < 0x4000_0000
  {
    [Pointer(Relocatable(4 * block + 2, 0)), Pointer(Relocatable(4 * block + 3, 0))]
  }

  ghost predicate IsEmptyBlock(m: MemoryState, block: nat) {
    forall p :: p in m.cells ==> p.segmentIndex / 4 != block
  }

  /** How many additions the load of an address's segment makes before it gets past that address. */
  ghost function AddsToReach(m: MemoryState, p: Relocatable): nat {
    SegmentLoads.AddsUpTo(Traversal.FirstGap(m, p.segmentIndex, 0), p.offset)
  }

  /** A call that gets the address's block finds a value for it and the storage up to it. */
  ghost predicate CallReaches(
    schedule: AddSchedule, m: MemoryState, program: seq<MaybeRelocatable>, p: Relocatable)
  {
    && p.segmentIndex / 4 < 0x3FFF_FFFF
    && (|| (p.segmentIndex % 4 == 0 && p.offset < |program| && AddsSucceed(schedule, m.adds, AddsToReach(m, p)))
        || (p.segmentIndex % 4 == 1 && p.offset < 2
            && AddsSucceed(schedule, Loaded(schedule, m, program).adds, AddsToReach(m, p))))
  }

  /** A call leaves every other block alone. */
  lemma OtherBlockIsKept(
    schedule: AddSchedule, m: MemoryState, program: seq<MaybeRelocatable>, block: nat, p: Relocatable)
    requires block < 0x4000_0000 && m.numSegments == 4 * block && p.segmentIndex / 4 != block
    ensures Get(CallLoads(schedule, m, program).0, p) == Get(m, p)
  {
    SegmentsOfBlock(m, block);
    CallExtends(schedule, m, program);
    LoadKeepsOtherSegments(schedule, Counted(m), Segment(m, 0), program, p);
    LoadKeepsOtherSegments(schedule, Loaded(schedule, m, program), Segment(m, 1), Frame(m), p);
  }

  /** On an empty block every cell is missing. */
  lemma MissingCellsOfEmptyBlock(m: MemoryState, program: seq<MaybeRelocatable>, block: nat)
    requires block < 0x3FFF_FFFF && m.numSegments == 4 * block && IsEmptyBlock(m, block)
    ensures MissingCells(m, program) == CellCount(program) + 2
  {
    SegmentsOfBlock(m, block);
    SegmentLoads.NewCellsOfEmptySegment(m, 4 * block, program);
    SegmentLoads.NewCellsOfEmptySegment(m, 4 * block + 1, Frame(m));
  }
}
