/** The exact memory at every point of every run of initialisations. */
module RunnerImage {
  import opened Loading
  import opened MemoryModel
  import opened Relocatables
  import opened RunnerCalls
  import opened RunnerModel
  import opened RunnerTheorems
  import opened Words

  import SegmentLoads
  import Traversal

  // One call, address by address

  /** A segment without holes whose cells are elements of the data holds the first of them. */
  lemma SegmentHoldsPrefix(m: MemoryState, segment: uint32, data: seq<MaybeRelocatable>)
    requires SegmentLoads.NoHoles(m)
    requires forall p :: p in m.cells && p.segmentIndex == segment ==>
      p.offset < |data| && m.cells[p] == data[p.offset]
    ensures SegmentLoads.HoldsPrefix(m.cells, segment, data, Traversal.FirstGap(m, segment, 0))
  {
    var gap := Traversal.FirstGap(m, segment, 0);
    Traversal.FirstGapBounds(m, segment, 0);
    if |data| < U32_RANGE {
      assert Relocatable(segment, |data|) !in m.cells;
    }
    forall o: uint32
      ensures Relocatable(segment, o) in m.cells <==> o < gap
    {
      if gap <= o {
        assert Relocatable(segment, gap) !in m.cells;
      }
    }
  }

  lemma ProgramHoldsPrefix(m: MemoryState, program: seq<MaybeRelocatable>, block: nat, blocks: nat)
    requires block < 0x4000_0000 && WithinImage(m, program, blocks) && SegmentLoads.NoHoles(m)
    ensures SegmentLoads.HoldsPrefix(m.cells, 4 * block, program, Traversal.FirstGap(m, 4 * block, 0))
  {
    SegmentHoldsPrefix(m, 4 * block, program);
  }

  lemma ProgramCell(
    schedule: AddSchedule, m: MemoryState, program: seq<MaybeRelocatable>, block: nat, blocks: nat, p: Relocatable)
    requires block < 0x3FFF_FFFF && m.numSegments == 4 * block && p.segmentIndex == 4 * block
    requires WithinImage(m, program, blocks) && SegmentLoads.NoHoles(m)
    ensures Get(CallLoads(schedule, m, program).0, p)
         == if p.offset < |program| && AddsSucceed(schedule, m.adds, AddsToReach(m, p)) then Ok(program[p.offset])
            else Err(GetError)
  {
    SegmentsOfBlock(m, block);
    ProgramHoldsPrefix(m, program, block, blocks);
    SegmentLoads.PrefixSegmentCell(
      schedule, Counted(m), 4 * block, program, Traversal.FirstGap(m, 4 * block, 0), p.offset);
    StackLoadKeeps(schedule, m, program, p);
  }

  lemma StackLoadKeeps(schedule: AddSchedule, m: MemoryState, program: seq<MaybeRelocatable>, p: Relocatable)
    requires p.segmentIndex != Segment(m, 1).segmentIndex
    ensures Get(CallLoads(schedule, m, program).0, p) == Get(Loaded(schedule, m, program), p)
  {
    LoadExtends(schedule, Loaded(schedule, m, program), Segment(m, 1), Frame(m));
    LoadKeepsOtherSegments(schedule, Loaded(schedule, m, program), Segment(m, 1), Frame(m), p);
  }

  lemma FrameHoldsPrefix(m: MemoryState, program: seq<MaybeRelocatable>, block: nat, blocks: nat)
    requires block < 0x4000_0000 && WithinImage(m, program, blocks) && SegmentLoads.NoHoles(m)
    ensures var segment := 4 * block + 1;
      SegmentLoads.HoldsPrefix(m.cells, segment, BlockFrame(block), Traversal.FirstGap(m, segment, 0))
  {
    SegmentHoldsPrefix(m, 4 * block + 1, BlockFrame(block));
  }

  lemma LoadedHoldsFrame(
    schedule: AddSchedule, m: MemoryState, program: seq<MaybeRelocatable>, block: nat, blocks: nat)
    requires block < 0x3FFF_FFFF && m.numSegments == 4 * block
    requires WithinImage(m, program, blocks) && SegmentLoads.NoHoles(m)
    ensures var held := Traversal.FirstGap(m, 4 * block + 1, 0);
      SegmentLoads.HoldsPrefix(Loaded(schedule, m, program).cells, 4 * block + 1, BlockFrame(block), held)
    ensures Loaded(schedule, m, program).numSegments == 4 * block + 4
  {
    var held := Traversal.FirstGap(m, 4 * block + 1, 0);
    SegmentsOfBlock(m, block);
    LoadExtends(schedule, Counted(m), Segment(m, 0), program);
    FrameHoldsPrefix(m, program, block, blocks);
    SegmentLoads.PrefixIsKept(
      schedule, Counted(m), Segment(m, 0), program, 4 * block + 1, BlockFrame(block), held);
  }

  lemma FrameCell(
    schedule: AddSchedule, m: MemoryState, program: seq<MaybeRelocatable>, block: nat, blocks: nat, p: Relocatable)
    requires block < 0x3FFF_FFFF && m.numSegments == 4 * block && p.segmentIndex == 4 * block + 1
    requires WithinImage(m, program, blocks) && SegmentLoads.NoHoles(m)
    ensures Get(CallLoads(schedule, m, program).0, p)
         == if p.offset < 2 && AddsSucceed(schedule, Loaded(schedule, m, program).adds, AddsToReach(m, p))
            then Ok(BlockFrame(block)[p.offset]) else Err(GetError)
  {
    var held := Traversal.FirstGap(m, 4 * block + 1, 0);
    SegmentsOfBlock(m, block);
    LoadedHoldsFrame(schedule, m, program, block, blocks);
    SegmentLoads.PrefixSegmentCell(
      schedule, Loaded(schedule, m, program), 4 * block + 1, BlockFrame(block), held, p.offset);
  }

  /** What a call leaves at an address of its block, whatever earlier calls left there. */
  lemma CallCell(
    schedule: AddSchedule, m: MemoryState, program: seq<MaybeRelocatable>, block: nat, blocks: nat, p: Relocatable)
    requires block < 0x3FFF_FFFF && m.numSegments == 4 * block && p.segmentIndex / 4 == block
    requires WithinImage(m, program, blocks) && SegmentLoads.NoHoles(m)
    ensures Get(CallLoads(schedule, m, program).0, p)
         == if CallReaches(schedule, m, program, p) then Ok(ImageValue(program, p)) else Err(GetError)
  {
    if p.segmentIndex == 4 * block {
      ProgramCell(schedule, m, program, block, blocks, p);
    } else if p.segmentIndex == 4 * block + 1 {
      FrameCell(schedule, m, program, block, blocks, p);
    } else {
      SegmentsOfBlock(m, block);
      assert !InImage(program, blocks, p);
      LoadKeepsOtherSegments(schedule, Counted(m), Segment(m, 0), program, p);
      StackLoadKeeps(schedule, m, program, p);
    }
  }

  /** Some call of the run, before the given number of calls, got the address's block and reached the address. */
  ghost predicate RunReachesCell(
    schedule: AddSchedule, states: seq<RunnerState>, program: seq<MaybeRelocatable>, calls: nat, p: Relocatable)
    requires calls <= |states|
  {
    exists call: nat :: call < calls
      && BlockAfter(call) == p.segmentIndex / 4 && CallReaches(schedule, states[call].memory, program, p)
  }

  lemma OneMoreReaches(
    schedule: AddSchedule, states: seq<RunnerState>, program: seq<MaybeRelocatable>, calls: nat, p: Relocatable)
    requires 1 <= calls <= |states|
    ensures RunReachesCell(schedule, states, program, calls, p)
       <==> || RunReachesCell(schedule, states, program, calls - 1, p)
            || (BlockAfter(calls - 1) == p.segmentIndex / 4
                && CallReaches(schedule, states[calls - 1].memory, program, p))
  {
  }

  /** A cell that is stored is reached again by every call that gets its block. */
  lemma StoredIsReached(
    schedule: AddSchedule, m: MemoryState, program: seq<MaybeRelocatable>, blocks: nat, p: Relocatable)
    requires WithinImage(m, program, blocks) && SegmentLoads.NoHoles(m)
    requires p in m.cells && blocks <= 0x3FFF_FFFF
    ensures CallReaches(schedule, m, program, p)
  {
    Traversal.FirstGapBounds(m, p.segmentIndex, 0);
    assert InImage(program, blocks, p);
  }

  lemma NextCallCell(
    schedule: AddSchedule, m: MemoryState, program: seq<MaybeRelocatable>, calls: nat, p: Relocatable)
    requires m.numSegments == 4 * BlockAfter(calls)
    requires WithinImage(m, program, ImageBlocks(calls)) && SegmentLoads.NoHoles(m)
    ensures Get(CallLoads(schedule, m, program).0, p)
         == if BlockAfter(calls) == p.segmentIndex / 4 && CallReaches(schedule, m, program, p)
            then Ok(ImageValue(program, p)) else Get(m, p)
  {
    var block := BlockAfter(calls);
    if block != p.segmentIndex / 4 {
      OtherBlockIsKept(schedule, m, program, block, p);
    } else if block == 0x3FFF_FFFF {
      WrappedCall(schedule, m, program);
    } else {
      CallCell(schedule, m, program, block, ImageBlocks(calls), p);
      if p in m.cells {
        StoredIsReached(schedule, m, program, ImageBlocks(calls), p);
      }
    }
  }

  /**
   * Each address at every point of every run, whatever the program and the storage, past the wrap of
   * the counter too: it holds its value of the image exactly when some call reached it.
   */
  lemma {:induction false} RunCellsExactly(
    schedule: AddSchedule, states: seq<RunnerState>, program: seq<MaybeRelocatable>, main: uint32, calls: nat,
    p: Relocatable)
    requires IsRun(schedule, states) && calls < |states| && states[0] == NewRunner(program, main)
    ensures Get(states[calls].memory, p)
         == if RunReachesCell(schedule, states, program, calls, p) then Ok(ImageValue(program, p)) else Err(GetError)
  {
    if calls == 0 {
    } else {
      RunStep(schedule, states, program, main, calls);
      RunCellsExactly(schedule, states, program, main, calls - 1, p);
      NextCallCell(schedule, states[calls - 1].memory, program, calls - 1, p);
      OneMoreReaches(schedule, states, program, calls, p);
    }
  }

  // The whole image

  /** The first call that gets a block makes an addition for each cell up to the address. */
  lemma FreshAdds(m: MemoryState, program: seq<MaybeRelocatable>, block: nat, p: Relocatable)
    requires WithinImage(m, program, block) && p.segmentIndex / 4 == block
    ensures AddsToReach(m, p) == p.offset + 1
  {
    assert Relocatable(p.segmentIndex, 0) !in m.cells;
  }

  lemma FreshCallCell(
    schedule: AddSchedule, m: MemoryState, program: seq<MaybeRelocatable>, block: nat, p: Relocatable)
    requires block < 0x3FFF_FFFF && m.numSegments == 4 * block && p.segmentIndex / 4 == block
    requires WithinImage(m, program, block) && SegmentLoads.NoHoles(m)
    ensures AddsToReach(m, p) == p.offset + 1
    ensures Get(CallLoads(schedule, m, program).0, p)
         == if CallReaches(schedule, m, program, p) then Ok(ImageValue(program, p)) else Err(GetError)
  {
    CallCell(schedule, m, program, block, block, p);
    FreshAdds(m, program, block, p);
  }

  /** The memory holds the image of the given number of calls and nothing else. */
  ghost predicate IsImage(m: MemoryState, program: seq<MaybeRelocatable>, blocks: nat) {
    WithinImage(m, program, blocks) && forall p :: InImage(program, blocks, p) ==> p in m.cells
  }

  /** How many additions the image of the given number of calls takes. */
  function ImageAdds(program: seq<MaybeRelocatable>, blocks: nat): nat {
    blocks * (CellCount(program) + 2)
  }

  lemma ImageAddsSplit(program: seq<MaybeRelocatable>, blocks: nat)
    ensures ImageAdds(program, blocks + 1) == ImageAdds(program, blocks) + (CellCount(program) + 2)
  {
  }

  /** Every cell of a call's block is stored. */
  ghost predicate HoldsBlock(m: MemoryState, program: seq<MaybeRelocatable>, block: nat) {
    forall p: Relocatable :: p.segmentIndex / 4 == block && InImage(program, block + 1, p) ==> p in m.cells
  }

  lemma BlockIsStored(schedule: AddSchedule, m: MemoryState, program: seq<MaybeRelocatable>, block: nat)
    requires block < 0x3FFF_FFFF && m.numSegments == 4 * block
    requires WithinImage(m, program, block) && SegmentLoads.NoHoles(m)
    requires AddsSucceed(schedule, m.adds, CellCount(program) + 2)
    ensures CallLoads(schedule, m, program).0.adds == m.adds + CellCount(program) + 2
    ensures HoldsBlock(CallLoads(schedule, m, program).0, program, block)
  {
    var loaded := Loaded(schedule, m, program);
    SegmentsOfBlock(m, block);
    SegmentLoads.AddsOfEmptySegment(schedule, Counted(m), 4 * block, program);
    LoadExtends(schedule, Counted(m), Segment(m, 0), program);
    SegmentLoads.OtherSegmentIsSame(schedule, Counted(m), Segment(m, 0), program, 4 * block + 1);
    SegmentLoads.AddsOfEmptySegment(schedule, loaded, 4 * block + 1, Frame(m));
    forall p: Relocatable | p.segmentIndex / 4 == block && InImage(program, block + 1, p)
      ensures p in CallLoads(schedule, m, program).0.cells
    {
      FreshCallCell(schedule, m, program, block, p);
    }
  }

  lemma StoredBlockTookAdds(schedule: AddSchedule, m: MemoryState, program: seq<MaybeRelocatable>, block: nat)
    requires block < 0x3FFF_FFFF && m.numSegments == 4 * block
    requires WithinImage(m, program, block) && SegmentLoads.NoHoles(m)
    requires HoldsBlock(CallLoads(schedule, m, program).0, program, block)
    ensures AddsSucceed(schedule, m.adds, CellCount(program) + 2)
  {
    var count := CellCount(program);
    if count > 0 {
      var last := Relocatable(4 * block, count - 1);
      assert InImage(program, block + 1, last);
      FreshCallCell(schedule, m, program, block, last);
    }
    SegmentsOfBlock(m, block);
    SegmentLoads.AddsOfEmptySegment(schedule, Counted(m), 4 * block, program);
    var end := Relocatable(4 * block + 1, 1);
    assert InImage(program, block + 1, end);
    FreshCallCell(schedule, m, program, block, end);
    SegmentLoads.AddsSucceedJoin(schedule, m.adds, count, 2);
  }

  /** A call completes the image of one more block exactly when the storage for that block is found. */
  lemma ImageGrows(schedule: AddSchedule, m: MemoryState, program: seq<MaybeRelocatable>, block: nat)
    requires block < 0x3FFF_FFFF && m.numSegments == 4 * block
    requires WithinImage(m, program, block) && SegmentLoads.NoHoles(m)
    ensures var after := CallLoads(schedule, m, program).0;
      && (IsImage(after, program, block + 1)
          <==> IsImage(m, program, block) && AddsSucceed(schedule, m.adds, CellCount(program) + 2))
      && (AddsSucceed(schedule, m.adds, CellCount(program) + 2) ==> after.adds == m.adds + CellCount(program) + 2)
  {
    var after := CallLoads(schedule, m, program).0;
    CallStaysWithin(schedule, m, program, block, block + 1);
    if AddsSucceed(schedule, m.adds, CellCount(program) + 2) {
      BlockIsStored(schedule, m, program, block);
    }
    forall p | InImage(program, block, p)
      ensures p in after.cells <==> p in m.cells
    {
      OtherBlockIsKept(schedule, m, program, block, p);
    }
    if IsImage(after, program, block + 1) {
      assert forall p :: InImage(program, block, p) ==> InImage(program, block + 1, p);
      StoredBlockTookAdds(schedule, m, program, block);
    }
  }

  /** Before the wrap: the image is whole exactly when the storage was found, which fixes the additions. */
  ghost predicate ImageSoFar(schedule: AddSchedule, m: MemoryState, program: seq<MaybeRelocatable>, calls: nat) {
    var stored := AddsSucceed(schedule, 0, ImageAdds(program, calls));
    && (IsImage(m, program, calls) <==> stored)
    && (stored ==> m.adds == ImageAdds(program, calls))
  }

  lemma ImageStep(schedule: AddSchedule, m: MemoryState, program: seq<MaybeRelocatable>, block: nat)
    requires block < 0x3FFF_FFFF && m.numSegments == 4 * block
    requires WithinImage(m, program, block) && SegmentLoads.NoHoles(m)
    requires ImageSoFar(schedule, m, program, block)
    ensures ImageSoFar(schedule, CallLoads(schedule, m, program).0, program, block + 1)
  {
    ImageGrows(schedule, m, program, block);
    ImageAddsSplit(program, block);
    SegmentLoads.AddsSucceedJoin(schedule, 0, ImageAdds(program, block), CellCount(program) + 2);
  }

  lemma NextImageStep(schedule: AddSchedule, m: MemoryState, program: seq<MaybeRelocatable>, calls: nat)
    requires calls + 1 < 0x4000_0000 && m.numSegments == 4 * BlockAfter(calls)
    requires WithinImage(m, program, ImageBlocks(calls)) && SegmentLoads.NoHoles(m)
    requires ImageSoFar(schedule, m, program, calls)
    ensures ImageSoFar(schedule, CallLoads(schedule, m, program).0, program, calls + 1)
  {
    assert BlockAfter(calls) == ImageBlocks(calls) == calls;
    ImageStep(schedule, m, program, calls);
  }

  lemma EmptyImageSoFar(schedule: AddSchedule, program: seq<MaybeRelocatable>)
    ensures ImageSoFar(schedule, EMPTY_MEMORY, program, 0)
  {
  }

  lemma {:induction false} RunImageBeforeWrap(
    schedule: AddSchedule, states: seq<RunnerState>, program: seq<MaybeRelocatable>, main: uint32, calls: nat)
    requires IsRun(schedule, states) && calls < |states| && states[0] == NewRunner(program, main)
    requires calls < 0x4000_0000
    ensures ImageSoFar(schedule, states[calls].memory, program, calls)
  {
    if calls == 0 {
      EmptyImageSoFar(schedule, program);
    } else {
      RunStep(schedule, states, program, main, calls);
      RunImageBeforeWrap(schedule, states, program, main, calls - 1);
      NextImageStep(schedule, states[calls - 1].memory, program, calls - 1);
    }
  }

  /**
   * The memory at any point of any run is the image of the calls exactly when the storage for it was
   * found; past the wrap of the counter, whenever it was.
   */
  lemma RunImage(
    schedule: AddSchedule, states: seq<RunnerState>, program: seq<MaybeRelocatable>, main: uint32, calls: nat)
    requires IsRun(schedule, states) && calls < |states| && states[0] == NewRunner(program, main)
    ensures AddsSucceed(schedule, 0, ImageAdds(program, ImageBlocks(calls))) ==>
      IsImage(states[calls].memory, program, ImageBlocks(calls))
    ensures calls < 0x4000_0000 && IsImage(states[calls].memory, program, ImageBlocks(calls)) ==>
      AddsSucceed(schedule, 0, ImageAdds(program, ImageBlocks(calls)))
  {
    var blocks := ImageBlocks(calls);
    RunImageBeforeWrap(schedule, states, program, main, blocks);
    RunWithinImage(schedule, states, program, main, calls);
    if IsImage(states[blocks].memory, program, blocks) {
      forall p | InImage(program, blocks, p)
        ensures p in states[calls].memory.cells
      {
        RunKeepsCells(schedule, states, blocks, calls, p);
      }
    }
  }
}
