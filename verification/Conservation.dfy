/** Allocation and release of blocks, at every point of the life of a memory and of a runner. */
module Conservation {
  import opened Accounting
  import opened HashTable
  import opened Heap
  import opened Memory
  import opened MemoryModel
  import opened Relocatables
  import opened Runner
  import opened RunnerModel

  import RunnerCalls
  import RunnerImage
  import RunnerTheorems
  import Words

  // Initialisations

  lemma InitializeAccounts(schedule: AddSchedule, r: RunnerState)
    requires Accounted(schedule, r.memory)
    ensures Accounted(schedule, Initialize(schedule, r).0.memory)
  {
    var m, program := r.memory, r.program;
    RunnerCalls.CallEffect(schedule, r);
    LoadAccounts(schedule, RunnerCalls.Counted(m), RunnerCalls.Segment(m, 0), program);
    LoadAccounts(schedule, RunnerCalls.Loaded(schedule, m, program), RunnerCalls.Segment(m, 1), RunnerCalls.Frame(m));
  }

  // The blocks taken and the blocks stored

  lemma SameSize(part: set<object>, whole: set<object>)
    requires part <= whole
    ensures part == whole <==> |part| == |whole|
  {
    assert whole == part + (whole - part) && |whole| == |part| + |whole - part|;
  }

  /**
   * Of the pairs of blocks taken, the table holds one for each cell: all of them exactly when there
   * are as many cells.
   */
  lemma LiveAreStored(entries: seq<TableEntry>, taken: seq<TableEntry>)
    requires DistinctKeys(entries) && DistinctBlocks(taken)
    requires forall i :: 0 <= i < |entries| ==> entries[i] in taken
    ensures BlocksOf(entries) <= BlocksOf(taken)
    ensures |BlocksOf(taken)| == 2 * |taken| && |BlocksOf(entries)| == 2 * |CellsOf(entries)|
    ensures BlocksOf(taken) == BlocksOf(entries) <==> |taken| == |CellsOf(entries)|
  {
    SelectedEntriesAreDistinct(entries, taken);
    EntriesCountBlocks(taken);
    EntriesCountBlocks(entries);
    EntriesCountCells(entries);
    SameSize(BlocksOf(entries), BlocksOf(taken));
  }

  /** The live blocks are the others, a key and a value for each cell, and two for each failed addition. */
  ghost predicate Balanced(memory: Memory)
    reads memory, memory.heap, memory.data
  {
    var failed := Failures(memory.data.schedule, 0, memory.data.adds);
    && |memory.heap.live| == |memory.OtherBlocks()| + 2 * |memory.data.Cells()| + 2 * failed
    && (memory.heap.live == memory.OtherBlocks() + BlocksOf(memory.data.entries) <==> failed == 0)
    && |BlocksOf(memory.data.entries)| == 2 * |memory.data.Cells()|
  }

  lemma AccountedIsBalanced(memory: Memory)
    requires memory.Valid() && Accounted(memory.data.schedule, memory.State())
    ensures Balanced(memory)
  {
    var live, taken, stored := memory.heap.live, BlocksOf(memory.taken), BlocksOf(memory.data.entries);
    LiveAreStored(memory.data.entries, memory.taken);
    assert live == memory.OtherBlocks() + taken && |live| == |memory.OtherBlocks()| + |taken|;
    if live == memory.OtherBlocks() + stored {
      assert taken == live - memory.OtherBlocks() == stored;
    }
  }

  method ArrayOf(data: seq<MaybeRelocatable>) returns (items: PointerArray)
    ensures fresh(items) && items.Values() == data
  {
    items := new PointerArray();
    for i := 0 to |data|
      invariant fresh(items) && items.Values() == data[..i]
    {
      var item := new ValueBlock(data[i]);
      items.Add(item);
    }
  }

  /** Any operations on a memory: the object follows the run, and its blocks stay balanced throughout. */
  method Perform(memory: Memory, ops: seq<Operation>)
    requires memory.Valid() && Accounted(memory.data.schedule, memory.State())
    modifies memory, memory.heap, memory.data
    ensures memory.Valid() && memory.OtherBlocks() == old(memory.OtherBlocks())
    ensures memory.State() == Run(memory.data.schedule, old(memory.State()), ops)
    ensures Accounted(memory.data.schedule, memory.State()) && Balanced(memory)
  {
    ghost var schedule, start := memory.data.schedule, memory.State();
    RunAccounts(schedule, start, ops);
    for i := 0 to |ops|
      invariant memory.Valid() && memory.OtherBlocks() == old(memory.OtherBlocks())
      invariant Run(schedule, start, ops) == Run(schedule, memory.State(), ops[i..])
    {
      assert ops[i..][1..] == ops[i + 1..];
      match ops[i] {
        case AddSegmentOp =>
          var base := memory.AddSegment();
        case InsertOp(ptr, value) =>
          var inserted := memory.Insert(ptr, value);
        case LoadDataOp(ptr, data) =>
          var items := ArrayOf(data);
          var loaded := memory.LoadData(ptr, items);
      }
    }
    AccountedIsBalanced(memory);
  }

  lemma RunExtended(schedule: AddSchedule, states: seq<RunnerState>, next: RunnerState)
    requires IsRun(schedule, states) && states != []
    requires next == Initialize(schedule, states[|states| - 1]).0
    ensures IsRun(schedule, states + [next])
  {
  }

  /** Nothing but the image of the calls, and all of it if the storage was found. */
  ghost predicate HoldsImage(schedule: AddSchedule, m: MemoryState, program: seq<MaybeRelocatable>, calls: nat) {
    var blocks := RunnerTheorems.ImageBlocks(calls);
    && RunnerTheorems.WithinImage(m, program, blocks)
    && (AddsSucceed(schedule, 0, RunnerImage.ImageAdds(program, blocks)) ==>
          RunnerImage.IsImage(m, program, blocks))
  }

  lemma RunHoldsImage(
    schedule: AddSchedule, states: seq<RunnerState>, program: seq<MaybeRelocatable>, main: Words.uint32, calls: nat)
    requires IsRun(schedule, states) && calls < |states| && states[0] == NewRunner(program, main)
    ensures HoldsImage(schedule, states[calls].memory, program, calls)
  {
    RunnerTheorems.RunWithinImage(schedule, states, program, main, calls);
    RunnerImage.RunImage(schedule, states, program, main, calls);
  }

  /** Successive initialisations of a new runner follow a run of the model, and keep the blocks balanced. */
  method InitializeTimes(runner: Runner, calls: nat) returns (ghost states: seq<RunnerState>)
    requires runner.Valid() && runner.View() == NewRunner(runner.program.Values(), runner.main)
    modifies runner, runner.memory, runner.memory.heap, runner.memory.data
    ensures runner.Valid() && runner.memory.OtherBlocks() == old(runner.memory.OtherBlocks())
    ensures |states| == calls + 1 && IsRun(runner.memory.data.schedule, states)
    ensures states[0] == old(runner.View()) && states[calls] == runner.View()
    ensures RunnerTheorems.Reached(runner.View(), old(runner.program.Values()), runner.main, calls)
    ensures HoldsImage(runner.memory.data.schedule, runner.memory.State(), old(runner.program.Values()), calls)
    ensures Accounted(runner.memory.data.schedule, runner.memory.State()) && Balanced(runner.memory)
  {
    ghost var schedule := runner.memory.data.schedule;
    states := [runner.View()];
    for i := 0 to calls
      invariant runner.Valid() && runner.memory.OtherBlocks() == old(runner.memory.OtherBlocks())
      invariant |states| == i + 1 && IsRun(schedule, states)
      invariant states[0] == old(runner.View()) && states[i] == runner.View()
      invariant Accounted(schedule, runner.memory.State())
    {
      InitializeAccounts(schedule, runner.View());
      var end, loaded := runner.Initialize();
      RunExtended(schedule, states, runner.View());
      states := states + [runner.View()];
    }
    RunnerTheorems.RunReaches(schedule, states, old(runner.program.Values()), runner.main, calls);
    RunHoldsImage(schedule, states, old(runner.program.Values()), runner.main, calls);
    AccountedIsBalanced(runner.memory);
  }

  // Release

  /** What remains of `others` and of the blocks taken, once `items` and the stored blocks are released. */
  ghost predicate Remains(left: set<object>, others: set<object>, items: set<object>, failed: int) {
    others - items <= left && |left| == |others| - |items| + 2 * failed
  }

  /**
   * Taking blocks for insertions and releasing those of the table and of the program leaves the
   * other blocks, and two for each addition that failed.
   */
  lemma ReleaseLeaves(entries: seq<TableEntry>, taken: seq<TableEntry>, others: set<object>, items: set<object>)
    requires DistinctKeys(entries) && DistinctBlocks(taken)
    requires forall i :: 0 <= i < |entries| ==> entries[i] in taken
    requires others !! BlocksOf(taken) && items <= others
    ensures Remains(others + BlocksOf(taken) - BlocksOf(entries) - items, others, items, |taken| - |CellsOf(entries)|)
  {
    LiveAreStored(entries, taken);
    Balance(others, BlocksOf(taken), BlocksOf(entries), items);
  }

  lemma Balance(others: set<object>, taken: set<object>, stored: set<object>, items: set<object>)
    requires others !! taken && stored <= taken && items <= others
    ensures var left := others + taken - stored - items;
      others - items <= left && |left| == |others| - |items| + |taken| - |stored|
  {
  }

  /** The release of a runner, seen from the blocks that remain. */
  method Release(runner: Runner)
    requires runner.Valid()
    requires DistinctItems(runner.program.items) && ItemBlocks(runner.program.items) <= runner.memory.OtherBlocks()
    modifies runner.memory.heap, runner.memory.data, runner.program
    ensures Remains(runner.memory.heap.live, old(runner.memory.OtherBlocks()), old(ItemBlocks(runner.program.items)),
                    old(runner.memory.data.adds) - |old(runner.memory.data.Cells())|)
  {
    ghost var entries, taken := runner.memory.data.entries, runner.memory.taken;
    ghost var others, items := runner.memory.OtherBlocks(), ItemBlocks(runner.program.items);
    ReleaseLeaves(entries, taken, others, items);
    runner.Free();
    assert runner.memory.heap.live == others + BlocksOf(taken) - BlocksOf(entries) - items;
  }

  lemma NothingLost(left: set<object>, others: set<object>, items: set<object>)
    requires others - items <= left && items <= others
    ensures left == others - items <==> |left| == |others| - |items|
  {
    assert others == (others - items) + items && |others| == |others - items| + |items|;
    SameSize(others - items, left);
  }

  /**
   * A runner's whole life: creation, any number of initialisations, and release. Besides the
   * program's own blocks, which it releases, it returns exactly what it took, except for two blocks
   * for each addition that failed.
   */
  method RunnerLife(heap: Allocator, schedule: AddSchedule, program: PointerArray, main: Words.uint32, calls: nat)
    returns (ghost states: seq<RunnerState>)
    requires DistinctItems(program.items) && ItemBlocks(program.items) <= heap.live
    modifies heap, program
    ensures |states| == calls + 1 && IsRun(schedule, states)
    ensures states[0] == NewRunner(old(program.Values()), main)
    ensures RunnerTheorems.Reached(states[calls], old(program.Values()), main, calls)
    ensures HoldsImage(schedule, states[calls].memory, old(program.Values()), calls)
    ensures old(heap.live) - old(ItemBlocks(program.items)) <= heap.live
    ensures |heap.live|
         == |old(heap.live)| - |old(program.items)| + 2 * Failures(schedule, 0, states[calls].memory.adds)
    ensures heap.live == old(heap.live) - old(ItemBlocks(program.items))
       <==> Failures(schedule, 0, states[calls].memory.adds) == 0
  {
    ItemsCountBlocks(program.items);
    var runner := new Runner(heap, schedule, program, main);
    states := InitializeTimes(runner, calls);
    Release(runner);
    NothingLost(heap.live, old(heap.live), old(ItemBlocks(program.items)));
  }
}
