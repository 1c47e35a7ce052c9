/** The runner object of src/cairo_runner.c. */
module Runner {
  import opened Heap
  import opened Memory
  import opened MemoryModel
  import opened Relocatables
  import opened RunnerModel
  import opened Words

  import HashTable

  /** The start of the k-th segment that is created when the counter stands at `counter`. */
  function NewSegment(counter: uint32, k: nat): Relocatable {
    Relocatable(Wrap32(counter + k), 0)
  }

  class Runner {
    const program: PointerArray
    const main: uint32
    const memory: Memory
    var context: RunContext
    var programBase: Relocatable
    var executionBase: Relocatable
    var initialPc: Relocatable
    var initialFp: Relocatable
    var finalPc: Relocatable

    ghost predicate Valid()
      reads memory, memory.heap, memory.data
    {
      memory.Valid()
    }

    ghost function View(): RunnerState
      reads this, program, memory, memory.data
    {
      RunnerState(program.Values(), main, memory.State(), context,
                  programBase, executionBase, initialPc, initialFp, finalPc)
    }

    constructor (heap: Allocator, schedule: AddSchedule, program: PointerArray, main: uint32)
      ensures Valid() && fresh(memory) && fresh(memory.data)
      ensures this.program == program && this.main == main
      ensures memory.heap == heap && memory.data.schedule == schedule
      ensures View() == NewRunner(program.Values(), main)
      ensures memory.OtherBlocks() == heap.live && memory.taken == []
      ensures context.pc == context.ap == context.fp == Relocatable(0, 0)
      ensures programBase == executionBase == Relocatable(0, 0)
      ensures initialPc == initialFp == finalPc == Relocatable(0, 0)
      ensures memory.numSegments == 0 && memory.data.entries == []
    {
      this.program := program;
      this.main := main;
      memory := new Memory(heap, schedule);
      context := RunContext(ORIGIN, ORIGIN, ORIGIN);
      programBase, executionBase := ORIGIN, ORIGIN;
      initialPc, initialFp, finalPc := ORIGIN, ORIGIN, ORIGIN;
    }

    method InitializeSegments()
      requires Valid()
      modifies this, memory`numSegments
      ensures Valid() && memory.OtherBlocks() == old(memory.OtherBlocks())
      ensures View() == RunnerModel.InitializeSegments(old(View()))
      ensures programBase == NewSegment(old(memory.numSegments), 0)
      ensures executionBase == NewSegment(old(memory.numSegments), 1)
      ensures memory.numSegments == Wrap32(old(memory.numSegments) + 2)
      ensures unchanged(`context, `initialPc, `initialFp, `finalPc)
    {
      WrapTwice(memory.numSegments + 1, 1);
      programBase := memory.AddSegment();
      executionBase := memory.AddSegment();
    }

    /** The results of both loads are ignored; the ghost result tells whether they were successes. */
    method InitializeState(entrypoint: uint32, stack: PointerArray) returns (ghost loaded: bool)
      requires Valid()
      modifies `initialPc, memory.heap, memory.data, memory`taken
      ensures Valid() && memory.OtherBlocks() == old(memory.OtherBlocks())
      ensures (View(), loaded)
           == RunnerModel.InitializeState(memory.data.schedule, old(View()), entrypoint, stack.Values())
      ensures initialPc == Relocatable(programBase.segmentIndex, Wrap32(programBase.offset + entrypoint))
    {
      ghost var schedule, before, frame := memory.data.schedule, memory.State(), stack.Values();
      initialPc := programBase.(offset := Wrap32(programBase.offset + entrypoint));
      var programLoad := memory.LoadData(programBase, program);
      ghost var between := memory.State();
      assert (between, programLoad) == LoadData(schedule, before, programBase, program.Values());
      var stackLoad := memory.LoadData(executionBase, stack);
      assert (memory.State(), stackLoad) == LoadData(schedule, between, executionBase, frame);
      loaded := programLoad.Ok? && stackLoad.Ok?;
    }

    /** Appends to the caller's stack, which may be the program's own array. */
    method InitializeFunctionEntrypoint(entrypoint: uint32, stack: PointerArray, returnFp: Relocatable)
      returns (end: Relocatable, ghost loaded: bool)
      requires Valid()
      modifies this, stack, memory, memory.heap, memory.data
      ensures Valid() && memory.OtherBlocks() == old(memory.OtherBlocks())
      ensures stack.Values() == old(stack.Values()) + [Pointer(returnFp), Pointer(end)]
      ensures (View(), end, loaded)
           == RunnerModel.InitializeFunctionEntrypoint(memory.data.schedule, old(View()).(program := program.Values()),
                                                 entrypoint, old(stack.Values()), returnFp)
      ensures end == finalPc == Relocatable(old(memory.numSegments), 0)
      ensures memory.numSegments == Wrap32(old(memory.numSegments) + 1)
      ensures initialPc == Relocatable(programBase.segmentIndex, Wrap32(programBase.offset + entrypoint))
      ensures initialFp
           == Relocatable(executionBase.segmentIndex, Wrap32(|old(stack.Values())| + 2))
      ensures unchanged(`context, `programBase, `executionBase)
    {
      end := memory.AddSegment();
      stack.AddLocals(Pointer(returnFp), Pointer(end));
      initialFp := Relocatable(executionBase.segmentIndex, Wrap32(|stack.items|));
      loaded := InitializeState(entrypoint, stack);
      finalPc := end;
    }

    method InitializeMainEntrypoint() returns (end: Relocatable, ghost loaded: bool)
      requires Valid()
      modifies this, memory, memory.heap, memory.data
      ensures Valid() && memory.OtherBlocks() == old(memory.OtherBlocks())
      ensures (View(), end, loaded) == RunnerModel.InitializeMainEntrypoint(memory.data.schedule, old(View()))
      ensures end == finalPc == NewSegment(old(memory.numSegments), 1)
      ensures memory.numSegments == Wrap32(old(memory.numSegments) + 2)
      ensures initialPc == Relocatable(programBase.segmentIndex, Wrap32(programBase.offset + main))
      ensures initialFp == Relocatable(executionBase.segmentIndex, 2)
      ensures unchanged(`context, `programBase, `executionBase)
    {
      WrapTwice(memory.numSegments + 1, 1);
      var stack := new PointerArray();
      var returnFp := memory.AddSegment();
      end, loaded := InitializeFunctionEntrypoint(main, stack, returnFp);
    }

    method InitializeVm()
      modifies `context
      ensures View() == RunnerModel.InitializeVm(old(View()))
      ensures context.pc == initialPc && context.ap == initialFp && context.fp == initialFp
    {
      context := RunContext(initialPc, initialFp, initialFp);
    }

    method Initialize() returns (end: Relocatable, ghost loaded: bool)
      requires Valid()
      modifies this, memory, memory.heap, memory.data
      ensures Valid() && memory.OtherBlocks() == old(memory.OtherBlocks())
      ensures (View(), end, loaded) == RunnerModel.Initialize(memory.data.schedule, old(View()))
      ensures programBase == NewSegment(old(memory.numSegments), 0)
      ensures executionBase == NewSegment(old(memory.numSegments), 1)
      ensures end == finalPc == NewSegment(old(memory.numSegments), 3)
      ensures memory.numSegments == Wrap32(old(memory.numSegments) + 4)
      ensures initialPc == Relocatable(programBase.segmentIndex, main)
      ensures initialFp == Relocatable(executionBase.segmentIndex, 2)
      ensures context.pc == initialPc && context.ap == initialFp && context.fp == initialFp
    {
      WrapTwice(memory.numSegments + 2, 1);
      WrapTwice(memory.numSegments + 2, 2);
      InitializeSegments();
      end, loaded := InitializeMainEntrypoint();
      InitializeVm();
    }

    /** Releases the memory's blocks and then the program's. */
    method Free()
      requires Valid()
      requires DistinctItems(program.items) && ItemBlocks(program.items) <= memory.OtherBlocks()
      modifies memory.heap, memory.data, program
      ensures memory.heap.live
           == old(memory.heap.live) - old(HashTable.BlocksOf(memory.data.entries)) - old(ItemBlocks(program.items))
    {
      HashTable.SelectedEntriesAreDistinct(memory.data.entries, memory.taken);
      memory.Free();
      program.RemoveAllFree(memory.heap);
    }
  }
}
