/** The memory object of src/memory.c. */
module Memory {
  import opened HashTable
  import opened Heap
  import opened MemoryModel
  import opened Relocatables
  import opened Traversal
  import opened Words

  import Loading

  class Memory {
    const heap: Allocator
    const data: Table
    var numSegments: uint32
    /** Every pair of blocks taken for an insertion, the ones whose addition failed included. */
    ghost var taken: seq<TableEntry>

    /** The live blocks that insertions into this memory did not take. */
    ghost function OtherBlocks(): set<object>
      reads this, heap
    {
      heap.live - BlocksOf(taken)
    }

    ghost predicate Valid()
      reads this, heap, data
    {
      && data.Valid()
      && |taken| == data.adds
      && DistinctBlocks(taken)
      && (forall i :: 0 <= i < |data.entries| ==> data.entries[i] in taken)
      && BlocksOf(taken) <= heap.live
    }

    ghost function State(): MemoryState
      reads this, data
    {
      MemoryState(numSegments, data.Cells(), data.adds)
    }

    constructor (heap: Allocator, schedule: AddSchedule)
      ensures Valid() && fresh(data) && this.heap == heap
      ensures State() == EMPTY_MEMORY && data.schedule == schedule && taken == []
      ensures numSegments == 0 && data.entries == [] && data.adds == 0
    {
      this.heap := heap;
      data := new Table(schedule);
      numSegments := 0;
      taken := [];
    }

    method Get(ptr: Relocatable) returns (result: Result<MaybeRelocatable>)
      requires Valid()
      ensures result == MemoryModel.Get(State(), ptr)
      ensures result == if ptr in data.Cells() then Ok(data.Cells()[ptr]) else Err(GetError)
    {
      var value := data.Get(ptr);
      if value.Some? {
        return Ok(value.value.value);
      }
      return Err(GetError);
    }

    /** Stores a value at an address that holds none, if the table can grow. */
    method Store(ptr: Relocatable, value: MaybeRelocatable) returns (added: bool)
      requires Valid() && ptr !in data.Cells()
      modifies heap, data, `taken
      ensures Valid() && added == data.schedule(old(data.adds)) && data.adds == old(data.adds) + 1
      ensures data.Cells() == if added then old(data.Cells())[ptr := value] else old(data.Cells())
      ensures OtherBlocks() == old(OtherBlocks())
    {
      var key, block := heap.AllocatePair(ptr, value);
      BlocksAreEntries(taken);
      Appended(taken, TableEntry(key, block));
      taken := taken + [TableEntry(key, block)];
      added := data.Add(key, block);
    }

    method Insert(ptr: Relocatable, value: MaybeRelocatable) returns (result: Result<()>)
      requires Valid()
      modifies heap, data, `taken
      ensures Valid()
      ensures (State(), result) == MemoryModel.Insert(data.schedule, old(State()), ptr, value)
      ensures result == Ok(()) || result == Err(InsertError)
      ensures result.Err?
         <==> || ptr.segmentIndex >= numSegments
              || (ptr in old(data.Cells()) && old(data.Cells())[ptr] != value)
              || (ptr !in old(data.Cells()) && !data.schedule(old(data.adds)))
      ensures data.Cells() == if result.Ok? then old(data.Cells())[ptr := value] else old(data.Cells())
      ensures Extends(old(State()), State())
      ensures OtherBlocks() == old(OtherBlocks())
    {
      if ptr.segmentIndex >= numSegments {
        return Err(InsertError);
      }
      var previous := data.Get(ptr);
      if previous.Some? {
        if MaybeRelocatableEqual(previous.value.value, value) {
          return Ok(());
        } else {
          return Err(InsertError);
        }
      }
      var added := Store(ptr, value);
      return if added then Ok(()) else Err(InsertError);
    }

    method AddSegment() returns (base: Relocatable)
      requires Valid()
      modifies `numSegments
      ensures Valid() && OtherBlocks() == old(OtherBlocks())
      ensures (State(), base) == MemoryModel.AddSegment(old(State()))
      ensures base == Relocatable(old(numSegments), 0) && numSegments == Wrap32(old(numSegments) + 1)
    {
      base := Relocatable(numSegments, 0);
      numSegments := Wrap32(numSegments + 1);
    }

    method LoadData(ptr: Relocatable, source: PointerArray) returns (result: Result<Relocatable>)
      requires Valid()
      modifies heap, data, `taken
      ensures Valid() && OtherBlocks() == old(OtherBlocks())
      ensures (State(), result) == MemoryModel.LoadData(data.schedule, old(State()), ptr, source.Values())
      ensures result.Ok? <==> Loading.LoadCondition(data.schedule, old(State()), ptr, source.Values())
      ensures result.Ok? ==> Loading.LoadedImage(old(State()), State(), ptr, source.Values())
      ensures Extends(old(State()), State())
      ensures result.Err? ==> result == Err(LoadDataError)
    {
      Loading.LoadExtends(data.schedule, State(), ptr, source.Values());
      Loading.LoadSucceedsExactly(data.schedule, State(), ptr, source.Values());
      ghost var values := source.Values();
      ghost var outcome := MemoryModel.LoadData(data.schedule, State(), ptr, values);
      var current := ptr;
      for i := 0 to |source.items|
        invariant Valid() && OtherBlocks() == old(OtherBlocks())
        invariant outcome == MemoryModel.LoadData(data.schedule, State(), current, values[i..])
      {
        assert values[i..][1..] == values[i + 1..];
        var inserted := Insert(current, source.items[i].value);
        if inserted.Err? {
          return Err(LoadDataError);
        }
        current := current.(offset := Wrap32(current.offset + 1));
      }
      return Ok(current);
    }

    /** The inner loop of `print_memory`: the cells of a segment up to the first unwritten one. */
    method VisitSegment(i: uint32) returns (visited: seq<Cell>)
      requires Valid() && HasGap(State(), i)
      ensures visited == SegmentPrefix(State(), i, FirstGap(State(), i, 0))
      ensures |visited| < U32_RANGE && Relocatable(i, |visited|) !in data.Cells()
      ensures forall o: uint32 :: o < |visited| ==>
        Relocatable(i, o) in data.Cells() && visited[o] == Cell(Relocatable(i, o), data.Cells()[Relocatable(i, o)])
    {
      FirstGapBounds(State(), i, 0);
      PrefixHoldsCells(State(), i, FirstGap(State(), i, 0));
      ghost var m, gap := State(), FirstGap(State(), i, 0);
      visited := [];
      var ptr := Relocatable(i, 0);
      while true
        invariant ptr.segmentIndex == i && ptr.offset <= gap
        invariant visited == SegmentPrefix(m, i, ptr.offset)
        decreases gap - ptr.offset
      {
        GapSplitsSegment(m, i, ptr.offset);
        var result := Get(ptr);
        if result.Err? {
          break;
        }
        visited := visited + [Cell(ptr, result.value)];
        ptr := ptr.(offset := Wrap32(ptr.offset + 1));
      }
    }

    /** The outer loop of `print_memory`, with the cells in the order in which they are printed. */
    method VisitCells() returns (visited: seq<Cell>)
      requires Valid()
      requires PrintingEnds(State())
      ensures visited == VisitOrder(State(), SignedInt(numSegments)) && InOrder(visited)
      ensures numSegments >= 0x8000_0000 ==> visited == []
      ensures numSegments < 0x8000_0000 ==> forall cell ::
        cell in visited
        <==> && cell.address in data.Cells() && cell.value == data.Cells()[cell.address]
             && cell.address.segmentIndex < numSegments
             && forall o: uint32 :: o <= cell.address.offset ==>
                  Relocatable(cell.address.segmentIndex, o) in data.Cells()
    {
      visited := [];
      var i := 0;
      while i < SignedInt(numSegments)
        invariant 0 <= i && (i <= SignedInt(numSegments) || i == 0)
        invariant visited == VisitOrder(State(), i)
      {
        var cells := VisitSegment(i);
        visited := visited + cells;
        i := i + 1;
      }
      VisitsInOrder(State(), SignedInt(numSegments));
      AllVisitedCells(State());
    }

    /** Releases both blocks of every entry, each exactly once. */
    method Free()
      requires Valid()
      modifies heap, data
      ensures heap.live == old(heap.live) - old(BlocksOf(data.entries))
      ensures data.entries == []
    {
      SelectedEntriesAreDistinct(data.entries, taken);
      BlocksAreEntries(data.entries);
      for i := 0 to |data.entries|
        invariant data.entries == old(data.entries)
        invariant heap.live == old(heap.live) - BlocksOf(data.entries[..i])
      {
        LaterBlocksAreOthers(data.entries, i);
        Appended(data.entries[..i], data.entries[i]);
        assert data.entries[..i + 1] == data.entries[..i] + [data.entries[i]];
        heap.Free(data.entries[i].value);
        heap.Free(data.entries[i].key);
      }
      assert data.entries[..|data.entries|] == data.entries;
      data.RemoveAll();
    }
  }
}
