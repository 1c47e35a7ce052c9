/** Bulk loads from the start of a segment, of any length and with any storage. */
module SegmentLoads {
  import opened Loading
  import opened MemoryModel
  import opened Relocatables
  import opened Words

  lemma ShortDataIsConsistent(data: seq<MaybeRelocatable>)
    requires |data| <= U32_RANGE
    ensures WrapsConsistently(data)
  {
  }

  lemma AddsSucceedJoin(schedule: AddSchedule, first: nat, one: nat, two: nat)
    ensures AddsSucceed(schedule, first, one + two)
       <==> AddsSucceed(schedule, first, one) && AddsSucceed(schedule, first + one, two)
  {
  }

  /** The segment of an address holds no cell. */
  ghost predicate IsEmptySegment(m: MemoryState, segment: nat) {
    forall p :: p in m.cells ==> p.segmentIndex != segment
  }

  lemma NewCellsOfEmptySegment(m: MemoryState, segment: uint32, data: seq<MaybeRelocatable>)
    requires IsEmptySegment(m, segment)
    ensures NewCells(m, Relocatable(segment, 0), data) == CellCount(data)
  {
    var base := Relocatable(segment, 0);
    var targets := Targets(Writes(base, data));
    TargetCount(base, data);
    forall p | p in targets
      ensures p !in m.cells
    {
      TargetIsInRange(base, data, p);
    }
    assert NewTargets(m, Writes(base, data)) == targets;
  }

  /** A load into an empty segment succeeds exactly when the data survives the wrap and the storage is found. */
  lemma LoadIntoEmptySegment(schedule: AddSchedule, m: MemoryState, segment: uint32, data: seq<MaybeRelocatable>)
    requires segment < m.numSegments && IsEmptySegment(m, segment)
    ensures LoadData(schedule, m, Relocatable(segment, 0), data).1.Ok?
       <==> WrapsConsistently(data) && AddsSucceed(schedule, m.adds, CellCount(data))
  {
    LoadSucceedsExactly(schedule, m, Relocatable(segment, 0), data);
    NewCellsOfEmptySegment(m, segment, data);
  }

  /** The effect of a load from the start of a segment on any one address. */
  lemma LoadedAt(
    m: MemoryState, last: MemoryState, segment: uint32, data: seq<MaybeRelocatable>, p: Relocatable)
    requires LoadedImage(m, last, Relocatable(segment, 0), data)
    ensures p in last.cells <==> p in m.cells || (p.segmentIndex == segment && p.offset < |data|)
    ensures p in m.cells ==> last.cells[p] == m.cells[p]
    ensures p.segmentIndex == segment && p.offset < |data| ==> last.cells[p] == data[p.offset]
  {
  }

  // Segments that hold a part of the data

  /** A load of elements whose cells are all free succeeds exactly when the storage is found. */
  lemma LoadIntoFreeCells(schedule: AddSchedule, m: MemoryState, ptr: Relocatable, data: seq<MaybeRelocatable>)
    requires ptr.segmentIndex < m.numSegments && |data| <= U32_RANGE
    requires forall i :: 0 <= i < |data| ==> AddressAt(ptr, i) !in m.cells
    ensures LoadData(schedule, m, ptr, data).1.Ok? <==> AddsSucceed(schedule, m.adds, |data|)
  {
    var targets := Targets(Writes(ptr, data));
    ShortDataIsConsistent(data);
    LoadSucceedsExactly(schedule, m, ptr, data);
    TargetCount(ptr, data);
    forall p | p in targets
      ensures p !in m.cells
    {
      TargetsAreWrites(Writes(ptr, data));
      var w :| w in Writes(ptr, data) && w.ptr == p;
      var i := WriteAt(ptr, data, w);
    }
    assert NewTargets(m, Writes(ptr, data)) == targets;
  }

  lemma BeyondRange(ptr: Relocatable, count: nat, i: nat)
    requires count <= i && ptr.offset + i < U32_RANGE
    ensures !InRange(ptr, count, AddressAt(ptr, i))
  {
    assert AddressAt(ptr, i).offset == ptr.offset + i;
  }

  lemma FailedLoadLacksLast(
    schedule: AddSchedule, m: MemoryState, ptr: Relocatable, data: seq<MaybeRelocatable>)
    requires LoadData(schedule, m, ptr, data).1.Err? && 0 < |data| && ptr.offset + |data| <= U32_RANGE
    requires AddressAt(ptr, |data| - 1) !in m.cells
    ensures AddressAt(ptr, |data| - 1) !in LoadData(schedule, m, ptr, data).0.cells
  {
    var k := FailedLoadKeepsPrefix(schedule, m, ptr, data);
    BeyondRange(ptr, k, |data| - 1);
  }

  /** The last of some elements whose cells are free is stored exactly when all of them are. */
  lemma LastFreeCell(
    schedule: AddSchedule, m: MemoryState, ptr: Relocatable, data: seq<MaybeRelocatable>)
    requires ptr.segmentIndex < m.numSegments && 0 < |data| && ptr.offset + |data| <= U32_RANGE
    requires forall i :: 0 <= i < |data| ==> AddressAt(ptr, i) !in m.cells
    ensures var (last, loaded) := LoadData(schedule, m, ptr, data);
      && (loaded.Ok? <==> AddsSucceed(schedule, m.adds, |data|))
      && Get(last, AddressAt(ptr, |data| - 1)) == if loaded.Ok? then Ok(data[|data| - 1]) else Err(GetError)
  {
    LoadIntoFreeCells(schedule, m, ptr, data);
    if LoadData(schedule, m, ptr, data).1.Ok? {
      LoadSucceedsExactly(schedule, m, ptr, data);
    } else {
      FailedLoadLacksLast(schedule, m, ptr, data);
    }
  }

  /** The cells of the segment are those of the first `held` elements. */
  ghost predicate HoldsPrefix(
    cells: map<Relocatable, MaybeRelocatable>, segment: uint32, data: seq<MaybeRelocatable>, held: nat)
  {
    && held <= |data|
    && (forall o: uint32 :: Relocatable(segment, o) in cells <==> o < held)
    && (forall o: uint32 :: o < held ==> Relocatable(segment, o) in cells && cells[Relocatable(segment, o)] == data[o])
  }

  lemma PrefixIsKept(
    schedule: AddSchedule, m: MemoryState, ptr: Relocatable, loaded: seq<MaybeRelocatable>,
    segment: uint32, data: seq<MaybeRelocatable>, held: nat)
    requires ptr.segmentIndex != segment && HoldsPrefix(m.cells, segment, data, held)
    ensures HoldsPrefix(LoadData(schedule, m, ptr, loaded).0.cells, segment, data, held)
  {
    var last := LoadData(schedule, m, ptr, loaded).0;
    LoadExtends(schedule, m, ptr, loaded);
    forall o: uint32
      ensures Relocatable(segment, o) in last.cells <==> Relocatable(segment, o) in m.cells
    {
      LoadKeepsOtherSegments(schedule, m, ptr, loaded, Relocatable(segment, o));
    }
  }

  /** How many additions a load makes up to an offset of a segment that holds its first `held` elements. */
  function AddsUpTo(held: nat, offset: uint32): nat {
    if offset < held then 0 else offset + 1 - held
  }

  /**
   * What a load leaves at each offset of a segment that holds the first elements of the data, whether
   * or not it succeeds: the elements up to the first addition that fails.
   */
  lemma PrefixSegmentCell(
    schedule: AddSchedule, m: MemoryState, segment: uint32, data: seq<MaybeRelocatable>, held: nat, offset: uint32)
    requires segment < m.numSegments && HoldsPrefix(m.cells, segment, data, held)
    ensures Get(LoadData(schedule, m, Relocatable(segment, 0), data).0, Relocatable(segment, offset))
         == if offset < |data| && AddsSucceed(schedule, m.adds, AddsUpTo(held, offset)) then Ok(data[offset])
            else Err(GetError)
  {
    var base, p := Relocatable(segment, 0), Relocatable(segment, offset);
    var last := LoadData(schedule, m, base, data).0;
    if offset < held {
      LoadExtends(schedule, m, base, data);
    } else if offset < |data| {
      LoadOfTail(schedule, m, segment, data, held);
      FreeTail(schedule, m, segment, data, held, offset);
      var tail := data[held..];
      var (next, loaded) := LoadData(schedule, m, Relocatable(segment, held), tail[..offset + 1 - held]);
      assert tail == tail[..offset + 1 - held] + tail[offset + 1 - held..];
      LoadsCompose(schedule, m, Relocatable(segment, held), tail[..offset + 1 - held], tail[offset + 1 - held..]);
      if loaded.Ok? {
        LoadExtends(schedule, next, loaded.value, tail[offset + 1 - held..]);
      }
    } else if p in last.cells {
      var i := NewCellHoldsElement(schedule, m, base, data, p);
      assert false;
    }
  }

  /** The elements that are there already change nothing. */
  lemma LoadOfTail(
    schedule: AddSchedule, m: MemoryState, segment: uint32, data: seq<MaybeRelocatable>, held: nat)
    requires segment < m.numSegments && HoldsPrefix(m.cells, segment, data, held) && held < U32_RANGE
    ensures LoadData(schedule, m, Relocatable(segment, 0), data)
         == LoadData(schedule, m, Relocatable(segment, held), data[held..])
  {
    var base := Relocatable(segment, 0);
    assert data == data[..held] + data[held..];
    LoadOfPresentData(schedule, m, base, data[..held]);
    LoadsCompose(schedule, m, base, data[..held], data[held..]);
  }

  lemma TailIsFree(m: MemoryState, segment: uint32, data: seq<MaybeRelocatable>, held: nat)
    requires HoldsPrefix(m.cells, segment, data, held) && held < U32_RANGE
    ensures forall i :: 0 <= i < U32_RANGE - held ==> AddressAt(Relocatable(segment, held), i) !in m.cells
  {
    forall i | 0 <= i < U32_RANGE - held
      ensures AddressAt(Relocatable(segment, held), i) !in m.cells
    {
      assert AddressAt(Relocatable(segment, held), i) == Relocatable(segment, held + i);
    }
  }

  lemma FreeTail(
    schedule: AddSchedule, m: MemoryState, segment: uint32, data: seq<MaybeRelocatable>, held: nat, offset: uint32)
    requires segment < m.numSegments && HoldsPrefix(m.cells, segment, data, held) && held <= offset < |data|
    ensures var (last, loaded) := LoadData(schedule, m, Relocatable(segment, held), data[held..][..offset + 1 - held]);
      && (loaded.Ok? <==> AddsSucceed(schedule, m.adds, offset + 1 - held))
      && Get(last, Relocatable(segment, offset)) == if loaded.Ok? then Ok(data[offset]) else Err(GetError)
  {
    var start, count := Relocatable(segment, held), offset + 1 - held;
    var part := data[held..][..count];
    assert |part| == count && part[count - 1] == data[offset];
    TailIsFree(m, segment, data, held);
    LastFreeCell(schedule, m, start, part);
    assert AddressAt(start, count - 1) == Relocatable(segment, offset);
  }

  /** The special case of an empty segment. */
  lemma EmptySegmentCell(
    schedule: AddSchedule, m: MemoryState, segment: uint32, data: seq<MaybeRelocatable>, offset: uint32)
    requires segment < m.numSegments && IsEmptySegment(m, segment)
    ensures Get(LoadData(schedule, m, Relocatable(segment, 0), data).0, Relocatable(segment, offset))
         == if offset < |data| && AddsSucceed(schedule, m.adds, offset + 1) then Ok(data[offset]) else Err(GetError)
  {
    PrefixSegmentCell(schedule, m, segment, data, 0, offset);
  }

  /** What a load does depends on the cells of its own segment only. */
  ghost predicate SameSegment(one: MemoryState, other: MemoryState, segment: nat) {
    && one.numSegments == other.numSegments
    && (forall p: Relocatable :: p.segmentIndex == segment ==>
          (p in one.cells <==> p in other.cells) && (p in one.cells ==> one.cells[p] == other.cells[p]))
  }

  lemma SameSegmentLoads(one: MemoryState, other: MemoryState, ptr: Relocatable, data: seq<MaybeRelocatable>)
    requires SameSegment(one, other, ptr.segmentIndex)
    ensures Loadable(one, ptr, data) <==> Loadable(other, ptr, data)
    ensures NewCells(one, ptr, data) == NewCells(other, ptr, data)
  {
    var batch := Writes(ptr, data);
    forall p | p in Targets(batch)
      ensures p in one.cells <==> p in other.cells
    {
      TargetIsInRange(ptr, data, p);
    }
    assert NewTargets(one, batch) == NewTargets(other, batch);
  }

  lemma OtherSegmentIsSame(
    schedule: AddSchedule, m: MemoryState, ptr: Relocatable, data: seq<MaybeRelocatable>, segment: nat)
    requires ptr.segmentIndex != segment
    ensures SameSegment(m, LoadData(schedule, m, ptr, data).0, segment)
  {
    LoadExtends(schedule, m, ptr, data);
    forall p: Relocatable | p.segmentIndex == segment
      ensures p in LoadData(schedule, m, ptr, data).0.cells <==> p in m.cells
    {
      LoadKeepsOtherSegments(schedule, m, ptr, data, p);
    }
  }

  /** Two loads into different segments succeed exactly when each could alone and the storage is found for both. */
  lemma TwoLoadsSucceedExactly(
    schedule: AddSchedule, m: MemoryState,
    one: Relocatable, first: seq<MaybeRelocatable>, two: Relocatable, second: seq<MaybeRelocatable>)
    requires one.segmentIndex != two.segmentIndex
    ensures var (next, loaded) := LoadData(schedule, m, one, first);
      loaded.Ok? && LoadData(schedule, next, two, second).1.Ok?
      <==> && Loadable(m, one, first) && Loadable(m, two, second)
           && AddsSucceed(schedule, m.adds, NewCells(m, one, first) + NewCells(m, two, second))
  {
    var next := LoadData(schedule, m, one, first).0;
    LoadSucceedsExactly(schedule, m, one, first);
    LoadSucceedsExactly(schedule, next, two, second);
    OtherSegmentIsSame(schedule, m, one, first, two.segmentIndex);
    SameSegmentLoads(m, next, two, second);
    AddsSucceedJoin(schedule, m.adds, NewCells(m, one, first), NewCells(m, two, second));
  }

  // Data longer than a segment

  /** The elements that reach a cell first. */
  function Trimmed(data: seq<MaybeRelocatable>): seq<MaybeRelocatable> {
    if |data| <= U32_RANGE then data else data[..U32_RANGE]
  }

  lemma {:induction false} LoadIntoFullSegment(
    schedule: AddSchedule, m: MemoryState, ptr: Relocatable, data: seq<MaybeRelocatable>)
    requires forall p: Relocatable :: p.segmentIndex == ptr.segmentIndex ==> p in m.cells
    ensures LoadData(schedule, m, ptr, data).0 == m
    decreases |data|
  {
    if data == [] {
    } else {
      LoadIntoFullSegment(schedule, m, AddressAt(ptr, 1), data[1..]);
    }
  }

  /** The elements past the first 2^32 change nothing, even when they make the load fail. */
  lemma LoadOfLongData(schedule: AddSchedule, m: MemoryState, ptr: Relocatable, data: seq<MaybeRelocatable>)
    ensures LoadData(schedule, m, ptr, data).0 == LoadData(schedule, m, ptr, Trimmed(data)).0
  {
    if |data| > U32_RANGE {
      var head, tail := data[..U32_RANGE], data[U32_RANGE..];
      var (full, loaded) := LoadData(schedule, m, ptr, head);
      assert data == head + tail;
      LoadsCompose(schedule, m, ptr, head, tail);
      if loaded.Ok? {
        LoadSucceedsExactly(schedule, m, ptr, head);
        forall p: Relocatable | p.segmentIndex == ptr.segmentIndex
          ensures p in full.cells
        {
          assert InRange(ptr, |head|, p);
        }
        LoadIntoFullSegment(schedule, full, loaded.value, tail);
      }
    }
  }

  /** A load that fills an empty segment as far as the data reaches takes one addition for each cell. */
  lemma AddsOfEmptySegment(schedule: AddSchedule, m: MemoryState, segment: uint32, data: seq<MaybeRelocatable>)
    requires segment < m.numSegments && IsEmptySegment(m, segment)
    requires AddsSucceed(schedule, m.adds, CellCount(data))
    ensures LoadData(schedule, m, Relocatable(segment, 0), data).0.adds == m.adds + CellCount(data)
  {
    var base := Relocatable(segment, 0);
    LoadOfLongData(schedule, m, base, data);
    ShortDataIsConsistent(Trimmed(data));
    LoadIntoEmptySegment(schedule, m, segment, Trimmed(data));
    LoadSucceedsExactly(schedule, m, base, Trimmed(data));
    NewCellsOfEmptySegment(m, segment, Trimmed(data));
  }

  // Segments without holes

  /** In every segment the cells are those before some offset. */
  ghost predicate NoHoles(m: MemoryState) {
    forall p: Relocatable, q: Relocatable ::
      p in m.cells && q.segmentIndex == p.segmentIndex && q.offset <= p.offset ==> q in m.cells
  }

  lemma ImageKeepsNoHoles(m: MemoryState, last: MemoryState, segment: uint32, data: seq<MaybeRelocatable>)
    requires NoHoles(m) && LoadedImage(m, last, Relocatable(segment, 0), data)
    ensures NoHoles(last)
  {
    forall p: Relocatable, q: Relocatable | p in last.cells && q.segmentIndex == p.segmentIndex && q.offset <= p.offset
      ensures q in last.cells
    {
      LoadedAt(m, last, segment, data, p);
      LoadedAt(m, last, segment, data, q);
    }
  }

  /** A load from the start of a segment, successful or not, leaves no hole. */
  lemma LoadKeepsNoHoles(schedule: AddSchedule, m: MemoryState, segment: uint32, data: seq<MaybeRelocatable>)
    requires NoHoles(m)
    ensures NoHoles(LoadData(schedule, m, Relocatable(segment, 0), data).0)
  {
    var base := Relocatable(segment, 0);
    var (last, loaded) := LoadData(schedule, m, base, data);
    if loaded.Ok? {
      LoadSucceedsExactly(schedule, m, base, data);
      ImageKeepsNoHoles(m, last, segment, data);
    } else {
      var k := FailedLoadKeepsPrefix(schedule, m, base, data);
      ImageKeepsNoHoles(m, last, segment, data[..k]);
    }
  }
}
