/** What holds after any sequence of memory operations, failed ones included. */
module MemoryRuns {
  import opened Loading
  import opened MemoryModel
  import opened Relocatables
  import opened Words

  import SegmentLoads

  // Write-once

  lemma ApplyExtends(schedule: AddSchedule, m: MemoryState, op: Operation)
    ensures Extends(m, Apply(schedule, m, op))
  {
    if op.LoadDataOp? {
      LoadExtends(schedule, m, op.start, op.data);
    }
  }

  /** A value once readable at an address is readable there after every later operation. */
  lemma {:induction false} WriteOnce(schedule: AddSchedule, m: MemoryState, ops: seq<Operation>, p: Relocatable)
    requires Get(m, p).Ok?
    ensures Get(Run(schedule, m, ops), p) == Get(m, p)
    decreases |ops|
  {
    if ops == [] {
    } else {
      ApplyExtends(schedule, m, ops[0]);
      WriteOnce(schedule, Apply(schedule, m, ops[0]), ops[1..], p);
    }
  }

  // Segment numbers

  lemma ApplyKeepsCounter(schedule: AddSchedule, m: MemoryState, op: Operation)
    ensures Apply(schedule, m, op).numSegments
         == if op.AddSegmentOp? then Wrap32(m.numSegments + 1) else m.numSegments
  {
    if op.LoadDataOp? {
      LoadExtends(schedule, m, op.start, op.data);
    }
  }

  lemma {:induction false} CounterCountsSegments(schedule: AddSchedule, m: MemoryState, ops: seq<Operation>)
    ensures Run(schedule, m, ops).numSegments == Wrap32(m.numSegments + SegmentsAdded(ops))
    decreases |ops|
  {
    if ops == [] {
    } else {
      ApplyKeepsCounter(schedule, m, ops[0]);
      CounterCountsSegments(schedule, Apply(schedule, m, ops[0]), ops[1..]);
    }
  }

  /** Every cell lies in a segment below `bound`. */
  ghost predicate CellsBelow(m: MemoryState, bound: nat) {
    forall p :: p in m.cells ==> p.segmentIndex < bound
  }

  lemma {:induction false} LoadStaysBelow(
    schedule: AddSchedule, m: MemoryState, ptr: Relocatable, data: seq<MaybeRelocatable>, bound: nat)
    requires CellsBelow(m, bound) && m.numSegments <= bound
    ensures CellsBelow(LoadData(schedule, m, ptr, data).0, bound)
    decreases |data|
  {
    if data == [] {
    } else {
      LoadStaysBelow(schedule, Insert(schedule, m, ptr, data[0]).0, AddressAt(ptr, 1), data[1..], bound);
    }
  }

  lemma ApplyStaysBelow(schedule: AddSchedule, m: MemoryState, op: Operation, bound: nat)
    requires CellsBelow(m, bound) && m.numSegments <= bound
    ensures CellsBelow(Apply(schedule, m, op), bound)
  {
    if op.LoadDataOp? {
      LoadStaysBelow(schedule, m, op.start, op.data, bound);
    }
  }

  /** All cells are in segments that were created, past the wrap of the counter too. */
  lemma {:induction false} CellsInCreatedSegments(
    schedule: AddSchedule, m: MemoryState, ops: seq<Operation>, created: nat)
    requires CellsBelow(m, created) && m.numSegments <= created
    ensures CellsBelow(Run(schedule, m, ops), created + SegmentsAdded(ops))
    ensures Run(schedule, m, ops).numSegments <= created + SegmentsAdded(ops)
    decreases |ops|
  {
    if ops == [] {
    } else {
      var next := Apply(schedule, m, ops[0]);
      ApplyKeepsCounter(schedule, m, ops[0]);
      ApplyStaysBelow(schedule, m, ops[0], created);
      CellsInCreatedSegments(schedule, next, ops[1..], if ops[0].AddSegmentOp? then created + 1 else created);
    }
  }

  // Fresh segments

  /** The segment that the next `memory_add_segment` returns holds no cell. */
  ghost predicate NextSegmentIsEmpty(m: MemoryState) {
    forall p :: p in m.cells ==> p.segmentIndex != AddSegment(m).1.segmentIndex
  }

  function AddSegments(count: nat): seq<Operation> {
    if count == 0 then [] else [AddSegmentOp] + AddSegments(count - 1)
  }

  lemma {:induction false} RunOfAddSegments(schedule: AddSchedule, m: MemoryState, count: nat)
    ensures SegmentsAdded(AddSegments(count)) == count
    ensures Run(schedule, m, AddSegments(count)) == m.(numSegments := Wrap32(m.numSegments + count))
    decreases count
  {
    if count == 0 {
    } else {
      var ops := AddSegments(count);
      assert ops[1..] == AddSegments(count - 1);
      RunOfAddSegments(schedule, AddSegment(m).0, count - 1);
    }
  }

  lemma {:induction false} RunConcat(schedule: AddSchedule, m: MemoryState, a: seq<Operation>, b: seq<Operation>)
    ensures Run(schedule, m, a + b) == Run(schedule, Run(schedule, m, a), b)
    ensures SegmentsAdded(a + b) == SegmentsAdded(a) + SegmentsAdded(b)
    decreases |a|
  {
    if a == [] {
      assert a + b == b;
    } else {
      assert (a + b)[1..] == a[1..] + b;
      RunConcat(schedule, Apply(schedule, m, a[0]), a[1..], b);
    }
  }

  /**
   * A segment just created that holds no cell takes data from its start exactly when its creation did
   * not wrap the counter, the data survives the wrap of its offsets, and the storage is found.
   */
  lemma NewSegmentTakesData(schedule: AddSchedule, m: MemoryState, data: seq<MaybeRelocatable>)
    requires NextSegmentIsEmpty(m)
    ensures var (created, base) := AddSegment(m);
      LoadData(schedule, created, base, data).1.Ok?
      <==> || data == []
           || (&& m.numSegments + 1 < U32_RANGE && WrapsConsistently(data)
               && AddsSucceed(schedule, m.adds, CellCount(data)))
  {
    if m.numSegments + 1 < U32_RANGE {
      SegmentLoads.LoadIntoEmptySegment(schedule, AddSegment(m).0, m.numSegments, data);
    }
  }
}
