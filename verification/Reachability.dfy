/** Which memories can be reached, and what a new segment is worth in them. */
module Reachability {
  import opened Accounting
  import opened MemoryModel
  import opened MemoryRuns
  import opened Relocatables
  import opened Words

  import Loading

  // The memories that can be reached

  /** How many segments can hold cells after `count` creations: a write needs a segment below the counter. */
  function Writable(count: nat): uint32 {
    if count < 0xFFFF_FFFF then count else 0xFFFF_FFFF
  }

  ghost predicate HasFreeCell(cells: map<Relocatable, MaybeRelocatable>, segments: nat) {
    exists p: Relocatable :: p.segmentIndex < segments && p !in cells
  }

  /** After the last addition that failed there is still a cell for it. */
  ghost predicate LastFailureHasCell(schedule: AddSchedule, m: MemoryState, segments: nat) {
    m.adds == 0 || schedule(m.adds - 1) || HasFreeCell(m.cells, segments)
  }

  /** What every run with `count` creations establishes, by the memory alone. */
  ghost predicate IsReachable(schedule: AddSchedule, count: nat, m: MemoryState) {
    && m.numSegments == Wrap32(count)
    && Accounted(schedule, m)
    && CellsBelow(m, Writable(count))
    && LastFailureHasCell(schedule, m, Writable(count))
  }

  lemma WritableSegments(count: nat)
    ensures Wrap32(count) <= Writable(count) <= Writable(count + 1) <= count + 1
    ensures Wrap32(Wrap32(count) + 1) == Wrap32(count + 1)
  {
  }

  lemma AddSegmentReaches(schedule: AddSchedule, count: nat, m: MemoryState)
    requires IsReachable(schedule, count, m)
    ensures IsReachable(schedule, count + 1, AddSegment(m).0)
  {
    WritableSegments(count);
    if HasFreeCell(m.cells, Writable(count)) {
      assert HasFreeCell(m.cells, Writable(count + 1));
    }
  }

  lemma InsertReaches(schedule: AddSchedule, count: nat, m: MemoryState, ptr: Relocatable, value: MaybeRelocatable)
    requires IsReachable(schedule, count, m)
    ensures IsReachable(schedule, count, Insert(schedule, m, ptr, value).0)
  {
    WritableSegments(count);
    InsertAccounts(schedule, m, ptr, value);
  }

  lemma {:induction false} LoadReaches(
    schedule: AddSchedule, count: nat, m: MemoryState, ptr: Relocatable, data: seq<MaybeRelocatable>)
    requires IsReachable(schedule, count, m)
    ensures IsReachable(schedule, count, LoadData(schedule, m, ptr, data).0)
    decreases |data|
  {
    if data == [] {
    } else {
      InsertReaches(schedule, count, m, ptr, data[0]);
      LoadReaches(schedule, count, Insert(schedule, m, ptr, data[0]).0, AddressAt(ptr, 1), data[1..]);
    }
  }

  lemma {:induction false} RunIsReachable(schedule: AddSchedule, count: nat, m: MemoryState, ops: seq<Operation>)
    requires IsReachable(schedule, count, m)
    ensures IsReachable(schedule, count + SegmentsAdded(ops), Run(schedule, m, ops))
    decreases |ops|
  {
    if ops == [] {
    } else {
      match ops[0] {
        case AddSegmentOp =>
          AddSegmentReaches(schedule, count, m);
          RunIsReachable(schedule, count + 1, AddSegment(m).0, ops[1..]);
        case InsertOp(ptr, value) =>
          InsertReaches(schedule, count, m, ptr, value);
          RunIsReachable(schedule, count, Insert(schedule, m, ptr, value).0, ops[1..]);
        case LoadDataOp(start, data) =>
          LoadReaches(schedule, count, m, start, data);
          RunIsReachable(schedule, count, LoadData(schedule, m, start, data).0, ops[1..]);
      }
    }
  }

  // A run to every such memory

  /** The additions that lead from one memory to a larger one with the same segments. */
  ghost predicate CanGrow(schedule: AddSchedule, m: MemoryState, target: MemoryState) {
    && m.numSegments == target.numSegments && Extends(m, target) && m.adds <= target.adds
    && target.adds - m.adds == |target.cells| - |m.cells| + Failures(schedule, m.adds, target.adds)
    && CellsBelow(target, target.numSegments)
    && (m.adds == target.adds || LastFailureHasCell(schedule, target, target.numSegments))
  }

  lemma SameCells(m: MemoryState, target: MemoryState)
    requires Extends(m, target)
    ensures |m.cells| <= |target.cells|
    ensures m.cells == target.cells <==> |m.cells| == |target.cells|
  {
    var part, whole := m.cells.Keys, target.cells.Keys;
    assert part <= whole;
    assert whole == part + (whole - part) && |whole| == |part| + |whole - part|;
    if |part| == |whole| {
      assert part == whole;
    }
  }

  /** An address for the next addition: one that is still missing, or a free one if none is. */
  lemma NextAddress(schedule: AddSchedule, m: MemoryState, target: MemoryState) returns (p: Relocatable)
    requires CanGrow(schedule, m, target) && m.adds < target.adds
    ensures p.segmentIndex < m.numSegments && p !in m.cells
    ensures schedule(m.adds) ==> p in target.cells
  {
    SameCells(m, target);
    FailuresSplit(schedule, m.adds, target.adds);
    if m.cells == target.cells {
      assert Failures(schedule, m.adds, target.adds) == target.adds - m.adds;
      assert HasFreeCell(target.cells, target.numSegments);
      p :| p.segmentIndex < target.numSegments && p !in target.cells;
    } else {
      p := MissingAddress(m, target);
    }
  }

  lemma AllPresent(m: MemoryState, target: MemoryState)
    requires Extends(m, target) && forall q :: q in target.cells ==> q in m.cells
    ensures m.cells == target.cells
  {
  }

  lemma MissingAddress(m: MemoryState, target: MemoryState) returns (p: Relocatable)
    requires Extends(m, target) && m.cells != target.cells
    ensures p in target.cells && p !in m.cells
  {
    if forall q :: q in target.cells ==> q in m.cells {
      AllPresent(m, target);
      assert false;
    }
    p :| p in target.cells && p !in m.cells;
  }

  lemma OneMoreCell(cells: map<Relocatable, MaybeRelocatable>, p: Relocatable, value: MaybeRelocatable)
    requires p !in cells
    ensures |cells[p := value]| == |cells| + 1
  {
    assert cells[p := value].Keys == cells.Keys + {p};
  }

  lemma ExtendedByTarget(m: MemoryState, target: MemoryState, p: Relocatable)
    requires Extends(m, target) && p in target.cells
    ensures Extends(m.(cells := m.cells[p := target.cells[p]], adds := m.adds + 1), target)
  {
  }

  lemma GrowStep(schedule: AddSchedule, m: MemoryState, next: MemoryState, target: MemoryState)
    requires CanGrow(schedule, m, target) && m.adds < target.adds
    requires Extends(next, target) && next.numSegments == m.numSegments && next.adds == m.adds + 1
    requires |next.cells| == |m.cells| + if schedule(m.adds) then 1 else 0
    ensures CanGrow(schedule, next, target)
  {
    FailuresSplit(schedule, m.adds, target.adds);
  }

  lemma {:induction false} GrowTo(schedule: AddSchedule, m: MemoryState, target: MemoryState)
    returns (ops: seq<Operation>)
    requires CanGrow(schedule, m, target)
    ensures Run(schedule, m, ops) == target && SegmentsAdded(ops) == 0
    decreases target.adds - m.adds
  {
    if m.adds == target.adds {
      SameCells(m, target);
      ops := [];
    } else {
      var p := NextAddress(schedule, m, target);
      var value := if p in target.cells then target.cells[p] else Pointer(p);
      var next := Insert(schedule, m, p, value).0;
      if schedule(m.adds) {
        OneMoreCell(m.cells, p, value);
        ExtendedByTarget(m, target, p);
      }
      GrowStep(schedule, m, next, target);
      var rest := GrowTo(schedule, next, target);
      ops := [InsertOp(p, value)] + rest;
      assert ops[1..] == rest;
    }
  }

  lemma EmptyCanGrow(schedule: AddSchedule, count: nat, m: MemoryState)
    requires IsReachable(schedule, count, m)
    ensures var segments := Writable(count);
      CanGrow(schedule, EMPTY_MEMORY.(numSegments := segments), m.(numSegments := segments))
  {
  }

  lemma RunOfThree(
    schedule: AddSchedule, m: MemoryState, a: seq<Operation>, b: seq<Operation>, c: seq<Operation>)
    ensures Run(schedule, m, a + (b + c)) == Run(schedule, Run(schedule, Run(schedule, m, a), b), c)
    ensures SegmentsAdded(a + (b + c)) == SegmentsAdded(a) + SegmentsAdded(b) + SegmentsAdded(c)
  {
    RunConcat(schedule, m, a, b + c);
    RunConcat(schedule, Run(schedule, m, a), b, c);
  }

  /** Create the segments that can hold cells, write those, and create the others. */
  lemma RunTo(schedule: AddSchedule, count: nat, m: MemoryState) returns (ops: seq<Operation>)
    requires IsReachable(schedule, count, m)
    ensures SegmentsAdded(ops) == count && Run(schedule, EMPTY_MEMORY, ops) == m
  {
    var segments := Writable(count);
    var created, written := EMPTY_MEMORY.(numSegments := segments), m.(numSegments := segments);
    EmptyCanGrow(schedule, count, m);
    var writes := GrowTo(schedule, created, written);
    RunOfAddSegments(schedule, EMPTY_MEMORY, segments);
    RunOfAddSegments(schedule, written, count - segments);
    RunOfThree(schedule, EMPTY_MEMORY, AddSegments(segments), writes, AddSegments(count - segments));
    ops := AddSegments(segments) + (writes + AddSegments(count - segments));
    assert Run(schedule, EMPTY_MEMORY, AddSegments(segments)) == created;
    assert segments + (count - segments) == count;
    assert Run(schedule, written, AddSegments(count - segments)) == m;
  }

  /** For any storage: the memories at the end of the runs with a given number of creations. */
  lemma ReachableExactly(schedule: AddSchedule, count: nat, m: MemoryState)
    ensures (exists ops :: SegmentsAdded(ops) == count && Run(schedule, EMPTY_MEMORY, ops) == m)
       <==> IsReachable(schedule, count, m)
  {
    if ops :| SegmentsAdded(ops) == count && Run(schedule, EMPTY_MEMORY, ops) == m {
      RunIsReachable(schedule, 0, EMPTY_MEMORY, ops);
    }
    if IsReachable(schedule, count, m) {
      var ops := RunTo(schedule, count, m);
    }
  }

  /** While no addition failed: the counter, one addition for each cell, and cells below both bounds. */
  lemma ReachableWithoutFailure(schedule: AddSchedule, count: nat, m: MemoryState)
    requires AddsSucceed(schedule, 0, m.adds)
    ensures (exists ops :: SegmentsAdded(ops) == count && Run(schedule, EMPTY_MEMORY, ops) == m)
       <==> && m.numSegments == Wrap32(count) && m.adds == |m.cells|
            && CellsBelow(m, count) && CellsBelow(m, U32_RANGE - 1)
  {
    ReachableExactly(schedule, count, m);
    NoFailures(schedule, 0, m.adds);
  }

  // The segments handed out

  /** The addresses that the segment creations of a run return. */
  function HandedOut(schedule: AddSchedule, m: MemoryState, ops: seq<Operation>): seq<Relocatable>
    decreases |ops|
  {
    if ops == [] then []
    else
      (if ops[0].AddSegmentOp? then [AddSegment(m).1] else [])
      + HandedOut(schedule, Apply(schedule, m, ops[0]), ops[1..])
  }

  lemma {:induction false} HandedOutAt(schedule: AddSchedule, m: MemoryState, ops: seq<Operation>, i: nat)
    ensures |HandedOut(schedule, m, ops)| == SegmentsAdded(ops)
    ensures i < SegmentsAdded(ops) ==> HandedOut(schedule, m, ops)[i] == Relocatable(Wrap32(m.numSegments + i), 0)
    decreases |ops|
  {
    if ops == [] {
    } else {
      var next := Apply(schedule, m, ops[0]);
      ApplyKeepsCounter(schedule, m, ops[0]);
      if !ops[0].AddSegmentOp? {
        HandedOutAt(schedule, next, ops[1..], i);
      } else if i == 0 {
        HandedOutAt(schedule, next, ops[1..], 0);
      } else {
        HandedOutAt(schedule, next, ops[1..], i - 1);
        WrapTwice(m.numSegments + 1, i - 1);
      }
    }
  }

  /** The segments of a run are pairwise distinct exactly when there are at most 2^32 of them. */
  lemma SegmentsAreDistinctExactly(schedule: AddSchedule, ops: seq<Operation>)
    ensures var bases := HandedOut(schedule, EMPTY_MEMORY, ops);
      (forall i, j :: 0 <= i < j < |bases| ==> bases[i] != bases[j]) <==> SegmentsAdded(ops) <= U32_RANGE
  {
    var bases := HandedOut(schedule, EMPTY_MEMORY, ops);
    HandedOutAt(schedule, EMPTY_MEMORY, ops, 0);
    forall i | 0 <= i < |bases|
      ensures bases[i] == Relocatable(Wrap32(i), 0)
    {
      HandedOutAt(schedule, EMPTY_MEMORY, ops, i);
    }
    if SegmentsAdded(ops) > U32_RANGE {
      assert bases[0] == bases[U32_RANGE];
    }
  }

  // Fresh segments

  lemma NextSegmentOfReachable(schedule: AddSchedule, count: nat, m: MemoryState)
    requires IsReachable(schedule, count, m) && (count < U32_RANGE || Wrap32(count) == U32_RANGE - 1)
    ensures NextSegmentIsEmpty(m)
  {
  }

  /** Past the wrap, a run whose next segment is one that was already written. */
  lemma ReusedSegment(schedule: AddSchedule, count: nat, value: MaybeRelocatable) returns (ops: seq<Operation>)
    requires schedule(0)
    requires count >= U32_RANGE && Wrap32(count) != U32_RANGE - 1
    ensures SegmentsAdded(ops) == count
    ensures var m := Run(schedule, EMPTY_MEMORY, ops); Get(m, AddSegment(m).1) == Ok(value)
  {
    var index := Wrap32(count);
    var m := MemoryState(index, map[Relocatable(index, 0) := value], 1);
    NoFailures(schedule, 0, 1);
    ops := RunTo(schedule, count, m);
  }

  /**
   * After `count` segment creations the next segment is empty in every run exactly when the
   * 32-bit counter has not wrapped, or stands at its largest value.
   */
  lemma NextSegmentIsFreshExactly(count: nat)
    ensures (forall schedule, ops :: SegmentsAdded(ops) == count ==>
               NextSegmentIsEmpty(Run(schedule, EMPTY_MEMORY, ops)))
       <==> count < U32_RANGE || Wrap32(count) == U32_RANGE - 1
  {
    if count < U32_RANGE || Wrap32(count) == U32_RANGE - 1 {
      forall schedule, ops | SegmentsAdded(ops) == count
        ensures NextSegmentIsEmpty(Run(schedule, EMPTY_MEMORY, ops))
      {
        RunIsReachable(schedule, 0, EMPTY_MEMORY, ops);
        NextSegmentOfReachable(schedule, count, Run(schedule, EMPTY_MEMORY, ops));
      }
    } else {
      var schedule: AddSchedule := (k: nat) => true;
      var ops := ReusedSegment(schedule, count, Pointer(Relocatable(0, 0)));
      assert !NextSegmentIsEmpty(Run(schedule, EMPTY_MEMORY, ops));
    }
  }

  /** After the run, a new segment takes the data from its start. */
  predicate TakesData(schedule: AddSchedule, ops: seq<Operation>, data: seq<MaybeRelocatable>) {
    var (created, base) := AddSegment(Run(schedule, EMPTY_MEMORY, ops));
    LoadData(schedule, created, base, data).1.Ok?
  }

  /** A run whose next segment refuses a single element. */
  lemma RefusedElement(schedule: AddSchedule, count: nat) returns (ops: seq<Operation>, data: seq<MaybeRelocatable>)
    requires NeverFails(schedule) && count + 1 >= U32_RANGE
    ensures SegmentsAdded(ops) == count && |data| == 1 && !TakesData(schedule, ops, data)
  {
    var stored, other := Pointer(Relocatable(0, 0)), Pointer(Relocatable(0, 1));
    data := [other];
    if Wrap32(count) == U32_RANGE - 1 {
      ops := RunTo(schedule, count, MemoryState(U32_RANGE - 1, map[], 0));
    } else {
      ops := ReusedSegment(schedule, count, stored);
    }
  }

  /**
   * After `count` segment creations, and while no addition fails, a new segment takes all data that
   * survives the wrap of its offsets in every run exactly when its creation does not wrap the counter.
   */
  lemma NewSegmentTakesDataExactly(count: nat)
    ensures (forall schedule, ops, data ::
               NeverFails(schedule) && SegmentsAdded(ops) == count && Loading.WrapsConsistently(data) ==>
                 TakesData(schedule, ops, data))
       <==> count + 1 < U32_RANGE
  {
    if count + 1 < U32_RANGE {
      forall schedule, ops, data |
        NeverFails(schedule) && SegmentsAdded(ops) == count && Loading.WrapsConsistently(data)
        ensures TakesData(schedule, ops, data)
      {
        var m := Run(schedule, EMPTY_MEMORY, ops);
        RunIsReachable(schedule, 0, EMPTY_MEMORY, ops);
        NextSegmentOfReachable(schedule, count, m);
        NewSegmentTakesData(schedule, m, data);
      }
    } else {
      var schedule: AddSchedule := (k: nat) => true;
      var ops, data := RefusedElement(schedule, count);
      assert Loading.WrapsConsistently(data);
    }
  }

  /** A run after which a load succeeds and returns a pointer to a cell that is already written. */
  lemma EndPointerCanBeTaken(schedule: AddSchedule, value: MaybeRelocatable) returns (ops: seq<Operation>)
    requires AddsSucceed(schedule, 0, 2)
    ensures var m := Run(schedule, EMPTY_MEMORY, ops);
      var (last, loaded) := LoadData(schedule, m, Relocatable(0, 0), [value]);
      loaded == Ok(Relocatable(0, 1)) && Relocatable(0, 1) in m.cells
  {
    var m := MemoryState(1, map[Relocatable(0, 1) := value], 1);
    NoFailures(schedule, 0, 1);
    ops := RunTo(schedule, 1, m);
    assert Insert(schedule, m, Relocatable(0, 0), value).1.Ok?;
  }
}
