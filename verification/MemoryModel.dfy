/** The segmented memory as a value: what each operation of src/memory.c does to it. */
module MemoryModel {
  import opened Relocatables
  import opened Words

  datatype MemoryError = GetError | InsertError | LoadDataError

  datatype Result<+T> = Ok(value: T) | Err(error: MemoryError)

  /** Whether the k-th call of `cc_hashtable_add` finds the storage it needs. */
  type AddSchedule = nat -> bool

  /** The segment counter, the cells written, and how often `cc_hashtable_add` was called. */
  datatype MemoryState = MemoryState(numSegments: uint32, cells: map<Relocatable, MaybeRelocatable>, adds: nat)

  const EMPTY_MEMORY := MemoryState(0, map[], 0)

  function Get(m: MemoryState, ptr: Relocatable): Result<MaybeRelocatable> {
    if ptr in m.cells then Ok(m.cells[ptr]) else Err(GetError)
  }

  function Insert(schedule: AddSchedule, m: MemoryState, ptr: Relocatable, value: MaybeRelocatable)
    : (MemoryState, Result<()>)
  {
    if ptr.segmentIndex >= m.numSegments then (m, Err(InsertError))
    else if ptr in m.cells then (m, if m.cells[ptr] == value then Ok(()) else Err(InsertError))
    else if schedule(m.adds) then (m.(cells := m.cells[ptr := value], adds := m.adds + 1), Ok(()))
    else (m.(adds := m.adds + 1), Err(InsertError))
  }

  function AddSegment(m: MemoryState): (MemoryState, Relocatable) {
    (m.(numSegments := Wrap32(m.numSegments + 1)), Relocatable(m.numSegments, 0))
  }

  /** The address `steps` cells further on, with the wrap of a 32-bit offset. */
  function AddressAt(ptr: Relocatable, steps: nat): Relocatable {
    ptr.(offset := Wrap32(ptr.offset + steps))
  }

  function LoadData(schedule: AddSchedule, m: MemoryState, ptr: Relocatable, data: seq<MaybeRelocatable>)
    : (MemoryState, Result<Relocatable>)
    decreases |data|
  {
    if data == [] then (m, Ok(ptr))
    else
      var (next, inserted) := Insert(schedule, m, ptr, data[0]);
      if inserted.Err? then (next, Err(LoadDataError))
      else LoadData(schedule, next, AddressAt(ptr, 1), data[1..])
  }

  // Runs of operations

  datatype Operation =
    | AddSegmentOp
    | InsertOp(ptr: Relocatable, value: MaybeRelocatable)
    | LoadDataOp(start: Relocatable, data: seq<MaybeRelocatable>)

  function Apply(schedule: AddSchedule, m: MemoryState, op: Operation): MemoryState {
    match op
    case AddSegmentOp => AddSegment(m).0
    case InsertOp(ptr, value) => Insert(schedule, m, ptr, value).0
    case LoadDataOp(start, data) => LoadData(schedule, m, start, data).0
  }

  function Run(schedule: AddSchedule, m: MemoryState, ops: seq<Operation>): MemoryState
    decreases |ops|
  {
    if ops == [] then m else Run(schedule, Apply(schedule, m, ops[0]), ops[1..])
  }

  function SegmentsAdded(ops: seq<Operation>): nat {
    if ops == [] then 0 else (if ops[0].AddSegmentOp? then 1 else 0) + SegmentsAdded(ops[1..])
  }

  /** Every cell of `before` is in `after` with the same value. */
  ghost predicate Extends(before: MemoryState, after: MemoryState) {
    forall p :: p in before.cells ==> p in after.cells && after.cells[p] == before.cells[p]
  }

  ghost predicate NeverFails(schedule: AddSchedule) {
    forall k :: schedule(k)
  }

  ghost predicate AddsSucceed(schedule: AddSchedule, first: nat, count: nat) {
    forall k :: first <= k < first + count ==> schedule(k)
  }
}
