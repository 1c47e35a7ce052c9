/** The additions to the table: each has stored a cell or failed. */
module Accounting {
  import opened MemoryModel
  import opened Relocatables

  /** How many of the additions from number `first` up to number `next` fail. */
  ghost function Failures(schedule: AddSchedule, first: nat, next: nat): (count: nat)
    requires first <= next
    ensures count <= next - first
    decreases next
  {
    if first == next then 0 else Failures(schedule, first, next - 1) + if schedule(next - 1) then 0 else 1
  }

  lemma {:induction false} NoFailures(schedule: AddSchedule, first: nat, next: nat)
    requires first <= next
    ensures Failures(schedule, first, next) == 0 <==> AddsSucceed(schedule, first, next - first)
    decreases next
  {
    if first == next {
    } else {
      NoFailures(schedule, first, next - 1);
    }
  }

  lemma {:induction false} FailuresSplit(schedule: AddSchedule, first: nat, next: nat)
    requires first < next
    ensures Failures(schedule, first, next)
         == (if schedule(first) then 0 else 1) + Failures(schedule, first + 1, next)
    decreases next
  {
    if first + 1 == next {
      assert Failures(schedule, first, first) == 0;
    } else {
      FailuresSplit(schedule, first, next - 1);
    }
  }

  /** Each addition so far stored a cell or failed. */
  ghost predicate Accounted(schedule: AddSchedule, m: MemoryState) {
    m.adds == |m.cells| + Failures(schedule, 0, m.adds)
  }

  lemma InsertAccounts(schedule: AddSchedule, m: MemoryState, ptr: Relocatable, value: MaybeRelocatable)
    requires Accounted(schedule, m)
    ensures Accounted(schedule, Insert(schedule, m, ptr, value).0)
  {
    assert ptr !in m.cells ==> |m.cells[ptr := value]| == |m.cells| + 1;
  }

  lemma {:induction false} LoadAccounts(
    schedule: AddSchedule, m: MemoryState, ptr: Relocatable, data: seq<MaybeRelocatable>)
    requires Accounted(schedule, m)
    ensures Accounted(schedule, LoadData(schedule, m, ptr, data).0)
    decreases |data|
  {
    if data == [] {
    } else {
      InsertAccounts(schedule, m, ptr, data[0]);
      LoadAccounts(schedule, Insert(schedule, m, ptr, data[0]).0, AddressAt(ptr, 1), data[1..]);
    }
  }

  /** After any operations, with any storage, there is a cell for each addition that did not fail. */
  lemma {:induction false} RunAccounts(schedule: AddSchedule, m: MemoryState, ops: seq<Operation>)
    requires Accounted(schedule, m)
    ensures Accounted(schedule, Run(schedule, m, ops))
    decreases |ops|
  {
    if ops == [] {
    } else {
      match ops[0] {
        case AddSegmentOp => {}
        case InsertOp(ptr, value) => InsertAccounts(schedule, m, ptr, value);
        case LoadDataOp(start, data) => LoadAccounts(schedule, m, start, data);
      }
      RunAccounts(schedule, Apply(schedule, m, ops[0]), ops[1..]);
    }
  }

  /** While no addition fails, every run of operations leaves one cell for each addition. */
  lemma RunAddsCells(schedule: AddSchedule, m: MemoryState, ops: seq<Operation>)
    requires NeverFails(schedule) && m.adds == |m.cells|
    ensures var last := Run(schedule, m, ops); last.adds == |last.cells|
  {
    NoFailures(schedule, 0, m.adds);
    RunAccounts(schedule, m, ops);
    NoFailures(schedule, 0, Run(schedule, m, ops).adds);
  }
}
