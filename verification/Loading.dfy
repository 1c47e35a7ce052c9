/** Batches of writes and bulk loads: exactly when they succeed, and what they leave behind. */
module Loading {
  import opened MemoryModel
  import opened Relocatables
  import opened Words

  datatype Write = Write(ptr: Relocatable, value: MaybeRelocatable)

  /** Inserts every write of a batch; the flag says whether all were accepted. */
  function InsertAll(schedule: AddSchedule, m: MemoryState, batch: seq<Write>): (MemoryState, bool)
    decreases |batch|
  {
    if batch == [] then (m, true)
    else
      var (next, inserted) := Insert(schedule, m, batch[0].ptr, batch[0].value);
      var (last, accepted) := InsertAll(schedule, next, batch[1..]);
      (last, inserted.Ok? && accepted)
  }

  /** All segments exist, and the batch together with the memory gives each address one value. */
  ghost predicate Fits(m: MemoryState, batch: seq<Write>) {
    && (forall w :: w in batch ==> w.ptr.segmentIndex < m.numSegments)
    && (forall w :: w in batch && w.ptr in m.cells ==> m.cells[w.ptr] == w.value)
    && (forall v, w :: v in batch && w in batch && v.ptr == w.ptr ==> v.value == w.value)
  }

  ghost function Targets(batch: seq<Write>): set<Relocatable> {
    if batch == [] then {} else {batch[0].ptr} + Targets(batch[1..])
  }

  lemma {:induction false} TargetsAreWrites(batch: seq<Write>)
    ensures forall w :: w in batch ==> w.ptr in Targets(batch)
    ensures forall p :: p in Targets(batch) ==> exists w :: w in batch && w.ptr == p
  {
    if batch == [] {
    } else {
      TargetsAreWrites(batch[1..]);
      assert batch == [batch[0]] + batch[1..];
      forall p | p in Targets(batch)
        ensures exists w :: w in batch && w.ptr == p
      {
        if p == batch[0].ptr {
          assert batch[0] in batch;
        } else {
          var w :| w in batch[1..] && w.ptr == p;
          assert w in batch;
        }
      }
    }
  }

  ghost function NewTargets(m: MemoryState, batch: seq<Write>): set<Relocatable> {
    Targets(batch) - m.cells.Keys
  }

  /** How many cells a batch adds. */
  ghost function NewCount(m: MemoryState, batch: seq<Write>): nat
    decreases |batch|
  {
    if batch == [] then 0
    else if batch[0].ptr in m.cells then NewCount(m, batch[1..])
    else 1 + NewCount(Put(m, batch[0]), batch[1..])
  }

  ghost predicate StoredCells(before: MemoryState, after: MemoryState, batch: seq<Write>) {
    && after.numSegments == before.numSegments
    && after.cells.Keys == before.cells.Keys + Targets(batch)
    && after.adds == before.adds + NewCount(before, batch)
  }

  ghost predicate StoredValues(before: MemoryState, after: MemoryState, batch: seq<Write>) {
    && Extends(before, after)
    && (forall w :: w in batch ==> w.ptr in after.cells && after.cells[w.ptr] == w.value)
  }

  /** `after` is `before` with exactly the writes of the batch added. */
  ghost predicate Stored(before: MemoryState, after: MemoryState, batch: seq<Write>) {
    StoredCells(before, after, batch) && StoredValues(before, after, batch)
  }

  /** The memory once a write to a new cell is stored. */
  function Put(m: MemoryState, w: Write): MemoryState {
    m.(cells := m.cells[w.ptr := w.value], adds := m.adds + 1)
  }

  lemma NewTargetsSplit(m: MemoryState, batch: seq<Write>)
    requires batch != []
    ensures var w, rest := batch[0], batch[1..];
      if w.ptr in m.cells then NewTargets(m, batch) == NewTargets(m, rest)
      else NewTargets(m, batch) == NewTargets(Put(m, w), rest) + {w.ptr} && w.ptr !in NewTargets(Put(m, w), rest)
  {
  }

  lemma {:induction false} NewCountIsCardinality(m: MemoryState, batch: seq<Write>)
    ensures NewCount(m, batch) == |NewTargets(m, batch)|
    decreases |batch|
  {
    if batch == [] {
    } else {
      NewTargetsSplit(m, batch);
      NewCountIsCardinality(if batch[0].ptr in m.cells then m else Put(m, batch[0]), batch[1..]);
    }
  }

  ghost predicate Acceptable(schedule: AddSchedule, m: MemoryState, batch: seq<Write>) {
    Fits(m, batch) && AddsSucceed(schedule, m.adds, NewCount(m, batch))
  }

  lemma AcceptableSplit(schedule: AddSchedule, m: MemoryState, w: Write, rest: seq<Write>)
    ensures Acceptable(schedule, m, [w] + rest)
       <==> Insert(schedule, m, w.ptr, w.value).1.Ok?
            && Acceptable(schedule, Insert(schedule, m, w.ptr, w.value).0, rest)
  {
  }

  lemma StoredKnown(m: MemoryState, w: Write, rest: seq<Write>, last: MemoryState)
    requires w.ptr in m.cells && m.cells[w.ptr] == w.value
    requires Stored(m, last, rest)
    ensures Stored(m, last, [w] + rest)
  {
  }

  lemma StoredNewCells(m: MemoryState, w: Write, rest: seq<Write>, last: MemoryState)
    requires w.ptr !in m.cells
    requires StoredCells(Put(m, w), last, rest)
    ensures StoredCells(m, last, [w] + rest)
  {
  }

  lemma StoredNewValues(m: MemoryState, w: Write, rest: seq<Write>, last: MemoryState)
    requires w.ptr !in m.cells
    requires StoredValues(Put(m, w), last, rest)
    ensures StoredValues(m, last, [w] + rest)
  {
  }

  lemma {:induction false} BatchAccepted(schedule: AddSchedule, m: MemoryState, batch: seq<Write>)
    ensures InsertAll(schedule, m, batch).1 <==> Acceptable(schedule, m, batch)
    ensures InsertAll(schedule, m, batch).1 ==> Stored(m, InsertAll(schedule, m, batch).0, batch)
    decreases |batch|
  {
    if batch == [] {
    } else {
      var w, rest := batch[0], batch[1..];
      assert batch == [w] + rest;
      var (next, inserted) := Insert(schedule, m, w.ptr, w.value);
      var last := InsertAll(schedule, next, rest).0;
      BatchAccepted(schedule, next, rest);
      AcceptableSplit(schedule, m, w, rest);
      if InsertAll(schedule, m, batch).1 {
        if w.ptr in m.cells {
          StoredKnown(m, w, rest, last);
        } else {
          StoredNewCells(m, w, rest, last);
          StoredNewValues(m, w, rest, last);
        }
      }
    }
  }

  /** A batch is accepted in full exactly when it fits and the storage it needs is found. */
  lemma BatchAcceptedExactly(schedule: AddSchedule, m: MemoryState, batch: seq<Write>)
    ensures InsertAll(schedule, m, batch).1
       <==> Fits(m, batch) && AddsSucceed(schedule, m.adds, |NewTargets(m, batch)|)
    ensures InsertAll(schedule, m, batch).1 ==>
      var last := InsertAll(schedule, m, batch).0;
      Stored(m, last, batch) && last.adds == m.adds + |NewTargets(m, batch)|
  {
    BatchAccepted(schedule, m, batch);
    NewCountIsCardinality(m, batch);
  }

  lemma {:induction false} TargetsWithin(batch: seq<Write>, whole: seq<Write>)
    requires forall w :: w in batch ==> w in whole
    ensures Targets(batch) <= Targets(whole)
  {
    if batch == [] {
    } else {
      TargetsAreWrites(whole);
      assert batch[0] in whole;
      TargetsWithin(batch[1..], whole);
    }
  }

  lemma SameWrites(m: MemoryState, first: seq<Write>, second: seq<Write>)
    requires multiset(first) == multiset(second)
    ensures forall w :: w in first <==> w in second
    ensures Fits(m, first) == Fits(m, second)
    ensures NewTargets(m, first) == NewTargets(m, second)
  {
    forall w
      ensures w in first <==> w in second
    {
      assert w in first <==> w in multiset(first);
    }
    TargetsWithin(first, second);
    TargetsWithin(second, first);
  }

  /** Any order of an accepted batch is accepted and leaves the same memory. */
  lemma BatchOrderIsIrrelevant(schedule: AddSchedule, m: MemoryState, first: seq<Write>, second: seq<Write>)
    requires multiset(first) == multiset(second)
    ensures InsertAll(schedule, m, first).1 == InsertAll(schedule, m, second).1
    ensures InsertAll(schedule, m, first).1 ==> InsertAll(schedule, m, first) == InsertAll(schedule, m, second)
  {
    SameWrites(m, first, second);
    BatchAcceptedExactly(schedule, m, first);
    BatchAcceptedExactly(schedule, m, second);
    if InsertAll(schedule, m, first).1 {
      StoredIsUnique(m, InsertAll(schedule, m, first).0, InsertAll(schedule, m, second).0, first, second);
    }
  }

  lemma StoredIsUnique(before: MemoryState, one: MemoryState, other: MemoryState, first: seq<Write>, second: seq<Write>)
    requires Stored(before, one, first) && Stored(before, other, second)
    requires forall w :: w in first <==> w in second
    ensures one == other
  {
    TargetsWithin(first, second);
    TargetsWithin(second, first);
    assert Targets(first) == Targets(second);
    NewCountIsCardinality(before, first);
    NewCountIsCardinality(before, second);
    assert NewTargets(before, first) == NewTargets(before, second);
    forall p | p in one.cells
      ensures one.cells[p] == other.cells[p]
    {
      if p !in before.cells {
        assert p in Targets(first);
        TargetsAreWrites(first);
        var w :| w in first && w.ptr == p;
        assert w in second;
      }
    }
    assert one.cells == other.cells;
  }

  // Bulk loads

  /** The writes of a bulk load, each at its wrapped address. */
  function Writes(ptr: Relocatable, data: seq<MaybeRelocatable>): seq<Write> {
    seq(|data|, i requires 0 <= i < |data| => Write(AddressAt(ptr, i), data[i]))
  }

  lemma AddressSum(ptr: Relocatable, i: nat, j: nat)
    ensures AddressAt(AddressAt(ptr, i), j) == AddressAt(ptr, i + j)
    ensures AddressAt(ptr, 0) == ptr
  {
  }

  lemma WritesSplit(ptr: Relocatable, data: seq<MaybeRelocatable>)
    requires data != []
    ensures Writes(ptr, data) == [Write(ptr, data[0])] + Writes(AddressAt(ptr, 1), data[1..])
  {
  }

  /** A bulk load is the batch of its writes, stopped at the first refusal. */
  lemma {:induction false} LoadIsBatch(
    schedule: AddSchedule, m: MemoryState, ptr: Relocatable, data: seq<MaybeRelocatable>)
    ensures var (last, loaded) := LoadData(schedule, m, ptr, data);
      && (loaded.Ok? <==> InsertAll(schedule, m, Writes(ptr, data)).1)
      && (loaded.Ok? ==> last == InsertAll(schedule, m, Writes(ptr, data)).0 && loaded.value == AddressAt(ptr, |data|))
    decreases |data|
  {
    if data == [] {
      AddressSum(ptr, 0, 0);
    } else {
      var next, rest := AddressAt(ptr, 1), data[1..];
      var batch := Writes(next, rest);
      WritesSplit(ptr, data);
      assert ([Write(ptr, data[0])] + batch)[1..] == batch;
      AddressSum(ptr, 1, |rest|);
      LoadIsBatch(schedule, Insert(schedule, m, ptr, data[0]).0, next, rest);
    }
  }

  /** Elements that share a cell after the wrap of the 32-bit offset are equal. */
  ghost predicate WrapsConsistently(data: seq<MaybeRelocatable>) {
    forall i, j :: 0 <= i < j < |data| && Wrap32(i) == Wrap32(j) ==> data[i] == data[j]
  }

  /** What a caller can check before a bulk load. */
  ghost predicate Loadable(m: MemoryState, ptr: Relocatable, data: seq<MaybeRelocatable>) {
    data == [] || (
      && ptr.segmentIndex < m.numSegments
      && (forall i :: 0 <= i < |data| && AddressAt(ptr, i) in m.cells ==> m.cells[AddressAt(ptr, i)] == data[i])
      && WrapsConsistently(data))
  }

  /** The cells that the load of `count` elements from `ptr` reaches. */
  predicate InRange(ptr: Relocatable, count: nat, p: Relocatable) {
    p.segmentIndex == ptr.segmentIndex && Wrap32(p.offset + 0x1_0000_0000 - ptr.offset) < count
  }

  /** `after` is `before` with exactly the loaded elements added at their addresses. */
  ghost predicate LoadedImage(
    before: MemoryState, after: MemoryState, ptr: Relocatable, data: seq<MaybeRelocatable>)
  {
    && after.numSegments == before.numSegments
    && Extends(before, after)
    && (forall p :: p in after.cells <==> p in before.cells || InRange(ptr, |data|, p))
    && (forall i :: 0 <= i < |data| ==>
          AddressAt(ptr, i) in after.cells && after.cells[AddressAt(ptr, i)] == data[i])
  }

  lemma AddressesMeet(ptr: Relocatable, i: nat, j: nat)
    ensures AddressAt(ptr, i) == AddressAt(ptr, j) <==> Wrap32(i) == Wrap32(j)
  {
    WrapOfSum(ptr.offset, i);
    WrapOfSum(ptr.offset, j);
  }

  lemma WrapOfSum(offset: uint32, i: nat)
    ensures Wrap32(offset + i) == Wrap32(offset + Wrap32(i))
    ensures || Wrap32(offset + Wrap32(i)) == offset + Wrap32(i)
            || Wrap32(offset + Wrap32(i)) == offset + Wrap32(i) - 0x1_0000_0000
  {
  }

  lemma DistanceReaches(ptr: Relocatable, p: Relocatable, i: nat)
    requires p.segmentIndex == ptr.segmentIndex
    ensures AddressAt(ptr, i) == p <==> Wrap32(i) == Wrap32(p.offset + 0x1_0000_0000 - ptr.offset)
  {
  }

  lemma WriteAt(ptr: Relocatable, data: seq<MaybeRelocatable>, w: Write) returns (i: nat)
    requires w in Writes(ptr, data)
    ensures i < |data| && w == Write(AddressAt(ptr, i), data[i])
  {
    i :| i < |data| && Writes(ptr, data)[i] == w;
  }

  lemma FitsWhenLoadable(m: MemoryState, ptr: Relocatable, data: seq<MaybeRelocatable>)
    requires Loadable(m, ptr, data)
    ensures Fits(m, Writes(ptr, data))
  {
    var batch := Writes(ptr, data);
    forall v, w | v in batch && w in batch && v.ptr == w.ptr
      ensures v.value == w.value
    {
      var i := WriteAt(ptr, data, v);
      var j := WriteAt(ptr, data, w);
      AddressesMeet(ptr, i, j);
    }
  }

  lemma LoadableWhenFits(m: MemoryState, ptr: Relocatable, data: seq<MaybeRelocatable>)
    requires Fits(m, Writes(ptr, data))
    ensures Loadable(m, ptr, data)
  {
    var batch := Writes(ptr, data);
    assert forall i :: 0 <= i < |data| ==> batch[i] in batch;
    forall i, j | 0 <= i < j < |data| && Wrap32(i) == Wrap32(j)
      ensures data[i] == data[j]
    {
      AddressesMeet(ptr, i, j);
      assert batch[i].ptr == batch[j].ptr;
    }
    forall i | 0 <= i < |data| && AddressAt(ptr, i) in m.cells
      ensures m.cells[AddressAt(ptr, i)] == data[i]
    {
      assert batch[i].ptr in m.cells;
    }
    assert data != [] ==> batch[0].ptr.segmentIndex == ptr.segmentIndex;
  }

  lemma TargetIsInRange(ptr: Relocatable, data: seq<MaybeRelocatable>, p: Relocatable)
    requires p in Targets(Writes(ptr, data))
    ensures InRange(ptr, |data|, p)
  {
    TargetsAreWrites(Writes(ptr, data));
    var w :| w in Writes(ptr, data) && w.ptr == p;
    var i := WriteAt(ptr, data, w);
    DistanceReaches(ptr, p, i);
  }

  lemma RangeIsTargeted(ptr: Relocatable, data: seq<MaybeRelocatable>, p: Relocatable)
    requires InRange(ptr, |data|, p)
    ensures p in Targets(Writes(ptr, data))
  {
    var batch := Writes(ptr, data);
    var i := Wrap32(p.offset + 0x1_0000_0000 - ptr.offset);
    DistanceReaches(ptr, p, i);
    assert batch[i].ptr == p;
    assert batch[i] in batch;
    TargetsAreWrites(batch);
  }

  /** The number of calls of `cc_hashtable_add` that a load needs. */
  ghost function NewCells(m: MemoryState, ptr: Relocatable, data: seq<MaybeRelocatable>): nat {
    |NewTargets(m, Writes(ptr, data))|
  }

  ghost predicate LoadCondition(
    schedule: AddSchedule, m: MemoryState, ptr: Relocatable, data: seq<MaybeRelocatable>)
  {
    Loadable(m, ptr, data) && AddsSucceed(schedule, m.adds, NewCells(m, ptr, data))
  }

  /** A bulk load succeeds exactly when the data is loadable and the storage it needs is found. */
  lemma LoadSucceedsExactly(schedule: AddSchedule, m: MemoryState, ptr: Relocatable, data: seq<MaybeRelocatable>)
    ensures LoadData(schedule, m, ptr, data).1.Ok? <==> LoadCondition(schedule, m, ptr, data)
    ensures var (last, loaded) := LoadData(schedule, m, ptr, data);
      loaded.Ok? ==>
        && loaded == Ok(AddressAt(ptr, |data|))
        && LoadedImage(m, last, ptr, data)
        && last.adds == m.adds + NewCells(m, ptr, data)
  {
    var batch := Writes(ptr, data);
    LoadIsBatch(schedule, m, ptr, data);
    BatchAcceptedExactly(schedule, m, batch);
    if Loadable(m, ptr, data) {
      FitsWhenLoadable(m, ptr, data);
    }
    if Fits(m, batch) {
      LoadableWhenFits(m, ptr, data);
    }
    if LoadData(schedule, m, ptr, data).1.Ok? {
      StoredIsLoaded(m, LoadData(schedule, m, ptr, data).0, ptr, data);
    }
  }

  lemma StoredIsLoaded(m: MemoryState, last: MemoryState, ptr: Relocatable, data: seq<MaybeRelocatable>)
    requires Stored(m, last, Writes(ptr, data))
    ensures LoadedImage(m, last, ptr, data)
  {
    var batch := Writes(ptr, data);
    forall p
      ensures p in last.cells <==> p in m.cells || InRange(ptr, |data|, p)
    {
      if p in Targets(batch) {
        TargetIsInRange(ptr, data, p);
      }
      if InRange(ptr, |data|, p) {
        RangeIsTargeted(ptr, data, p);
      }
    }
    forall i | 0 <= i < |data|
      ensures AddressAt(ptr, i) in last.cells && last.cells[AddressAt(ptr, i)] == data[i]
    {
      assert batch[i] in batch;
    }
  }

  /** Every element is readable at its address, counted from the pointer modulo 2^32. */
  ghost predicate HoldsElements(
    cells: map<Relocatable, MaybeRelocatable>, ptr: Relocatable, data: seq<MaybeRelocatable>)
  {
    forall i :: 0 <= i < |data| ==>
      var p := Relocatable(ptr.segmentIndex, (ptr.offset + i) % 0x1_0000_0000);
      p in cells && cells[p] == data[i]
  }

  lemma AddressIsRemainder(ptr: Relocatable, i: nat)
    ensures AddressAt(ptr, i) == Relocatable(ptr.segmentIndex, (ptr.offset + i) % 0x1_0000_0000)
  {
    WrapIsRemainder(ptr.offset + i);
  }

  lemma ImageHoldsElements(m: MemoryState, last: MemoryState, ptr: Relocatable, data: seq<MaybeRelocatable>)
    requires LoadedImage(m, last, ptr, data)
    ensures HoldsElements(last.cells, ptr, data)
  {
    forall i | 0 <= i < |data|
      ensures var p := Relocatable(ptr.segmentIndex, (ptr.offset + i) % 0x1_0000_0000);
        p in last.cells && last.cells[p] == data[i]
    {
      AddressIsRemainder(ptr, i);
      assert AddressAt(ptr, i) in last.cells;
    }
  }

  lemma EndIsRemainder(schedule: AddSchedule, m: MemoryState, ptr: Relocatable, data: seq<MaybeRelocatable>)
    requires LoadData(schedule, m, ptr, data).1.Ok?
    ensures LoadData(schedule, m, ptr, data).1.value
         == Relocatable(ptr.segmentIndex, (ptr.offset + |data|) % 0x1_0000_0000)
  {
    LoadIsBatch(schedule, m, ptr, data);
    AddressIsRemainder(ptr, |data|);
  }

  lemma ElementsAreHeld(schedule: AddSchedule, m: MemoryState, ptr: Relocatable, data: seq<MaybeRelocatable>)
    requires LoadData(schedule, m, ptr, data).1.Ok?
    ensures HoldsElements(LoadData(schedule, m, ptr, data).0.cells, ptr, data)
  {
    LoadSucceedsExactly(schedule, m, ptr, data);
    ImageHoldsElements(m, LoadData(schedule, m, ptr, data).0, ptr, data);
  }

  /** A load that succeeds returns the address after the data and leaves every element at its own. */
  lemma LoadedElements(schedule: AddSchedule, m: MemoryState, ptr: Relocatable, data: seq<MaybeRelocatable>)
    ensures var (last, loaded) := LoadData(schedule, m, ptr, data);
      loaded.Ok? ==>
        && loaded.value == Relocatable(ptr.segmentIndex, (ptr.offset + |data|) % 0x1_0000_0000)
        && HoldsElements(last.cells, ptr, data)
  {
    if LoadData(schedule, m, ptr, data).1.Ok? {
      EndIsRemainder(schedule, m, ptr, data);
      ElementsAreHeld(schedule, m, ptr, data);
    }
  }

  /** Loading a + b is loading a and then, if that succeeded, b from the returned pointer. */
  lemma {:induction false} LoadsCompose(
    schedule: AddSchedule, m: MemoryState, ptr: Relocatable, a: seq<MaybeRelocatable>, b: seq<MaybeRelocatable>)
    ensures LoadData(schedule, m, ptr, a + b)
         == var (next, loaded) := LoadData(schedule, m, ptr, a);
            if loaded.Ok? then LoadData(schedule, next, loaded.value, b) else (next, loaded)
    decreases |a|
  {
    if a == [] {
      assert a + b == b;
    } else {
      assert (a + b)[1..] == a[1..] + b;
      LoadsCompose(schedule, Insert(schedule, m, ptr, a[0]).0, AddressAt(ptr, 1), a[1..], b);
    }
  }

  /** Repeating a load that succeeded succeeds, whatever the storage, and changes nothing. */
  lemma ReloadChangesNothing(schedule: AddSchedule, m: MemoryState, ptr: Relocatable, data: seq<MaybeRelocatable>)
    requires LoadData(schedule, m, ptr, data).1.Ok?
    ensures var after := LoadData(schedule, m, ptr, data);
      LoadData(schedule, after.0, ptr, data) == after
  {
    var (last, loaded) := LoadData(schedule, m, ptr, data);
    LoadSucceedsExactly(schedule, m, ptr, data);
    LoadOfPresentData(schedule, last, ptr, data);
  }

  /** A load whose elements are already at their cells finds them. */
  lemma {:induction false} LoadOfPresentData(
    schedule: AddSchedule, m: MemoryState, ptr: Relocatable, data: seq<MaybeRelocatable>)
    requires data == [] || ptr.segmentIndex < m.numSegments
    requires forall i :: 0 <= i < |data| ==>
      AddressAt(ptr, i) in m.cells && m.cells[AddressAt(ptr, i)] == data[i]
    ensures LoadData(schedule, m, ptr, data) == (m, Ok(AddressAt(ptr, |data|)))
    decreases |data|
  {
    if data == [] {
    } else {
      var next := AddressAt(ptr, 1);
      forall i | 0 <= i < |data| - 1
        ensures AddressAt(next, i) in m.cells && m.cells[AddressAt(next, i)] == data[1..][i]
      {
        AddressSum(ptr, 1, i);
      }
      AddressSum(ptr, 1, |data| - 1);
      LoadOfPresentData(schedule, m, next, data[1..]);
    }
  }

  /** A failed load has stored a prefix, was refused at the next element, and changed nothing else. */
  lemma FailedLoadKeepsPrefix(schedule: AddSchedule, m: MemoryState, ptr: Relocatable, data: seq<MaybeRelocatable>)
    returns (k: nat)
    requires LoadData(schedule, m, ptr, data).1.Err?
    ensures LoadData(schedule, m, ptr, data).1 == Err(LoadDataError)
    ensures k < |data|
    ensures LoadedImage(m, LoadData(schedule, m, ptr, data).0, ptr, data[..k])
    ensures LoadData(schedule, m, ptr, data[..k]).1.Ok?
    ensures Insert(schedule, LoadData(schedule, m, ptr, data[..k]).0, AddressAt(ptr, k), data[k]).1.Err?
  {
    k := FirstRefused(schedule, m, ptr, data);
    LoadSucceedsExactly(schedule, m, ptr, data[..k]);
  }

  lemma {:induction false} FirstRefused(
    schedule: AddSchedule, m: MemoryState, ptr: Relocatable, data: seq<MaybeRelocatable>) returns (k: nat)
    requires LoadData(schedule, m, ptr, data).1.Err?
    ensures LoadData(schedule, m, ptr, data).1 == Err(LoadDataError)
    ensures k < |data| && LoadData(schedule, m, ptr, data[..k]).1.Ok?
    ensures var stored := LoadData(schedule, m, ptr, data[..k]).0;
      && Insert(schedule, stored, AddressAt(ptr, k), data[k]).1.Err?
      && LoadData(schedule, m, ptr, data).0 == Insert(schedule, stored, AddressAt(ptr, k), data[k]).0
    decreases |data|
  {
    var (next, inserted) := Insert(schedule, m, ptr, data[0]);
    if inserted.Err? {
      k := 0;
      AddressSum(ptr, 0, 0);
    } else {
      var j := FirstRefused(schedule, next, AddressAt(ptr, 1), data[1..]);
      k := j + 1;
      AddressSum(ptr, 1, j);
      assert data[..k][1..] == data[1..][..j];
      assert LoadData(schedule, m, ptr, data[..k]) == LoadData(schedule, next, AddressAt(ptr, 1), data[1..][..j]);
    }
  }

  /** The returned pointer is a free cell exactly when it was free before and the data leaves it free. */
  lemma EndPointerIsFreeExactly(schedule: AddSchedule, m: MemoryState, ptr: Relocatable, data: seq<MaybeRelocatable>)
    requires LoadData(schedule, m, ptr, data).1.Ok?
    ensures var (last, loaded) := LoadData(schedule, m, ptr, data);
      loaded.value in last.cells <==> AddressAt(ptr, |data|) in m.cells || |data| >= U32_RANGE
  {
    LoadSucceedsExactly(schedule, m, ptr, data);
    EndInRange(ptr, |data|);
  }

  lemma EndInRange(ptr: Relocatable, count: nat)
    ensures InRange(ptr, count, AddressAt(ptr, count)) <==> count >= U32_RANGE
  {
  }

  function CellCount(data: seq<MaybeRelocatable>): nat {
    if |data| < U32_RANGE then |data| else U32_RANGE
  }

  /** A load reaches one cell for each element, up to the number of offsets. */
  lemma {:induction false} TargetCount(ptr: Relocatable, data: seq<MaybeRelocatable>)
    ensures |Targets(Writes(ptr, data))| == CellCount(data)
    decreases |data|
  {
    if data == [] {
    } else {
      var n := |data| - 1;
      var earlier, end := Targets(Writes(ptr, data[..n])), AddressAt(ptr, n);
      TargetCount(ptr, data[..n]);
      AppendedTarget(ptr, data);
      assert Targets(Writes(ptr, data)) == earlier + {end};
      if n < U32_RANGE {
        assert |earlier + {end}| == |earlier| + 1;
      } else {
        assert earlier + {end} == earlier;
      }
    }
  }

  lemma AppendedTarget(ptr: Relocatable, data: seq<MaybeRelocatable>)
    requires data != []
    ensures var n := |data| - 1; var earlier := Targets(Writes(ptr, data[..n]));
      && Targets(Writes(ptr, data)) == earlier + {AddressAt(ptr, n)}
      && (AddressAt(ptr, n) in earlier <==> n >= U32_RANGE)
  {
    var n := |data| - 1;
    var batch, init, last := Writes(ptr, data), Writes(ptr, data[..n]), Write(AddressAt(ptr, n), data[n]);
    assert batch == init + [last];
    TargetsWithin(init, batch);
    TargetsAreWrites(batch);
    TargetsAreWrites(init);
    assert last in batch;
    forall p | p in Targets(batch)
      ensures p in Targets(init) + {AddressAt(ptr, n)}
    {
      var w :| w in batch && w.ptr == p;
      assert w in init || w == last;
    }
    EndInRange(ptr, n);
    if AddressAt(ptr, n) in Targets(init) {
      TargetIsInRange(ptr, data[..n], AddressAt(ptr, n));
    }
    if n >= U32_RANGE {
      RangeIsTargeted(ptr, data[..n], AddressAt(ptr, n));
    }
  }

  lemma {:induction false} LoadExtends(
    schedule: AddSchedule, m: MemoryState, ptr: Relocatable, data: seq<MaybeRelocatable>)
    ensures Extends(m, LoadData(schedule, m, ptr, data).0)
    ensures LoadData(schedule, m, ptr, data).0.numSegments == m.numSegments
    decreases |data|
  {
    if data == [] {
    } else {
      var (next, inserted) := Insert(schedule, m, ptr, data[0]);
      LoadExtends(schedule, next, AddressAt(ptr, 1), data[1..]);
    }
  }

  /** A load only touches its own segment. */
  lemma {:induction false} LoadKeepsOtherSegments(
    schedule: AddSchedule, m: MemoryState, ptr: Relocatable, data: seq<MaybeRelocatable>, p: Relocatable)
    requires p.segmentIndex != ptr.segmentIndex
    ensures p in LoadData(schedule, m, ptr, data).0.cells <==> p in m.cells
    decreases |data|
  {
    if data == [] {
    } else {
      LoadKeepsOtherSegments(schedule, Insert(schedule, m, ptr, data[0]).0, AddressAt(ptr, 1), data[1..], p);
    }
  }

  /**
   * A load into a segment that exists succeeds exactly when afterwards every element is readable at
   * its address.
   */
  lemma LoadSucceedsWhenReadable(
    schedule: AddSchedule, m: MemoryState, ptr: Relocatable, data: seq<MaybeRelocatable>)
    requires ptr.segmentIndex < m.numSegments
    ensures var (last, loaded) := LoadData(schedule, m, ptr, data);
      loaded.Ok? <==> forall i :: 0 <= i < |data| ==> Get(last, AddressAt(ptr, i)) == Ok(data[i])
  {
    if LoadData(schedule, m, ptr, data).1.Ok? {
      LoadSucceedsExactly(schedule, m, ptr, data);
    } else {
      var k := FirstRefused(schedule, m, ptr, data);
      LoadSucceedsExactly(schedule, m, ptr, data[..k]);
      assert Get(LoadData(schedule, m, ptr, data).0, AddressAt(ptr, k)) != Ok(data[k]);
    }
  }

  /** Every cell that a load adds holds an element of the data, at that element's address. */
  lemma {:induction false} NewCellHoldsElement(
    schedule: AddSchedule, m: MemoryState, ptr: Relocatable, data: seq<MaybeRelocatable>, p: Relocatable)
    returns (i: nat)
    requires p in LoadData(schedule, m, ptr, data).0.cells && p !in m.cells
    ensures i < |data| && AddressAt(ptr, i) == p
    ensures LoadData(schedule, m, ptr, data).0.cells[p] == data[i]
    decreases |data|
  {
    var next := Insert(schedule, m, ptr, data[0]).0;
    AddressSum(ptr, 0, 0);
    if p in next.cells {
      i := 0;
      LoadExtends(schedule, next, AddressAt(ptr, 1), data[1..]);
    } else {
      var j := NewCellHoldsElement(schedule, next, AddressAt(ptr, 1), data[1..], p);
      i := j + 1;
      AddressSum(ptr, 1, j);
    }
  }
}
