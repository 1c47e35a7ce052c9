/** The table behind the memory: entries of key and value blocks, searched with `key_compare`. */
module HashTable {
  import opened Heap
  import opened MemoryModel
  import opened Relocatables
  import opened Wrappers

  datatype TableEntry = TableEntry(key: KeyBlock, value: ValueBlock)

  ghost predicate DistinctKeys(entries: seq<TableEntry>) {
    forall i, j :: 0 <= i < j < |entries| ==> entries[i].key.address != entries[j].key.address
  }

  /** The map from addresses to values that the entries represent. */
  ghost function CellsOf(entries: seq<TableEntry>): map<Relocatable, MaybeRelocatable> {
    if entries == [] then map[]
    else
      var last := entries[|entries| - 1];
      CellsOf(entries[..|entries| - 1])[last.key.address := last.value.value]
  }

  /** The blocks that the entries point to. */
  ghost function BlocksOf(entries: seq<TableEntry>): set<object> {
    if entries == [] then {}
    else
      var last := entries[|entries| - 1];
      BlocksOf(entries[..|entries| - 1]) + {last.key, last.value}
  }

  /** Each entry is readable in the map ... */
  lemma {:induction false} EntryIsCell(entries: seq<TableEntry>, i: nat)
    requires DistinctKeys(entries) && i < |entries|
    ensures entries[i].key.address in CellsOf(entries)
    ensures CellsOf(entries)[entries[i].key.address] == entries[i].value.value
  {
    var n := |entries| - 1;
    if i == n {
    } else {
      EntryIsCell(entries[..n], i);
    }
  }

  /** ... each address of the map has an entry ... */
  lemma {:induction false} CellHasEntry(entries: seq<TableEntry>, p: Relocatable) returns (i: nat)
    requires p in CellsOf(entries)
    ensures i < |entries| && entries[i].key.address == p
  {
    var n := |entries| - 1;
    if entries[n].key.address == p {
      i := n;
    } else {
      i := CellHasEntry(entries[..n], p);
    }
  }

  /** ... and there are as many of one as of the other. */
  lemma {:induction false} EntriesCountCells(entries: seq<TableEntry>)
    requires DistinctKeys(entries)
    ensures |CellsOf(entries)| == |entries|
  {
    if entries == [] {
    } else {
      var n := |entries| - 1;
      var init, last := CellsOf(entries[..n]), entries[n].key.address;
      EntriesCountCells(entries[..n]);
      if last in init {
        var i := CellHasEntry(entries[..n], last);
        assert false;
      }
      assert CellsOf(entries).Keys == init.Keys + {last};
      assert |CellsOf(entries).Keys| == |init.Keys| + 1;
    }
  }

  lemma {:induction false} BlocksAreEntries(entries: seq<TableEntry>)
    ensures forall i :: 0 <= i < |entries| ==>
      entries[i].key in BlocksOf(entries) && entries[i].value in BlocksOf(entries)
  {
    if entries == [] {
    } else {
      BlocksAreEntries(entries[..|entries| - 1]);
    }
  }

  lemma Appended(entries: seq<TableEntry>, entry: TableEntry)
    ensures CellsOf(entries + [entry]) == CellsOf(entries)[entry.key.address := entry.value.value]
    ensures BlocksOf(entries + [entry]) == BlocksOf(entries) + {entry.key, entry.value}
  {
  }

  /** No block occurs in two of the entries. */
  ghost predicate DistinctBlocks(entries: seq<TableEntry>) {
    forall i, j :: 0 <= i < j < |entries| ==> entries[i].key != entries[j].key && entries[i].value != entries[j].value
  }

  lemma {:induction false} BlockHasEntry(entries: seq<TableEntry>, block: object) returns (i: nat)
    requires block in BlocksOf(entries)
    ensures i < |entries| && (block == entries[i].key || block == entries[i].value)
  {
    var n := |entries| - 1;
    if block == entries[n].key || block == entries[n].value {
      i := n;
    } else {
      i := BlockHasEntry(entries[..n], block);
    }
  }

  lemma LaterBlocksAreOthers(entries: seq<TableEntry>, n: nat)
    requires DistinctBlocks(entries) && n < |entries|
    ensures entries[n].key !in BlocksOf(entries[..n]) && entries[n].value !in BlocksOf(entries[..n])
  {
    if entries[n].key in BlocksOf(entries[..n]) {
      var i := BlockHasEntry(entries[..n], entries[n].key);
      assert false;
    }
    if entries[n].value in BlocksOf(entries[..n]) {
      var i := BlockHasEntry(entries[..n], entries[n].value);
      assert false;
    }
  }

  /** Entries without shared blocks hold two blocks each. */
  lemma {:induction false} EntriesCountBlocks(entries: seq<TableEntry>)
    requires DistinctBlocks(entries)
    ensures |BlocksOf(entries)| == 2 * |entries|
  {
    if entries == [] {
    } else {
      var n := |entries| - 1;
      var pair: set<object> := {entries[n].key, entries[n].value};
      EntriesCountBlocks(entries[..n]);
      LaterBlocksAreOthers(entries, n);
      assert |pair| == 2;
      assert |BlocksOf(entries[..n]) + pair| == |BlocksOf(entries[..n])| + |pair|;
    }
  }

  /** Entries with distinct keys that were taken without sharing do not share blocks either. */
  lemma SelectedEntriesAreDistinct(entries: seq<TableEntry>, taken: seq<TableEntry>)
    requires DistinctKeys(entries) && DistinctBlocks(taken)
    requires forall i :: 0 <= i < |entries| ==> entries[i] in taken
    ensures DistinctBlocks(entries)
    ensures BlocksOf(entries) <= BlocksOf(taken)
  {
    forall i, j | 0 <= i < j < |entries|
      ensures entries[i].key != entries[j].key && entries[i].value != entries[j].value
    {
      var a :| 0 <= a < |taken| && taken[a] == entries[i];
      var b :| 0 <= b < |taken| && taken[b] == entries[j];
      assert a != b;
    }
    forall block | block in BlocksOf(entries)
      ensures block in BlocksOf(taken)
    {
      var i := BlockHasEntry(entries, block);
      assert entries[i] in taken;
      BlocksAreEntries(taken);
    }
  }

  /** A `CC_HashTable` whose additions may fail for lack of storage. */
  class Table {
    const schedule: AddSchedule
    var entries: seq<TableEntry>
    var adds: nat

    ghost predicate Valid()
      reads this
    {
      DistinctKeys(entries)
    }

    ghost function Cells(): map<Relocatable, MaybeRelocatable>
      reads this
    {
      CellsOf(entries)
    }

    constructor (schedule: AddSchedule)
      ensures Valid() && entries == [] && adds == 0 && this.schedule == schedule
    {
      this.schedule := schedule;
      entries := [];
      adds := 0;
    }

    method Get(key: Relocatable) returns (found: Option<ValueBlock>)
      requires Valid()
      ensures found.Some? <==> key in Cells()
      ensures found.Some? ==> found.value.value == Cells()[key]
    {
      for i := 0 to |entries|
        invariant forall j :: 0 <= j < i ==> entries[j].key.address != key
      {
        if KeyCompare(entries[i].key.address, key) == 0 {
          EntryIsCell(entries, i);
          return Some(entries[i].value);
        }
      }
      if key in Cells() {
        var j := CellHasEntry(entries, key);
        assert false;
      }
      return None;
    }

    /** Adds an absent key, or reports failure and leaves the entries alone. */
    method Add(key: KeyBlock, value: ValueBlock) returns (added: bool)
      requires Valid() && key.address !in Cells()
      modifies this
      ensures Valid() && adds == old(adds) + 1 && added == schedule(old(adds))
      ensures entries == if added then old(entries) + [TableEntry(key, value)] else old(entries)
      ensures Cells() == if added then old(Cells())[key.address := value.value] else old(Cells())
    {
      Appended(entries, TableEntry(key, value));
      forall i | 0 <= i < |entries|
        ensures entries[i].key.address != key.address
      {
        EntryIsCell(entries, i);
      }
      added := schedule(adds);
      adds := adds + 1;
      if added {
        entries := entries + [TableEntry(key, value)];
      }
    }

    method RemoveAll()
      modifies `entries
      ensures entries == []
    {
      entries := [];
    }
  }
}
