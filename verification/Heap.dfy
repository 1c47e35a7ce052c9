/** Blocks obtained from `malloc`, and the arrays of pointers to them. */
module Heap {
  import opened Relocatables

  /** A block that holds a table key; it is written once, right after its allocation. */
  class KeyBlock {
    const address: Relocatable

    constructor (address: Relocatable)
      ensures this.address == address
    {
      this.address := address;
    }
  }

  /** A block that holds a memory value; it is written once, right after its allocation. */
  class ValueBlock {
    const value: MaybeRelocatable

    constructor (value: MaybeRelocatable)
      ensures this.value == value
    {
      this.value := value;
    }
  }

  /** The blocks that were allocated and not yet released. */
  class Allocator {
    var live: set<object>

    constructor ()
      ensures live == {}
    {
      live := {};
    }

    method AllocateKey(address: Relocatable) returns (block: KeyBlock)
      modifies this
      ensures fresh(block) && block.address == address && live == old(live) + {block}
    {
      block := new KeyBlock(address);
      live := live + {block};
    }

    method AllocateValue(value: MaybeRelocatable) returns (block: ValueBlock)
      modifies this
      ensures fresh(block) && block.value == value && live == old(live) + {block}
    {
      block := new ValueBlock(value);
      live := live + {block};
    }

    /** The two allocations of an insertion. */
    method AllocatePair(address: Relocatable, value: MaybeRelocatable) returns (key: KeyBlock, block: ValueBlock)
      modifies this
      ensures key.address == address && block.value == value
      ensures {key, block} !! old(live) && live == old(live) + {key, block}
    {
      key := AllocateKey(address);
      block := AllocateValue(value);
    }

    /** Releasing needs a live block: a second release of the same block is refused here. */
    method Free(block: object)
      requires block in live
      modifies this
      ensures live == old(live) - {block}
    {
      live := live - {block};
    }
  }

  function ValuesOf(items: seq<ValueBlock>): seq<MaybeRelocatable> {
    seq(|items|, i requires 0 <= i < |items| => items[i].value)
  }

  /** The blocks that an array of pointers points to. */
  ghost function ItemBlocks(items: seq<ValueBlock>): set<object> {
    if items == [] then {} else ItemBlocks(items[..|items| - 1]) + {items[|items| - 1]}
  }

  ghost predicate DistinctItems(items: seq<ValueBlock>) {
    forall i, j :: 0 <= i < j < |items| ==> items[i] != items[j]
  }

  lemma {:induction false} ItemBlocksAreItems(items: seq<ValueBlock>, block: object)
    ensures block in ItemBlocks(items) <==> exists i :: 0 <= i < |items| && items[i] == block
  {
    if items == [] {
    } else {
      var n := |items| - 1;
      ItemBlocksAreItems(items[..n], block);
      assert forall i :: 0 <= i < n ==> items[i] == items[..n][i];
    }
  }

  lemma {:induction false} ItemsCountBlocks(items: seq<ValueBlock>)
    requires DistinctItems(items)
    ensures |ItemBlocks(items)| == |items|
  {
    if items == [] {
    } else {
      var n := |items| - 1;
      ItemsCountBlocks(items[..n]);
      ItemBlocksAreItems(items[..n], items[n]);
      assert items[n] !in ItemBlocks(items[..n]);
    }
  }

  /** A `CC_Array` of pointers to values. */
  class PointerArray {
    var items: seq<ValueBlock>

    constructor ()
      ensures items == []
    {
      items := [];
    }

    function Values(): seq<MaybeRelocatable>
      reads this
    {
      ValuesOf(items)
    }

    method Add(item: ValueBlock)
      modifies this
      ensures items == old(items) + [item]
      ensures Values() == old(Values()) + [item.value]
    {
      items := items + [item];
    }

    /** Adds pointers to two values that are not on the heap. */
    method AddLocals(first: MaybeRelocatable, second: MaybeRelocatable)
      modifies this
      ensures Values() == old(Values()) + [first, second]
    {
      var one := new ValueBlock(first);
      var two := new ValueBlock(second);
      Add(one);
      Add(two);
    }

    /** Releases every item, each exactly once, and empties the array. */
    method RemoveAllFree(heap: Allocator)
      requires DistinctItems(items) && ItemBlocks(items) <= heap.live
      modifies this, heap
      ensures heap.live == old(heap.live) - old(ItemBlocks(items)) && items == []
    {
      for i := 0 to |items|
        invariant items == old(items)
        invariant heap.live == old(heap.live) - ItemBlocks(items[..i])
      {
        assert items[..i + 1][..i] == items[..i];
        ItemBlocksAreItems(items[..i], items[i]);
        ItemBlocksAreItems(items, items[i]);
        heap.Free(items[i]);
      }
      assert items[..|items|] == items;
      items := [];
    }
  }
}
