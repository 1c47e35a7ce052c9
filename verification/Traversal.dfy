/** The order in which `print_memory` visits the cells (src/memory.c). */
module Traversal {
  import opened MemoryModel
  import opened Relocatables
  import opened Words

  datatype Cell = Cell(address: Relocatable, value: MaybeRelocatable)

  /** `(int)n` of an `unsigned int`: values from 2^31 on become negative. */
  function SignedInt(n: uint32): (s: int)
    ensures -0x8000_0000 <= s < 0x8000_0000
    ensures s == n || s == n - 0x1_0000_0000
  {
    if n < 0x8000_0000 then n else n - 0x1_0000_0000
  }

  /** The first unwritten offset of a segment from `from` on, or 2^32 if there is none. */
  ghost function FirstGap(m: MemoryState, segment: uint32, from: nat): nat
    requires from <= U32_RANGE
    decreases U32_RANGE - from
  {
    if from == U32_RANGE || Relocatable(segment, from) !in m.cells then from else FirstGap(m, segment, from + 1)
  }

  /** The condition under which the inner loop over a segment ends. */
  ghost predicate HasGap(m: MemoryState, segment: nat) {
    segment < U32_RANGE && exists offset: uint32 :: Relocatable(segment, offset) !in m.cells
  }

  lemma {:induction false} FirstGapBounds(m: MemoryState, segment: uint32, from: nat)
    requires from <= U32_RANGE
    ensures from <= FirstGap(m, segment, from) <= U32_RANGE
    ensures forall o: uint32 :: from <= o < FirstGap(m, segment, from) ==> Relocatable(segment, o) in m.cells
    ensures FirstGap(m, segment, from) < U32_RANGE ==> Relocatable(segment, FirstGap(m, segment, from)) !in m.cells
    decreases U32_RANGE - from
  {
    if from == U32_RANGE || Relocatable(segment, from) !in m.cells {
    } else {
      FirstGapBounds(m, segment, from + 1);
    }
  }

  /** The cells of a segment at the offsets below `count`, in order. */
  ghost function SegmentPrefix(m: MemoryState, segment: uint32, count: nat): seq<Cell>
    requires count <= FirstGap(m, segment, 0)
    decreases count
  {
    if count == 0 then []
    else
      FirstGapBounds(m, segment, 0);
      var last := Relocatable(segment, count - 1);
      SegmentPrefix(m, segment, count - 1) + [Cell(last, m.cells[last])]
  }

  /** Segment after segment, the cells before the first gap. */
  ghost function VisitOrder(m: MemoryState, segments: int): seq<Cell>
    requires segments <= U32_RANGE
    decreases segments
  {
    if segments <= 0 then []
    else
      VisitOrder(m, segments - 1) + SegmentPrefix(m, segments - 1, FirstGap(m, segments - 1, 0))
  }

  /** At each offset up to the first gap, a cell is stored exactly below the gap. */
  lemma GapSplitsSegment(m: MemoryState, segment: uint32, offset: uint32)
    requires HasGap(m, segment) && offset <= FirstGap(m, segment, 0)
    ensures FirstGap(m, segment, 0) < U32_RANGE
    ensures Relocatable(segment, offset) in m.cells <==> offset < FirstGap(m, segment, 0)
  {
    FirstGapBounds(m, segment, 0);
  }

  lemma {:induction false} PrefixHoldsCells(m: MemoryState, segment: uint32, count: nat)
    requires count <= FirstGap(m, segment, 0)
    ensures |SegmentPrefix(m, segment, count)| == count
    ensures forall o: uint32 :: o < count ==>
      var p := Relocatable(segment, o);
      p in m.cells && SegmentPrefix(m, segment, count)[o] == Cell(p, m.cells[p])
    decreases count
  {
    FirstGapBounds(m, segment, 0);
    if count == 0 {
    } else {
      PrefixHoldsCells(m, segment, count - 1);
    }
  }

  lemma PrefixHoldsExactly(m: MemoryState, segment: uint32, count: nat, cell: Cell)
    requires count <= FirstGap(m, segment, 0)
    ensures cell in SegmentPrefix(m, segment, count)
       <==> && cell.address in m.cells && cell.value == m.cells[cell.address]
            && cell.address.segmentIndex == segment && cell.address.offset < count
  {
    FirstGapBounds(m, segment, 0);
    PrefixHoldsCells(m, segment, count);
    var prefix := SegmentPrefix(m, segment, count);
    if cell in prefix {
      var o: uint32 :| o < |prefix| && prefix[o] == cell;
    }
    if cell.address.segmentIndex == segment && cell.address.offset < count {
      assert cell.address == Relocatable(segment, cell.address.offset);
      assert prefix[cell.address.offset] in prefix;
    }
  }

  /** The traversal visits exactly the cells before the first gap of each segment ... */
  lemma {:induction false} VisitsExactly(m: MemoryState, segments: int, cell: Cell)
    requires segments <= U32_RANGE
    ensures cell in VisitOrder(m, segments)
       <==> && cell.address in m.cells && cell.value == m.cells[cell.address]
            && cell.address.segmentIndex < segments
            && cell.address.offset < FirstGap(m, cell.address.segmentIndex, 0)
    decreases segments
  {
    if segments <= 0 {
    } else {
      VisitsExactly(m, segments - 1, cell);
      PrefixHoldsExactly(m, segments - 1, FirstGap(m, segments - 1, 0), cell);
    }
  }

  predicate Before(a: Relocatable, b: Relocatable) {
    a.segmentIndex < b.segmentIndex || (a.segmentIndex == b.segmentIndex && a.offset < b.offset)
  }

  predicate InOrder(cells: seq<Cell>) {
    forall i, j :: 0 <= i < j < |cells| ==> Before(cells[i].address, cells[j].address)
  }

  lemma AppendedInOrder(earlier: seq<Cell>, later: seq<Cell>)
    requires InOrder(earlier) && InOrder(later)
    requires forall a, b :: a in earlier && b in later ==> a.address.segmentIndex < b.address.segmentIndex
    ensures InOrder(earlier + later)
  {
  }

  lemma PrefixInOrder(m: MemoryState, segment: uint32, count: nat)
    requires count <= FirstGap(m, segment, 0)
    ensures InOrder(SegmentPrefix(m, segment, count))
  {
    var prefix := SegmentPrefix(m, segment, count);
    FirstGapBounds(m, segment, 0);
    PrefixHoldsCells(m, segment, count);
    forall i: uint32, j: uint32 | i < j < |prefix|
      ensures Before(prefix[i].address, prefix[j].address)
    {
    }
  }

  /** ... in the order of their addresses, so each of them once. */
  lemma {:induction false} VisitsInOrder(m: MemoryState, segments: int)
    requires segments <= U32_RANGE
    ensures InOrder(VisitOrder(m, segments))
    decreases segments
  {
    if segments <= 0 {
    } else {
      var segment, gap := segments - 1, FirstGap(m, segments - 1, 0);
      VisitsInOrder(m, segment);
      PrefixInOrder(m, segment, gap);
      forall a, b | a in VisitOrder(m, segment) && b in SegmentPrefix(m, segment, gap)
        ensures a.address.segmentIndex < b.address.segmentIndex
      {
        VisitsExactly(m, segment, a);
        PrefixHoldsExactly(m, segment, gap, b);
      }
      AppendedInOrder(VisitOrder(m, segment), SegmentPrefix(m, segment, gap));
    }
  }

  /** Printing ends: every segment visited has an unwritten offset. None is visited from 2^31 segments on. */
  ghost predicate PrintingEnds(m: MemoryState) {
    m.numSegments < 0x8000_0000 ==> forall segment: nat :: segment < m.numSegments ==> HasGap(m, segment)
  }

  /** Before the first gap: every offset up to this one is written. */
  lemma BeforeGapExactly(m: MemoryState, segment: uint32, offset: uint32)
    ensures offset < FirstGap(m, segment, 0)
       <==> forall o: uint32 :: o <= offset ==> Relocatable(segment, o) in m.cells
  {
    FirstGapBounds(m, segment, 0);
  }

  /**
   * The cells that a traversal of `numSegments` segments visits, by the counter itself: none from 2^31
   * segments on, and otherwise those of every segment below the counter that only have written offsets
   * before them.
   */
  lemma VisitedCells(m: MemoryState, cell: Cell)
    ensures cell in VisitOrder(m, SignedInt(m.numSegments))
       <==> && m.numSegments < 0x8000_0000
            && cell.address in m.cells && cell.value == m.cells[cell.address]
            && cell.address.segmentIndex < m.numSegments
            && forall o: uint32 :: o <= cell.address.offset ==>
                 Relocatable(cell.address.segmentIndex, o) in m.cells
  {
    VisitsExactly(m, SignedInt(m.numSegments), cell);
    BeforeGapExactly(m, cell.address.segmentIndex, cell.address.offset);
  }

  lemma AllVisitedCells(m: MemoryState)
    ensures var visited := VisitOrder(m, SignedInt(m.numSegments));
      forall cell ::
        cell in visited
        <==> && m.numSegments < 0x8000_0000
             && cell.address in m.cells && cell.value == m.cells[cell.address]
             && cell.address.segmentIndex < m.numSegments
             && forall o: uint32 :: o <= cell.address.offset ==>
                  Relocatable(cell.address.segmentIndex, o) in m.cells
  {
    forall cell {
      VisitedCells(m, cell);
    }
  }

  /** The inner loop over a segment meets an unwritten cell exactly when the segment has one. */
  lemma InnerLoopEndsExactly(m: MemoryState, segment: uint32)
    ensures HasGap(m, segment) <==> exists steps: nat :: Get(m, AddressAt(Relocatable(segment, 0), steps)).Err?
  {
    if HasGap(m, segment) {
      var offset: uint32 :| Relocatable(segment, offset) !in m.cells;
      assert AddressAt(Relocatable(segment, 0), offset) == Relocatable(segment, offset);
    }
    if steps: nat :| Get(m, AddressAt(Relocatable(segment, 0), steps)).Err? {
      assert AddressAt(Relocatable(segment, 0), steps) == Relocatable(segment, Wrap32(steps));
    }
  }
}
