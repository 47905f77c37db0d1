/**
 * Properties of the free-list allocator: the tiling invariant, first-fit
 * allocation, forward coalescing on free, used-slot accounting, and the
 * scenarios the allocator is expected to reproduce.
 */
module MemoryManagerProofs {
  import opened Wrappers
  import opened MemoryManager

  // ---------------------------------------------------------------------
  // Reference definition of a free: absorb the run of free successors
  // ---------------------------------------------------------------------

  /** The first position at or after `j` that is past the end or not free. */
  function RunEnd(bs: seq<Block>, j: nat): (r: nat)
    requires j <= |bs|
    decreases |bs| - j
    ensures j <= r <= |bs|
    ensures forall k :: j <= k < r ==> bs[k].isFree
    ensures r == |bs| || !bs[r].isFree
  {
    if j == |bs| || !bs[j].isFree then j else RunEnd(bs, j + 1)
  }

  /** Block `i` grown over the whole run of free blocks that follows it. */
  function Coalesced(bs: seq<Block>, i: nat): seq<Block>
    requires i < |bs|
  {
    var j := RunEnd(bs, i + 1);
    bs[..i] + [bs[i].(size := SumSizes(bs[i..j]))] + bs[j..]
  }

  // ---------------------------------------------------------------------
  // Arithmetic over block sequences
  // ---------------------------------------------------------------------

  lemma {:induction false} SumSizesConcat(a: seq<Block>, b: seq<Block>)
    ensures SumSizes(a + b) == SumSizes(a) + SumSizes(b)
    decreases |a|
  {
    if |a| > 0 {
      assert (a + b)[1..] == a[1..] + b;
      SumSizesConcat(a[1..], b);
    } else {
      assert a + b == b;
    }
  }

  lemma {:induction false} UsedSlotsConcat(a: seq<Block>, b: seq<Block>)
    ensures UsedSlots(a + b) == UsedSlots(a) + UsedSlots(b)
    decreases |a|
  {
    if |a| > 0 {
      assert (a + b)[1..] == a[1..] + b;
      UsedSlotsConcat(a[1..], b);
    } else {
      assert a + b == b;
    }
  }

  lemma UsedSlotsConcat3(a: seq<Block>, b: seq<Block>, c: seq<Block>)
    ensures UsedSlots(a + b + c) == UsedSlots(a) + UsedSlots(b) + UsedSlots(c)
  {
    UsedSlotsConcat(a + b, c);
    UsedSlotsConcat(a, b);
  }

  /** A block sequence cut at `lo <= hi` is the concatenation of its three pieces. */
  lemma Cut3(bs: seq<Block>, lo: nat, hi: nat)
    requires lo <= hi <= |bs|
    ensures bs == bs[..lo] + bs[lo..hi] + bs[hi..]
  {
  }

  lemma {:induction false} SumSizesNonNegative(bs: seq<Block>)
    requires NonNegativeSizes(bs)
    ensures SumSizes(bs) >= 0
    ensures 0 <= UsedSlots(bs) <= SumSizes(bs)
    decreases |bs|
  {
    if |bs| > 0 {
      SumSizesNonNegative(bs[1..]);
    }
  }

  lemma {:induction false} UsedSlotsAllFree(bs: seq<Block>)
    requires forall k :: 0 <= k < |bs| ==> bs[k].isFree
    ensures UsedSlots(bs) == 0
    decreases |bs|
  {
    if |bs| > 0 {
      UsedSlotsAllFree(bs[1..]);
    }
  }

  // ---------------------------------------------------------------------
  // Chains of adjacent blocks
  // ---------------------------------------------------------------------

  /** In an adjacent chain, block `j` starts where blocks `i..j` end. */
  lemma {:induction false} ChainAddress(bs: seq<Block>, i: nat, j: nat)
    requires Adjacent(bs)
    requires i <= j < |bs|
    ensures bs[j].address == bs[i].address + SumSizes(bs[i..j])
    decreases j - i
  {
    if i < j {
      ChainAddress(bs, i + 1, j);
      assert bs[i..j][1..] == bs[i + 1..j];
      assert bs[i + 1].address == End(bs[i]);
    }
  }

  /** In an adjacent chain, the last block ends after all blocks from `i` on. */
  lemma {:induction false} ChainEnd(bs: seq<Block>, i: nat)
    requires Adjacent(bs)
    requires i < |bs|
    ensures End(bs[|bs| - 1]) == bs[i].address + SumSizes(bs[i..])
    decreases |bs| - i
  {
    assert bs[i..][1..] == bs[i + 1..];
    if i + 1 < |bs| {
      ChainEnd(bs, i + 1);
      assert bs[i + 1].address == End(bs[i]);
    }
  }

  lemma AdjacentSlice(bs: seq<Block>, lo: nat, hi: nat)
    requires Adjacent(bs)
    requires lo <= hi <= |bs|
    ensures Adjacent(bs[lo..hi])
    ensures lo == 0 ==> Adjacent(bs[..hi])
    ensures hi == |bs| ==> Adjacent(bs[lo..])
  {
    var s := bs[lo..hi];
    forall i, j | 0 <= i < |s| && 0 <= j < |s| && j == i + 1
      ensures s[j].address == End(s[i])
    {
      assert s[i] == bs[lo + i] && s[j] == bs[lo + j];
    }
    if lo == 0 {
      assert bs[..hi] == s;
    }
    if hi == |bs| {
      assert bs[lo..] == s;
    }
  }

  lemma AdjacentConcat(a: seq<Block>, b: seq<Block>)
    requires Adjacent(a) && Adjacent(b)
    requires |a| > 0 && |b| > 0 ==> End(a[|a| - 1]) == b[0].address
    ensures Adjacent(a + b)
  {
    var c := a + b;
    forall i, j | 0 <= i < |c| && 0 <= j < |c| && j == i + 1
      ensures c[j].address == End(c[i])
    {
      if j < |a| {
        assert c[i] == a[i] && c[j] == a[j];
      } else if i >= |a| {
        assert c[i] == b[i - |a|] && c[j] == b[j - |a|];
      }
    }
  }

  /** The tiling of a valid list adds up to the capacity. */
  lemma TiledSumIsCapacity(bs: seq<Block>, capacity: int)
    requires Tiled(bs, capacity)
    ensures SumSizes(bs) == capacity
  {
    ChainEnd(bs, 0);
    assert bs[0..] == bs;
  }

  /**
   * No two blocks overlap: every block lies inside `[0, capacity)` and each
   * block ends no later than any later block starts. In particular two live
   * allocations never share a slot.
   */
  lemma BlocksDisjoint(bs: seq<Block>, capacity: int, i: nat, j: nat)
    requires Tiled(bs, capacity)
    requires i < j < |bs|
    ensures 0 <= bs[i].address && End(bs[i]) <= bs[j].address && End(bs[j]) <= capacity
  {
    ChainAddress(bs, 0, i);
    ChainAddress(bs, i, j);
    assert NonNegativeSizes(bs[0..i]);
    SumSizesNonNegative(bs[0..i]);
    assert bs[i..j][1..] == bs[i + 1..j];
    assert NonNegativeSizes(bs[i + 1..j]);
    SumSizesNonNegative(bs[i + 1..j]);
    ChainEnd(bs, j);
    assert bs[j..][1..] == bs[j + 1..];
    assert NonNegativeSizes(bs[j + 1..]);
    SumSizesNonNegative(bs[j + 1..]);
  }

  lemma NonNegativeConcat(a: seq<Block>, b: seq<Block>)
    requires NonNegativeSizes(a) && NonNegativeSizes(b)
    ensures NonNegativeSizes(a + b)
  {
    forall k | 0 <= k < |a + b| ensures (a + b)[k].size >= 0 {
      if k < |a| {
        assert (a + b)[k] == a[k];
      } else {
        assert (a + b)[k] == b[k - |a|];
      }
    }
  }

  /** Where the replacement chain ends: at the start of `bs[j]`, or at the capacity. */
  lemma ReplacementEnds(bs: seq<Block>, capacity: int, h: nat, j: nat, xs: seq<Block>)
    requires Tiled(bs, capacity)
    requires h < j <= |bs|
    requires |xs| > 0 && Adjacent(xs)
    requires xs[0].address == bs[h].address
    requires SumSizes(xs) == SumSizes(bs[h..j])
    ensures j < |bs| ==> End(xs[|xs| - 1]) == bs[j].address
    ensures j == |bs| ==> End(xs[|xs| - 1]) == capacity
  {
    ChainEnd(xs, 0);
    assert xs[0..] == xs;
    if j < |bs| {
      ChainAddress(bs, h, j);
    } else {
      ChainEnd(bs, h);
      assert bs[h..] == bs[h..j];
    }
  }

  /** The chain stays adjacent when the run `h..j` is replaced by a chain covering the same slots. */
  lemma ReplaceRunAdjacent(bs: seq<Block>, capacity: int, h: nat, j: nat, xs: seq<Block>)
    requires Tiled(bs, capacity)
    requires h < j <= |bs|
    requires |xs| > 0 && Adjacent(xs)
    requires xs[0].address == bs[h].address
    requires SumSizes(xs) == SumSizes(bs[h..j])
    ensures Adjacent(bs[..h] + xs + bs[j..])
  {
    var a, c := bs[..h], bs[j..];
    ReplacementEnds(bs, capacity, h, j, xs);
    AdjacentSlice(bs, 0, h);
    AdjacentSlice(bs, j, |bs|);
    if h > 0 {
      assert bs[h].address == End(bs[h - 1]);
    }
    AdjacentConcat(a, xs);
    AdjacentConcat(a + xs, c);
  }

  /**
   * Replacing the blocks `h..j` of a tiled list by an adjacent chain that
   * starts at the same address and covers the same number of slots keeps
   * the list tiled. Both `split` and `merge` are instances of this.
   */
  lemma ReplaceRunTiled(bs: seq<Block>, capacity: int, h: nat, j: nat, xs: seq<Block>)
    requires Tiled(bs, capacity)
    requires h < j <= |bs|
    requires |xs| > 0 && NonNegativeSizes(xs) && Adjacent(xs)
    requires xs[0].address == bs[h].address
    requires SumSizes(xs) == SumSizes(bs[h..j])
    ensures Tiled(bs[..h] + xs + bs[j..], capacity)
  {
    var a, c := bs[..h], bs[j..];
    ReplaceRunAdjacent(bs, capacity, h, j, xs);
    ReplacementEnds(bs, capacity, h, j, xs);
    ReplaceRunNonNegative(bs, h, j, xs);
    ConcatEnds(a, xs, c);
    if h > 0 {
      assert a[0] == bs[0];
    }
    if |c| > 0 {
      assert c[|c| - 1] == bs[|bs| - 1];
    }
  }

  lemma ReplaceRunNonNegative(bs: seq<Block>, h: nat, j: nat, xs: seq<Block>)
    requires NonNegativeSizes(bs) && NonNegativeSizes(xs)
    requires h <= j <= |bs|
    ensures NonNegativeSizes(bs[..h] + xs + bs[j..])
  {
    assert NonNegativeSizes(bs[..h]) && NonNegativeSizes(bs[j..]);
    NonNegativeConcat(bs[..h], xs);
    NonNegativeConcat(bs[..h] + xs, bs[j..]);
  }

  /** The first and last blocks of `a + xs + c` for a non-empty middle part. */
  lemma ConcatEnds(a: seq<Block>, xs: seq<Block>, c: seq<Block>)
    requires |xs| > 0
    ensures var r := a + xs + c;
            && r[0] == (if |a| > 0 then a[0] else xs[0])
            && r[|r| - 1] == (if |c| > 0 then c[|c| - 1] else xs[|xs| - 1])
  {
  }

  // ---------------------------------------------------------------------
  // Allocation
  // ---------------------------------------------------------------------

  /**
   * `alloc` on entry `h` turns it into an allocated, accessed entry of `n`
   * slots followed by a free, unaccessed remainder that starts where it ends
   * and ends where the old entry ended; every other entry keeps its place.
   */
  lemma SplitPieces(bs: seq<Block>, h: nat, n: int)
    requires h < |bs|
    ensures var r := SplitAt(bs, h, n);
            && |r| == |bs| + 1 && r[..h] == bs[..h] && r[h + 2..] == bs[h + 1..]
            && r[h].address == bs[h].address && r[h].size == n && !r[h].isFree && r[h].accessed
            && r[h + 1].address == End(r[h]) && End(r[h + 1]) == End(bs[h])
            && r[h + 1].isFree && !r[h + 1].accessed
  {
  }

  /** Splitting a block that fits keeps the list tiled. */
  lemma SplitTiled(bs: seq<Block>, capacity: int, h: nat, n: nat)
    requires Tiled(bs, capacity)
    requires h < |bs| && Fits(bs[h], n)
    ensures Tiled(SplitAt(bs, h, n), capacity)
  {
    var b := bs[h];
    var xs := [Block(b.address, n, false, true), Block(b.address + n, b.size - n, true, false)];
    assert SplitAt(bs, h, n) == bs[..h] + xs + bs[h + 1..];
    assert bs[h..h + 1] == [b];
    assert xs[1..] == [xs[1]] && [xs[1]][1..] == [] && [b][1..] == [];
    assert SumSizes(xs) == SumSizes(bs[h..h + 1]);
    ReplaceRunTiled(bs, capacity, h, h + 1, xs);
  }

  /** Splitting a free block for `n` slots adds exactly `n` used slots. */
  lemma SplitUsed(bs: seq<Block>, h: nat, n: nat)
    requires h < |bs| && bs[h].isFree
    ensures UsedSlots(SplitAt(bs, h, n)) == UsedSlots(bs) + n
  {
    var b := bs[h];
    var xs := [Block(b.address, n, false, true), Block(b.address + n, b.size - n, true, false)];
    assert xs[1..] == [xs[1]] && [xs[1]][1..] == [];
    assert UsedSlots([xs[1]]) == 0;
    assert UsedSlots(xs) == n;
    assert SplitAt(bs, h, n) == bs[..h] + xs + bs[h + 1..];
    UsedSlotsConcat3(bs[..h], xs, bs[h + 1..]);
    Cut3(bs, h, h + 1);
    assert bs[h..h + 1] == [b] && [b][1..] == [];
    assert UsedSlots(bs[h..h + 1]) == 0;
    UsedSlotsConcat3(bs[..h], bs[h..h + 1], bs[h + 1..]);
  }

  /** `alloc` keeps the blocks tiled and `used` equal to the allocated slots. */
  lemma AllocPreservesValid(m: Manager, n: nat)
    requires Valid(m)
    ensures Valid(Alloc(m, n).manager)
  {
    match FirstFit(m.blocks, n, 0)
    case None =>
    case Some(h) =>
      SplitTiled(m.blocks, m.capacity, h, n);
      SplitUsed(m.blocks, h, n);
  }

  // ---------------------------------------------------------------------
  // Free
  // ---------------------------------------------------------------------

  /** The pieces of a three-part concatenation whose first part has length `i + 1`. */
  lemma ConcatPieces(m: seq<Block>, p: seq<Block>, y: Block, q: seq<Block>, i: nat)
    requires |p| == i + 1
    requires m == p + [y] + q
    ensures m[..i] == p[..i] && m[i] == p[i] && m[i + 1] == y && m[i + 2..] == q
  {
  }

  /**
   * One step of `merge`: once block `i + 1` has absorbed the run `i + 1..j`,
   * absorbing block `i + 1` into block `i` grows block `i` over `i..j`.
   */
  lemma MergeStep(bs: seq<Block>, i: nat, j: nat, m: seq<Block>)
    requires i + 1 < j <= |bs|
    requires m == bs[..i + 1] + [bs[i + 1].(size := SumSizes(bs[i + 1..j]))] + bs[j..]
    ensures m[..i] + [m[i].(size := m[i].size + m[i + 1].size)] + m[i + 2..]
            == bs[..i] + [bs[i].(size := SumSizes(bs[i..j]))] + bs[j..]
  {
    ConcatPieces(m, bs[..i + 1], bs[i + 1].(size := SumSizes(bs[i + 1..j])), bs[j..], i);
    assert bs[..i + 1][..i] == bs[..i];
    assert bs[i..j][1..] == bs[i + 1..j];
  }

  /** Without a free successor there is nothing to absorb. */
  lemma CoalescedAlone(bs: seq<Block>, i: nat)
    requires i < |bs|
    requires i + 1 == |bs| || !bs[i + 1].isFree
    ensures Coalesced(bs, i) == bs
  {
    assert RunEnd(bs, i + 1) == i + 1;
    assert bs[i..i + 1] == [bs[i]];
    assert [bs[i]][1..] == [];
    assert SumSizes(bs[i..i + 1]) == bs[i].size;
    assert bs == bs[..i] + [bs[i]] + bs[i + 1..];
  }

  /** With a free successor, coalescing at `i` is coalescing at `i + 1` and absorbing block `i + 1`. */
  lemma CoalescedStep(bs: seq<Block>, i: nat)
    requires i + 1 < |bs| && bs[i + 1].isFree
    ensures var m := Coalesced(bs, i + 1);
            Coalesced(bs, i) == m[..i] + [m[i].(size := m[i].size + m[i + 1].size)] + m[i + 2..]
  {
    var j := RunEnd(bs, i + 2);
    assert RunEnd(bs, i + 1) == j;
    MergeStep(bs, i, j, Coalesced(bs, i + 1));
  }

  /** The recursive `MemoryManagerEntry.merge` absorbs exactly the run of free successors. */
  lemma {:induction false} MergeIsCoalesced(bs: seq<Block>, i: nat)
    requires i < |bs|
    ensures Merge(bs, i) == Coalesced(bs, i)
    decreases |bs| - i
  {
    if i + 1 < |bs| && bs[i + 1].isFree {
      MergeIsCoalesced(bs, i + 1);
      CoalescedStep(bs, i);
    } else {
      CoalescedAlone(bs, i);
    }
  }

  /**
   * `free(h)` leaves the predecessors alone, grows block `h` over the whole
   * contiguous run of free successors (all of which were free), and marks
   * it free.
   */
  lemma FreeCoalescesForward(m: Manager, h: nat)
    requires h < |m.blocks|
    ensures var bs, j := m.blocks, RunEnd(m.blocks, h + 1);
            && (forall k :: h < k < j ==> bs[k].isFree)
            && Free(m, h).blocks
               == bs[..h] + [Block(bs[h].address, SumSizes(bs[h..j]), true, bs[h].accessed)] + bs[j..]
  {
    var bs, j := m.blocks, RunEnd(m.blocks, h + 1);
    var x := bs[h].(size := SumSizes(bs[h..j]));
    MergeIsCoalesced(bs, h);
    assert Merge(bs, h) == bs[..h] + [x] + bs[j..];
    UpdateMiddle(bs[..h], x, x.(isFree := true), bs[j..]);
  }

  /** Updating the middle element of `a + [x] + c`. */
  lemma UpdateMiddle(a: seq<Block>, x: Block, y: Block, c: seq<Block>)
    ensures (a + [x] + c)[|a| := y] == a + [y] + c
  {
  }

  /** Coalescing keeps the list tiled. */
  lemma CoalescedTiled(bs: seq<Block>, capacity: int, h: nat, x: Block)
    requires Tiled(bs, capacity)
    requires h < |bs|
    requires x.address == bs[h].address && x.size == SumSizes(bs[h..RunEnd(bs, h + 1)])
    ensures Tiled(bs[..h] + [x] + bs[RunEnd(bs, h + 1)..], capacity)
  {
    var j := RunEnd(bs, h + 1);
    assert NonNegativeSizes(bs[h..j]);
    SumSizesNonNegative(bs[h..j]);
    assert [x][1..] == [];
    assert SumSizes([x]) == SumSizes(bs[h..j]);
    ReplaceRunTiled(bs, capacity, h, j, [x]);
  }

  /** Freeing block `h` releases exactly its slots, if it was in use. */
  lemma CoalescedUsed(bs: seq<Block>, h: nat, x: Block)
    requires h < |bs|
    requires x.isFree
    ensures UsedSlots(bs[..h] + [x] + bs[RunEnd(bs, h + 1)..])
            == UsedSlots(bs) - (if bs[h].isFree then 0 else bs[h].size)
  {
    var j := RunEnd(bs, h + 1);
    assert [x][1..] == [];
    assert UsedSlots([x]) == 0;
    UsedSlotsConcat3(bs[..h], [x], bs[j..]);
    Cut3(bs, h, j);
    UsedSlotsConcat3(bs[..h], bs[h..j], bs[j..]);
    UsedSlotsRun(bs, h, j);
  }

  /** A block followed by free blocks holds only the block's own used slots. */
  lemma UsedSlotsRun(bs: seq<Block>, h: nat, j: nat)
    requires h < j <= |bs|
    requires forall k :: h < k < j ==> bs[k].isFree
    ensures UsedSlots(bs[h..j]) == (if bs[h].isFree then 0 else bs[h].size)
  {
    var run := bs[h..j];
    assert run[0] == bs[h] && run[1..] == bs[h + 1..j];
    UsedSlotsAllFree(bs[h + 1..j]);
  }

  /** `free` keeps the blocks tiled and `used` equal to the allocated slots. */
  lemma FreePreservesValid(m: Manager, h: nat)
    requires Valid(m)
    requires h < |m.blocks|
    ensures Valid(Free(m, h))
  {
    var bs := m.blocks;
    var x := Block(bs[h].address, SumSizes(bs[h..RunEnd(bs, h + 1)]), true, bs[h].accessed);
    FreeCoalescesForward(m, h);
    CoalescedTiled(bs, m.capacity, h, x);
    CoalescedUsed(bs, h, x);
  }

  /**
   * Freeing an already-free block whose successor is not free (or absent)
   * changes nothing at all.
   */
  lemma DoubleFreeIsNoOp(m: Manager, h: nat)
    requires h < |m.blocks|
    requires m.blocks[h].isFree
    requires h + 1 == |m.blocks| || !m.blocks[h + 1].isFree
    ensures Free(m, h) == m
  {
    var bs := m.blocks;
    FreeCoalescesForward(m, h);
    assert RunEnd(bs, h + 1) == h + 1;
    assert bs[h..h + 1] == [bs[h]];
    assert bs == bs[..h] + [bs[h]] + bs[h + 1..];
  }

  /** In a valid allocator the utilization fraction lies in `[0, 1]`. */
  lemma UtilizationInRange(m: Manager)
    requires Valid(m) && m.capacity > 0
    ensures 0.0 <= Utilization(m) <= 1.0
  {
    SumSizesNonNegative(m.blocks);
    TiledSumIsCapacity(m.blocks, m.capacity);
  }

  /** `freeBlocks()` lists exactly the free blocks of `allBlocks()`, in list order. */
  lemma FreeBlocksAreTheFreeEntries(m: Manager)
    ensures var r, hs := FreeBlocks(m), FreeHandles(m.blocks, 0);
            && |r| == |hs|
            && (forall k :: 0 <= k < |r| ==> r[k] == m.blocks[hs[k]] && r[k].isFree)
            && (forall i :: 0 <= i < |m.blocks| && m.blocks[i].isFree ==> i in hs)
            && (forall p, q :: 0 <= p < q < |hs| ==> hs[p] < hs[q])
  {
  }
}
