/**
 * The first-fit free-list allocator of the point pool (MemoryManager.js).
 *
 * The JavaScript keeps a singly linked list of entries starting at `head`.
 * Here the list is the sequence of its entries in `next` order, so
 * `blocks[0]` is the head and `blocks[i + 1]` is `blocks[i].next`. A handle
 * to an entry (what `alloc` returns and `free` takes) is its position in
 * that sequence.
 */
module MemoryManager {
  import opened Wrappers

  /** One list entry: `size` point slots starting at `address`. */
  datatype Block = Block(address: int, size: int, isFree: bool, accessed: bool)

  /**
   * The allocator. `used` is the number of slots in non-free blocks; the
   * JavaScript keeps the same quantity as the fraction `utilization`,
   * i.e. `used == utilization * capacity`.
   */
  datatype Manager = Manager(capacity: int, used: int, blocks: seq<Block>)

  /** Result of `alloc`: the new allocator state and the chosen entry, if any. */
  datatype AllocResult = AllocResult(manager: Manager, handle: Option<nat>)

  /** One past the last slot of `b`. */
  function End(b: Block): int {
    b.address + b.size
  }

  /** `MemoryManagerEntry.fit`: the entry is free and the `n` slots from its address end inside it. */
  predicate Fits(b: Block, n: int): (r: bool)
    ensures r <==> b.isFree && b.address + n <= End(b)
  {
    b.isFree && b.size >= n
  }

  // ---------------------------------------------------------------------
  // Sizes and the tiling invariant
  // ---------------------------------------------------------------------

  /** Total number of slots covered by `bs`. */
  function SumSizes(bs: seq<Block>): int {
    if |bs| == 0 then 0 else bs[0].size + SumSizes(bs[1..])
  }

  /** Number of slots in non-free blocks of `bs`. */
  function UsedSlots(bs: seq<Block>): int {
    if |bs| == 0 then 0
    else (if bs[0].isFree then 0 else bs[0].size) + UsedSlots(bs[1..])
  }

  predicate NonNegativeSizes(bs: seq<Block>) {
    forall i :: 0 <= i < |bs| ==> bs[i].size >= 0
  }

  /** Each block starts where the one before it ends. */
  predicate Adjacent(bs: seq<Block>) {
    forall i, j :: 0 <= i < |bs| && 0 <= j < |bs| && j == i + 1 ==> bs[j].address == End(bs[i])
  }

  /**
   * The central invariant: the blocks, in list order, tile `[0, capacity)`.
   * Zero-size blocks are allowed (every split leaves a remainder, possibly empty).
   */
  predicate Tiled(bs: seq<Block>, capacity: int) {
    && |bs| > 0
    && bs[0].address == 0
    && NonNegativeSizes(bs)
    && Adjacent(bs)
    && End(bs[|bs| - 1]) == capacity
  }

  /** A well-formed allocator: tiled blocks and exact used-slot accounting. */
  predicate Valid(m: Manager) {
    && m.capacity >= 0
    && Tiled(m.blocks, m.capacity)
    && m.used == UsedSlots(m.blocks)
  }

  // ---------------------------------------------------------------------
  // Operations
  // ---------------------------------------------------------------------

  /** `new MemoryManager(size)`: a single free block spanning the pool. */
  function New(capacity: nat): (m: Manager)
    ensures Valid(m)
    ensures m.used == 0 && m.capacity == capacity
    ensures m.blocks[0].isFree && m.blocks[0].size == capacity
  {
    Manager(capacity, 0, [Block(0, capacity, true, false)])
  }

  /** The first entry at or after position `k` that fits `n` slots. */
  function FirstFit(bs: seq<Block>, n: int, k: nat): (r: Option<nat>)
    requires k <= |bs|
    decreases |bs| - k
    ensures r.Some? ==> k <= r.value < |bs| && Fits(bs[r.value], n)
    ensures r.Some? ==> forall j :: k <= j < r.value ==> !Fits(bs[j], n)
    ensures r.None? ==> forall j :: k <= j < |bs| ==> !Fits(bs[j], n)
  {
    if k == |bs| then None
    else if Fits(bs[k], n) then Some(k)
    else FirstFit(bs, n, k + 1)
  }

  /**
   * `MemoryManagerEntry.alloc` on entry `h`: `split` shortens the entry to
   * `n` slots and always inserts a free remainder after it (even of size 0);
   * the entry becomes allocated and accessed.
   */
  function SplitAt(bs: seq<Block>, h: nat, n: int): (r: seq<Block>)
    requires h < |bs|
  {
    var b := bs[h];
    bs[..h] + [Block(b.address, n, false, true), Block(b.address + n, b.size - n, true, false)] + bs[h + 1..]
  }

  /**
   * `MemoryManager.alloc(n)`: first-fit scan from the head. On success the
   * chosen entry is split and `utilization` grows by `n / capacity`; when
   * nothing fits the result is `null` and nothing changes.
   */
  function Alloc(m: Manager, n: nat): (r: AllocResult)
    ensures r.handle.None? <==> forall j :: 0 <= j < |m.blocks| ==> !Fits(m.blocks[j], n)
    ensures r.handle.None? ==> r.manager == m
    ensures r.handle.Some? ==>
              var h := r.handle.value;
              && h < |m.blocks|
              && Fits(m.blocks[h], n)
              && (forall j :: 0 <= j < h ==> !Fits(m.blocks[j], n))
              && |r.manager.blocks| == |m.blocks| + 1
              && r.manager.blocks[..h] == m.blocks[..h]
              && r.manager.blocks[h] == Block(m.blocks[h].address, n, false, true)
              && r.manager.blocks[h + 1] == Block(m.blocks[h].address + n, m.blocks[h].size - n, true, false)
              && r.manager.blocks[h + 2..] == m.blocks[h + 1..]
              && r.manager.used == m.used + n
              && r.manager.capacity == m.capacity
  {
    match FirstFit(m.blocks, n, 0)
    case None => AllocResult(m, None)
    case Some(h) =>
      var bs' := SplitAt(m.blocks, h, n);
      assert bs'[h + 2..] == m.blocks[h + 1..];
      AllocResult(Manager(m.capacity, m.used + n, bs'), Some(h))
  }

  /**
   * `MemoryManagerEntry.merge` on entry `i`: when the next entry is free, it
   * first merges recursively, then entry `i` absorbs it.
   */
  function Merge(bs: seq<Block>, i: nat): (r: seq<Block>)
    requires i < |bs|
    decreases |bs| - i
    ensures i < |r| <= |bs|
    ensures r[..i] == bs[..i]
    ensures r[i].address == bs[i].address
    ensures r[i].isFree == bs[i].isFree && r[i].accessed == bs[i].accessed
    ensures i + 1 == |r| || !r[i + 1].isFree
  {
    if i + 1 < |bs| && bs[i + 1].isFree then
      var m := Merge(bs, i + 1);
      assert m[..i] == bs[..i] by {
        assert m[..i] == m[..i + 1][..i];
        assert bs[..i] == bs[..i + 1][..i];
      }
      assert m[i] == bs[i] by {
        assert m[i] == m[..i + 1][i];
        assert bs[i] == bs[..i + 1][i];
      }
      m[..i] + [m[i].(size := m[i].size + m[i + 1].size)] + m[i + 2..]
    else
      bs
  }

  /**
   * `MemoryManager.free(element)`: `utilization` drops by the entry's size
   * only if it was not already free; then the entry absorbs its free
   * successors and is marked free. Predecessors are never merged.
   */
  function Free(m: Manager, h: nat): (r: Manager)
    requires h < |m.blocks|
    ensures h < |r.blocks| <= |m.blocks|
    ensures r.capacity == m.capacity
    ensures r.blocks[..h] == m.blocks[..h]
    ensures r.blocks[h].isFree && r.blocks[h].address == m.blocks[h].address
    ensures r.blocks[h].accessed == m.blocks[h].accessed
    ensures h + 1 == |r.blocks| || !r.blocks[h + 1].isFree
    ensures r.used == if m.blocks[h].isFree then m.used else m.used - m.blocks[h].size
  {
    var used := if m.blocks[h].isFree then m.used else m.used - m.blocks[h].size;
    var merged := Merge(m.blocks, h);
    var bs' := merged[h := merged[h].(isFree := true)];
    assert bs'[..h] == merged[..h];
    Manager(m.capacity, used, bs')
  }

  /** `MemoryManager.utilization`, as a fraction of the pool. */
  function Utilization(m: Manager): (r: real)
    requires m.capacity > 0
    ensures r * m.capacity as real == m.used as real
  {
    m.used as real / m.capacity as real
  }

  /**
   * `MemoryManager.freeBlocks` from position `k` on: the positions of the
   * free entries, in list order. (`allBlocks` is the block sequence itself.)
   */
  function FreeHandles(bs: seq<Block>, k: nat): (r: seq<nat>)
    requires k <= |bs|
    decreases |bs| - k
    ensures forall x :: x in r <==> k <= x < |bs| && bs[x].isFree
    ensures forall p :: 0 <= p < |r| ==> k <= r[p] < |bs|
    ensures forall p, q :: 0 <= p < q < |r| ==> r[p] < r[q]
  {
    if k == |bs| then []
    else if bs[k].isFree then [k] + FreeHandles(bs, k + 1)
    else FreeHandles(bs, k + 1)
  }

  /** The entries `freeBlocks()` returns, in list order. */
  function FreeBlocks(m: Manager): (r: seq<Block>)
    ensures forall k :: 0 <= k < |r| ==> r[k].isFree && r[k] in m.blocks
  {
    var hs := FreeHandles(m.blocks, 0);
    seq(|hs|, k requires 0 <= k < |hs| => m.blocks[hs[k]])
  }
}
