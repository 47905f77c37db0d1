/** Allocation scenarios on a 1000-slot pool. */
module MemoryManagerScenarios {
  import opened Wrappers
  import opened MemoryManager

  /** The pool after each step of the scenario below. */
  function PoolA(): seq<Block> { [Block(0, 300, false, true), Block(300, 700, true, false)] }
  function PoolB(): seq<Block> { [Block(0, 300, false, true), Block(300, 400, false, true), Block(700, 300, true, false)] }
  function PoolC(): seq<Block> {
    [Block(0, 300, false, true), Block(300, 400, false, true), Block(700, 300, false, true), Block(1000, 0, true, false)]
  }
  function PoolF(): seq<Block> {
    [Block(0, 300, false, true), Block(300, 400, true, true), Block(700, 300, false, true), Block(1000, 0, true, false)]
  }
  function PoolD(): seq<Block> {
    [Block(0, 300, false, true), Block(300, 400, false, true), Block(700, 0, true, false),
     Block(700, 300, false, true), Block(1000, 0, true, false)]
  }

  /**
   * Allocating 300, 400 and 300 slots packs the pool (addresses 0, 300,
   * 700, and an empty remainder at 1000); after the 400-slot block is freed,
   * a new 400-slot request reuses exactly its address and the pool is full
   * again. Each step starts from the state the previous one produced.
   */
  lemma ScenarioReuseFreedBlock()
    ensures Alloc(New(1000), 300) == AllocResult(Manager(1000, 300, PoolA()), Some(0))
    ensures Alloc(Manager(1000, 300, PoolA()), 400) == AllocResult(Manager(1000, 700, PoolB()), Some(1))
    ensures Alloc(Manager(1000, 700, PoolB()), 300) == AllocResult(Manager(1000, 1000, PoolC()), Some(2))
    ensures Free(Manager(1000, 1000, PoolC()), 1) == Manager(1000, 600, PoolF())
    ensures Alloc(Manager(1000, 600, PoolF()), 400) == AllocResult(Manager(1000, 1000, PoolD()), Some(1))
  {
    AllocFromFresh();
    AllocFromA();
    AllocFromB();
    FreeFromC();
    AllocFromF();
  }

  lemma AllocFromFresh()
    ensures Alloc(New(1000), 300) == AllocResult(Manager(1000, 300, PoolA()), Some(0))
  {
    var m0 := Manager(1000, 0, [Block(0, 1000, true, false)]);
    assert New(1000) == m0;
    AllocFromSingle();
  }

  lemma AllocFromSingle()
    ensures Alloc(Manager(1000, 0, [Block(0, 1000, true, false)]), 300) == AllocResult(Manager(1000, 300, PoolA()), Some(0))
  {
    var bs := [Block(0, 1000, true, false)];
    assert Fits(bs[0], 300);
    assert FirstFit(bs, 300, 0) == Some(0);
    assert bs[..0] == [] && bs[1..] == [];
    assert SplitAt(bs, 0, 300) == PoolA();
  }

  lemma AllocFromA()
    ensures Alloc(Manager(1000, 300, PoolA()), 400) == AllocResult(Manager(1000, 700, PoolB()), Some(1))
  {
    var a := PoolA();
    assert Fits(a[1], 400) && !Fits(a[0], 400);
  }

  lemma AllocFromB()
    ensures Alloc(Manager(1000, 700, PoolB()), 300) == AllocResult(Manager(1000, 1000, PoolC()), Some(2))
  {
    var b := PoolB();
    assert Fits(b[2], 300) && !Fits(b[0], 300) && !Fits(b[1], 300);
  }

  lemma FreeFromC()
    ensures Free(Manager(1000, 1000, PoolC()), 1) == Manager(1000, 600, PoolF())
  {
    assert Merge(PoolC(), 1) == PoolC();
  }

  lemma AllocFromF()
    ensures Alloc(Manager(1000, 600, PoolF()), 400) == AllocResult(Manager(1000, 1000, PoolD()), Some(1))
  {
    var f := PoolF();
    assert Fits(f[1], 400) && !Fits(f[0], 400);
  }

  /** `count` successive `alloc(n)` calls: the final state and how many succeeded. */
  function AllocRepeatedly(m: Manager, n: nat, count: nat): (Manager, nat)
    decreases count
  {
    if count == 0 then (m, 0)
    else
      var a := Alloc(m, n);
      var (m', s) := AllocRepeatedly(a.manager, n, count - 1);
      (m', s + if a.handle.Some? then 1 else 0)
  }

  /** `k` allocated blocks of `n` slots packed from address 0, then the free rest. */
  function Packed(k: nat, n: nat, capacity: int): seq<Block> {
    seq(k, i => Block(i * n, n, false, true)) + [Block(k * n, capacity - k * n, true, false)]
  }

  /** The allocator holding `Packed(k, n, capacity)`. */
  function PackedPool(k: nat, n: nat, capacity: int): Manager {
    Manager(capacity, k * n, Packed(k, n, capacity))
  }

  /** One more `alloc(n)` on a packed pool takes the free rest if it is large enough. */
  lemma AllocOnPacked(k: nat, n: nat, capacity: int)
    requires n > 0 && k * n <= capacity
    ensures var a := Alloc(PackedPool(k, n, capacity), n);
            if (k + 1) * n <= capacity then
              a.handle == Some(k) && a.manager == PackedPool(k + 1, n, capacity)
            else
              a.handle == None && a.manager == PackedPool(k, n, capacity)
  {
    var bs := Packed(k, n, capacity);
    var m := Manager(capacity, k * n, bs);
    var a := Alloc(m, n);
    assert forall j :: 0 <= j < k ==> !bs[j].isFree;
    assert bs[k] == Block(k * n, capacity - k * n, true, false);
    assert (k + 1) * n == k * n + n;
    if (k + 1) * n <= capacity {
      assert Fits(bs[k], n);
      assert a.handle == Some(k);
      var bs' := a.manager.blocks;
      var p := Packed(k + 1, n, capacity);
      assert |bs'| == |p|;
      forall i | 0 <= i < |p| ensures bs'[i] == p[i] {
        if i < k {
          assert bs'[i] == bs'[..k][i] == bs[..k][i];
        }
      }
    }
  }

  /** Once the free rest of a packed pool is smaller than `n`, every further `alloc(n)` fails. */
  lemma {:induction false} FullPackedRefuses(k: nat, n: nat, capacity: int, count: nat)
    requires n > 0 && k * n <= capacity < (k + 1) * n
    ensures AllocRepeatedly(PackedPool(k, n, capacity), n, count) == (PackedPool(k, n, capacity), 0)
    decreases count
  {
    if count > 0 {
      AllocOnPacked(k, n, capacity);
      FullPackedRefuses(k, n, capacity, count - 1);
    }
  }

  /** While the free rest holds `n` slots, the first of `count` calls succeeds and packs one more block. */
  lemma PackedStep(k: nat, n: nat, capacity: int, count: nat)
    requires n > 0 && (k + 1) * n <= capacity && count > 0
    ensures var rest := AllocRepeatedly(PackedPool(k + 1, n, capacity), n, count - 1);
            AllocRepeatedly(PackedPool(k, n, capacity), n, count) == (rest.0, rest.1 + 1)
  {
    assert k * n <= (k + 1) * n;
    AllocOnPacked(k, n, capacity);
  }

  /**
   * Repeated `alloc(n)` on a packed pool succeeds while the free rest holds
   * `n` more slots and fails ever after: the number of successes `s` is the
   * largest that fits, capped by the number of calls.
   */
  lemma {:induction false} AllocRepeatedlyOnPacked(k: nat, n: nat, capacity: int, count: nat)
    requires n > 0 && k * n <= capacity
    ensures var (m, s) := AllocRepeatedly(PackedPool(k, n, capacity), n, count);
            && s <= count
            && (k + s) * n <= capacity
            && (s == count || (k + s + 1) * n > capacity)
            && m == PackedPool(k + s, n, capacity)
    decreases count
  {
    if count > 0 {
      if (k + 1) * n <= capacity {
        PackedStep(k, n, capacity, count);
        AllocRepeatedlyOnPacked(k + 1, n, capacity, count - 1);
        var s' := AllocRepeatedly(PackedPool(k + 1, n, capacity), n, count - 1).1;
        assert k + 1 + s' == k + (s' + 1);
      } else {
        FullPackedRefuses(k, n, capacity, count);
      }
    }
  }

  /**
   * `count` requests of `n` slots on a fresh pool: the first
   * `min(count, capacity / n)` succeed, each taking the next `n` slots, and
   * the rest return `null`.
   */
  lemma RequestsOnFreshPool(capacity: nat, n: nat, count: nat)
    requires n > 0
    ensures var (m, s) := AllocRepeatedly(New(capacity), n, count);
            && s == (if count <= capacity / n then count else capacity / n)
            && m.used == s * n
            && m.blocks == Packed(s, n, capacity)
  {
    NewIsPacked(capacity, n);
    AllocRepeatedlyOnPacked(0, n, capacity, count);
    var s := AllocRepeatedly(New(capacity), n, count).1;
    assert 0 + s == s;
    FitCount(capacity, n, count, s);
  }

  /** The only success count that fits and cannot fit one more is `min(count, capacity / n)`. */
  lemma FitCount(capacity: nat, n: nat, count: nat, s: nat)
    requires n > 0 && s <= count && s * n <= capacity
    requires s == count || (s + 1) * n > capacity
    ensures s == (if count <= capacity / n then count else capacity / n)
  {
    var q := capacity / n;
    assert q * n <= capacity < (q + 1) * n;
    if s > q {
      MulMonotone(q + 1, s, n);
    }
    if s < count && s < q {
      MulMonotone(s + 1, q, n);
    }
  }

  lemma MulMonotone(a: nat, b: nat, n: nat)
    requires a <= b
    ensures a * n <= b * n
  {
    assert b * n - a * n == (b - a) * n;
  }

  /** A fresh pool is a packed pool with no allocations. */
  lemma NewIsPacked(capacity: nat, n: nat)
    ensures New(capacity) == PackedPool(0, n, capacity)
  {
    assert Packed(0, n, capacity) == [Block(0, capacity, true, false)];
  }

  /**
   * Ten requests of 150 slots on an empty 1000-slot pool: exactly six
   * succeed, using 900 slots, and the other four return `null`.
   */
  lemma ScenarioTenRequestsOf150()
    ensures var (m, s) := AllocRepeatedly(New(1000), 150, 10);
            s == 6 && m.used == 900
  {
    RequestsOnFreshPool(1000, 150, 10);
  }
}
