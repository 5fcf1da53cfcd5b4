/**
 The pool allocator: eight pools of fixed-size blocks, each a FreeRTOS queue of free items used as
 a stack. Items are objects, so that handing one out twice would be visible.
 */
module MemManager {
  import opened Machine

  const POOL_AMOUNT: nat := 8

  function BufSize(i: nat): nat {
    [16, 64, 128, 256, 512, 1024, 2048, 4096][if i < POOL_AMOUNT then i else 0]
  }

  function BufCount(i: nat): nat {
    [200, 100, 50, 10, 10, 10, 3, 3][if i < POOL_AMOUNT then i else 0]
  }

  /** The pool a request goes to: the first whose blocks are large enough; POOL_AMOUNT when none is. */
  function PoolFor(size: nat, from: nat): (i: nat)
    requires from <= POOL_AMOUNT
    ensures from <= i <= POOL_AMOUNT && (i < POOL_AMOUNT ==> size <= BufSize(i))
    ensures forall j :: from <= j < i ==> BufSize(j) < size
    decreases POOL_AMOUNT - from
  {
    if from == POOL_AMOUNT || size <= BufSize(from) then from else PoolFor(size, from + 1)
  }

  /** Requests above the largest block size have no pool; all others have a tightest one. */
  lemma TightestPool(size: nat)
    ensures PoolFor(size, 0) == POOL_AMOUNT <==> size > 4096
    ensures forall j :: 0 <= j < POOL_AMOUNT && size <= BufSize(j) ==>
              PoolFor(size, 0) < POOL_AMOUNT && BufSize(PoolFor(size, 0)) <= BufSize(j)
  {
    var i := PoolFor(size, 0);
    assert BufSize(7) == 4096;
    if i == POOL_AMOUNT {
      assert BufSize(7) < size;
    }
  }

  class Item {
    const size: nat
    const data: array<uint8>

    constructor (n: nat)
      ensures size == n == data.Length && fresh(data)
    {
      size := n;
      data := new uint8[n];
    }

    /** memset of the data to zero. */
    method Zero()
      modifies data
      ensures forall k :: 0 <= k < data.Length ==> data[k] == 0
    {
      for i := 0 to data.Length
        invariant forall k :: 0 <= k < i ==> data[k] == 0
      {
        data[i] := 0;
      }
    }
  }

  class Pool {
    const bufSize: nat
    const bufCount: nat
    var queue: seq<Item>
    ghost var items: set<Item>
    ghost var live: set<Item>

    constructor (size: nat, count: nat)
      ensures bufSize == size && bufCount == count && queue == [] && items == {} && live == {}
    {
      bufSize, bufCount, queue := size, count, [];
      items, live := {}, {};
    }

    /** What holds whatever callers free. */
    ghost predicate Shape()
      reads this
    {
      && |queue| <= bufCount
      && (forall k :: 0 <= k < |queue| ==> queue[k].size == bufSize == queue[k].data.Length)
    }

    /** Every item of the pool is in exactly one place, and none was lost: free and live make up bufCount. */
    ghost predicate Sound()
      reads this
    {
      && |queue| + |live| == bufCount
      && (forall k :: 0 <= k < |queue| ==> queue[k] in items && queue[k] !in live)
      && (forall j, k :: 0 <= j < k < |queue| ==> queue[j] != queue[k])
      && (forall it :: it in items ==> it in live || it in queue)
      && live <= items
      && (forall it :: it in items ==> it.size == bufSize == it.data.Length)
      && (forall a, b :: a in items && b in items && a != b ==> a.data != b.data)
    }

    /** xQueueReceive without blocking. */
    method Receive() returns (it: Item?)
      modifies `queue
      ensures old(queue) == [] ==> it == null && queue == []
      ensures old(queue) != [] ==> it == old(queue)[0] && queue == old(queue)[1..]
    {
      it := null;
      if |queue| > 0 {
        it, queue := queue[0], queue[1..];
      }
    }

    /** xQueueSendToFront without blocking: a full queue refuses the item. */
    method SendToFront(it: Item) returns (ok: bool)
      modifies `queue
      ensures ok == (|old(queue)| < bufCount)
      ensures queue == if ok then [it] + old(queue) else old(queue)
    {
      ok := |queue| < bufCount;
      if ok {
        queue := [it] + queue;
      }
    }

    /** Takes the front item and zeroes it. */
    method Take() returns (it: Item?)
      requires Shape()
      modifies `queue, `live, set q | q in queue :: q.data
      ensures Shape() && (old(Sound()) ==> Sound())
      ensures it == null <==> old(queue) == []
      ensures it == null ==> unchanged(this)
      ensures it != null ==>
                && old(queue) == [it] + queue && it.size == bufSize == it.data.Length
                && live == old(live) + {it}
                && (forall k :: 0 <= k < it.data.Length ==> it.data[k] == 0)
      ensures it != null && old(Sound()) ==> it in items && it !in old(live)
    {
      it := Receive();
      if it != null {
        it.Zero();
        live := live + {it};
      }
    }

    /** Takes an item back; the queue of a sound pool has room for every live item. */
    method Give(it: Item)
      requires Shape() && it.size == bufSize == it.data.Length
      modifies `queue, `live
      ensures Shape()
      ensures queue == if |old(queue)| < bufCount then [it] + old(queue) else old(queue)
      ensures live == old(live) - {it}
      ensures old(Sound()) && it in old(live) ==> Sound() && queue == [it] + old(queue)
    {
      var ok := SendToFront(it);
      live := live - {it};
    }

    /** One block more for the pool while it is filled. */
    method AddItem()
      requires Shape() && |queue| < bufCount
      requires live == {} && (forall it :: it in items <==> it in queue)
      requires forall j, k :: 0 <= j < k < |queue| ==> queue[j] != queue[k]
      requires forall a, b :: a in items && b in items && a != b ==> a.data != b.data
      modifies this
      ensures Shape() && |queue| == |old(queue)| + 1
      ensures live == {} && (forall it :: it in items <==> it in queue)
      ensures forall j, k :: 0 <= j < k < |queue| ==> queue[j] != queue[k]
      ensures forall a, b :: a in items && b in items && a != b ==> a.data != b.data
      ensures forall it :: it in items && it !in old(items) ==> fresh(it) && fresh(it.data)
    {
      var it := new Item(bufSize);
      var ok := SendToFront(it);
      items := items + {it};
    }
  }

  class Manager {
    const pools: seq<Pool>

    ghost predicate Shape()
      reads this, pools
    {
      && |pools| == POOL_AMOUNT
      && (forall i, j :: 0 <= i < j < POOL_AMOUNT ==> pools[i] != pools[j])
      && (forall i :: 0 <= i < POOL_AMOUNT ==>
            pools[i].bufSize == BufSize(i) && pools[i].bufCount == BufCount(i) && pools[i].Shape())
    }

    /** The invariant of well-behaved use. */
    ghost predicate Valid()
      reads this, pools
    {
      Shape() && forall i :: 0 <= i < POOL_AMOUNT ==> pools[i].Sound()
    }

    /** A block that is handed out. */
    ghost predicate IsLive(it: Item)
      reads this, pools
    {
      exists p :: p in pools && it in p.live
    }

    /** The memory of the free blocks, all that Alloc may write. */
    ghost function FreeMemory(): set<array<uint8>>
      reads this, pools
    {
      set p, it | p in pools && it in p.queue :: it.data
    }

    /** MemManager_Init */
    constructor ()
      ensures Valid() && forall i :: 0 <= i < POOL_AMOUNT ==> pools[i].live == {} && |pools[i].queue| == BufCount(i)
    {
      var made: seq<Pool> := [];
      for i := 0 to POOL_AMOUNT
        invariant |made| == i && (forall j :: 0 <= j < i ==> fresh(made[j]))
        invariant forall j, k :: 0 <= j < k < i ==> made[j] != made[k]
        invariant forall j :: 0 <= j < i ==> made[j].bufSize == BufSize(j) && made[j].bufCount == BufCount(j)
        invariant forall j :: 0 <= j < i ==>
          made[j].Shape() && made[j].Sound() && made[j].live == {} && |made[j].queue| == BufCount(j)
      {
        var p := FilledPool(i);
        made := made + [p];
      }
      pools := made;
    }

    static method FilledPool(i: nat) returns (p: Pool)
      requires i < POOL_AMOUNT
      ensures fresh(p) && p.bufSize == BufSize(i) && p.bufCount == BufCount(i)
      ensures p.Shape() && p.Sound() && p.live == {} && |p.queue| == BufCount(i)
    {
      p := new Pool(BufSize(i), BufCount(i));
      for j := 0 to p.bufCount
        invariant p.Shape() && |p.queue| == j && p.live == {} && (forall it :: it in p.items <==> it in p.queue)
        invariant forall j, k :: 0 <= j < k < |p.queue| ==> p.queue[j] != p.queue[k]
        invariant forall a, b :: a in p.items && b in p.items && a != b ==> a.data != b.data
      {
        p.AddItem();
      }
    }

    /** The pool index of a block size. */
    lemma SizesDiffer(i: nat, j: nat)
      requires i < POOL_AMOUNT && j < POOL_AMOUNT && BufSize(i) == BufSize(j)
      ensures i == j
    {
    }

    /** What Alloc may write is no one's: live blocks keep their contents. */
    lemma LiveMemoryIsNotFree(it: Item)
      requires Valid() && IsLive(it)
      ensures it.data !in FreeMemory()
    {
    }

    /** The receive of Alloc: one pool changes, and the invariant stays. */
    method TakeFrom(i: nat) returns (block: Item?)
      requires Shape() && i < POOL_AMOUNT
      modifies pools[i], set q | q in pools[i].queue :: q.data
      ensures Shape() && (old(Valid()) ==> Valid())
      ensures block == null <==> old(pools[i].queue) == []
      ensures block == null ==> unchanged(pools[i])
      ensures block != null ==>
                && block.size == block.data.Length == pools[i].bufSize
                && old(pools[i].queue) == [block] + pools[i].queue && pools[i].live == old(pools[i].live) + {block}
                && (forall k :: 0 <= k < block.data.Length ==> block.data[k] == 0)
      ensures block != null && old(Valid()) ==> forall j :: 0 <= j < POOL_AMOUNT ==> block !in old(pools[j].live)
    {
      block := pools[i].Take();
    }

    /** The send of Free: one pool changes, and the invariant stays when the block was live. */
    method GiveTo(i: nat, block: Item)
      requires Shape() && i < POOL_AMOUNT && block.size == BufSize(i) == block.data.Length
      modifies pools[i]
      ensures Shape()
      ensures pools[i].queue == if |old(pools[i].queue)| < pools[i].bufCount then [block] + old(pools[i].queue) else old(pools[i].queue)
      ensures pools[i].live == old(pools[i].live) - {block}
      ensures old(Valid()) && block in old(pools[i].live) ==> Valid() && pools[i].queue == [block] + old(pools[i].queue)
    {
      pools[i].Give(block);
    }

    /** A live block is live in the pool of its size. */
    lemma LiveInItsPool(i: nat, block: Item)
      requires Valid() && IsLive(block) && i < POOL_AMOUNT && block.size == BufSize(i)
      ensures block in pools[i].live
    {
      var p :| p in pools && block in p.live;
      var j :| 0 <= j < POOL_AMOUNT && pools[j] == p;
      SizesDiffer(i, j);
    }

    /**
     MemManager_Alloc: the front block of the tightest pool, zeroed. It fails only from an
     interrupt, when no pool fits, or when that one pool is empty; larger pools are not tried.
     */
    method Alloc(size: nat, inInterrupt: bool) returns (block: Item?)
      requires Shape()
      modifies pools, FreeMemory()
      ensures Shape() && (old(Valid()) ==> Valid())
      ensures block == null <==> inInterrupt || PoolFor(size, 0) == POOL_AMOUNT || old(pools[PoolFor(size, 0)].queue) == []
      ensures forall i :: 0 <= i < POOL_AMOUNT && (block == null || i != PoolFor(size, 0)) ==> unchanged(pools[i])
      ensures block != null ==> var p := pools[PoolFor(size, 0)];
                && size <= block.size == block.data.Length == p.bufSize
                && old(p.queue) == [block] + p.queue && p.live == old(p.live) + {block}
                && (forall k :: 0 <= k < block.data.Length ==> block.data[k] == 0)
      ensures block != null && old(Valid()) ==> forall p :: p in pools ==> block !in old(p.live)
    {
      block := null;
      if inInterrupt {
        return;
      }
      for i := 0 to POOL_AMOUNT
        invariant PoolFor(size, 0) == PoolFor(size, i)
        invariant block == null && Shape()
        invariant forall j :: 0 <= j < POOL_AMOUNT ==> unchanged(pools[j])
      {
        if size <= pools[i].bufSize {
          block := TakeFrom(i);
          return;
        }
      }
    }

    /** MemManager_Free: a block goes back to the front of the pool of its size. */
    method Free(block: Item?, inInterrupt: bool)
      requires Shape()
      requires block != null ==> block.data.Length == block.size
      modifies pools
      ensures Shape()
      ensures old(Valid()) && (block == null || inInterrupt || old(IsLive(block))) ==> Valid()
      ensures forall i :: 0 <= i < POOL_AMOUNT && (block == null || inInterrupt || block.size != pools[i].bufSize) ==> unchanged(pools[i])
      ensures block != null && !inInterrupt ==> forall i :: 0 <= i < POOL_AMOUNT && block.size == pools[i].bufSize ==>
        && pools[i].live == old(pools[i].live) - {block}
        && pools[i].queue == if |old(pools[i].queue)| < pools[i].bufCount then [block] + old(pools[i].queue) else old(pools[i].queue)
    {
      if inInterrupt || block == null {
        return;
      }
      for i := 0 to POOL_AMOUNT
        invariant Shape() && forall j :: 0 <= j < POOL_AMOUNT ==> unchanged(pools[j])
        invariant forall j :: 0 <= j < i ==> pools[j].bufSize != block.size
      {
        if block.size == pools[i].bufSize {
          ghost var wasLive := Valid() && IsLive(block);
          if wasLive {
            LiveInItsPool(i, block);
          }
          forall j | 0 <= j < POOL_AMOUNT && pools[j].bufSize == block.size
            ensures j == i
          {
            SizesDiffer(i, j);
          }
          GiveTo(i, block);
          break;
        }
      }
    }
  }

  // ---------- what the invariant says ----------

  /** A sequence without repetition has as many elements as its set. */
  lemma {:induction false} DistinctCount(s: seq<Item>, items: set<Item>)
    requires forall j, k :: 0 <= j < k < |s| ==> s[j] != s[k]
    requires forall it :: it in items <==> it in s
    ensures |items| == |s|
    decreases |s|
  {
    if s == [] {
      assert items == {};
    } else {
      assert s[0] in items;
      forall it
        ensures it in items - {s[0]} <==> it in s[1..]
      {
        assert s == [s[0]] + s[1..];
      }
      DistinctCount(s[1..], items - {s[0]});
    }
  }

  /** A sound pool still has all the items it was made with. */
  lemma PoolKeepsItsItems(p: Pool)
    requires p.Shape() && p.Sound()
    ensures |p.items| == p.bufCount
  {
    var free := set it | it in p.queue;
    DistinctCount(p.queue, free);
    assert p.items == free + p.live && free !! p.live;
  }

  /** Two live blocks never share memory, whichever pools they come from. */
  lemma LiveBlocksAreDisjoint(m: Manager, a: Item, b: Item)
    requires m.Valid() && m.IsLive(a) && m.IsLive(b) && a != b
    ensures a.data != b.data
  {
    var p :| p in m.pools && a in p.live;
    var q :| q in m.pools && b in q.live;
    if p != q {
      var i :| 0 <= i < POOL_AMOUNT && m.pools[i] == p;
      var j :| 0 <= j < POOL_AMOUNT && m.pools[j] == q;
      if BufSize(i) == BufSize(j) {
        m.SizesDiffer(i, j);
      }
    }
  }

  /**
   Freeing a block twice while its pool has another block out makes the next two allocations of
   that size return the same memory: the caller's discipline cannot be dropped.
   */
  method DoubleFree(p: Pool, block: Item) returns (a: Item?, b: Item?)
    requires p.Shape() && p.Sound() && block in p.live && |p.live| >= 2
    modifies p, set q | q in p.queue :: q.data, block.data
    ensures a == b == block
  {
    p.Give(block);
    p.Give(block);
    ghost var twice := p.queue;
    assert twice[0] == block && twice[1] == block;
    a := p.Take();
    assert p.queue == twice[1..];
    b := p.Take();
  }
}
