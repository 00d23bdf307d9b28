/**
  `MemoryPool` and `LRUCache` as objects.  Every method is proved to compute the function of
  module `LruCache` for its critical section, and so keeps the cache invariant.
 */
module LruCacheMemory {
  import opened LruCache
  import opened Wrappers

  class MemoryPool {
    var que: seq<Buf>
    var useCellNum: int
    var maxCellNum: int
    ghost var alive: set<Buf>

    ghost function Value(): Pool
      reads this
    {
      Pool(que, useCellNum, maxCellNum, alive)
    }

    /** The free buffers are allocated, and no buffer is free twice. */
    ghost predicate Sound()
      reads this
    {
      (forall i :: 0 <= i < |que| ==> que[i] in alive) && forall i, j :: 0 <= i < j < |que| ==> que[i] != que[j]
    }

    /** The allocated buffers that the pool has handed out. */
    ghost function InUse(): set<Buf>
      reads this
    {
      alive - Elements(que)
    }

    constructor (maxCellNum: int)
      ensures Sound() && InUse() == {}
      ensures Value() == Pool([], 0, maxCellNum, {})
    {
      que, useCellNum, this.maxCellNum, alive := [], 0, maxCellNum, {};
    }

    /** Hands out one buffer that nobody uses, a new one at `addr` only when none is free. */
    method GetBuffer(addr: Buf) returns (val: Buf)
      modifies this
      ensures old(Sound() && addr !in alive) ==> Sound() && val !in old(InUse()) && InUse() == old(InUse()) + {val}
      ensures alive == if old(que) == [] then old(alive) + {addr} else old(alive)
      ensures if old(que) == [] then val == addr && que == [] else [val] + que == old(que)
      ensures useCellNum == old(useCellNum) + 1
      ensures (Value(), val) == TakeBuffer(old(Value()), addr)
    {
      if |que| > 0 {
        val := que[0];
        que := que[1..];
      } else {
        val := addr;
        alive := alive + {addr};
      }
      useCellNum := useCellNum + 1;
    }

    /** Takes a buffer back; what is over the limit is freed, the buffer that has been free longest. */
    method ReclaimBuffer(val: Buf)
      modifies this
      ensures old(Sound() && val in InUse()) ==> Sound() && InUse() == old(InUse()) - {val}
      ensures alive == if old(useCellNum + |que|) > maxCellNum then old(alive) - {(old(que) + [val])[0]} else old(alive)
      ensures que == if old(useCellNum + |que|) > maxCellNum then (old(que) + [val])[1..] else old(que) + [val]
      ensures useCellNum == old(useCellNum) - 1
      ensures Value() == Reclaim(old(Value()), val)
    {
      que := que + [val];
      useCellNum := useCellNum - 1;
      assert old(Sound() && val in InUse()) ==> Sound() && InUse() == old(InUse()) - {val};
      if useCellNum + |que| > maxCellNum {
        assert Elements(que[1..]) + {que[0]} == Elements(que);
        assert Sound() ==> que[0] !in Elements(que[1..]);
        alive := alive - {que[0]};
        que := que[1..];
      }
    }

    method SetMaxBufferNum(maxCellNum: int) returns (r: int)
      requires useCellNum >= 0 && maxCellNum >= 0
      modifies this
      ensures Value() == Trim(old(Value()), maxCellNum) && r == maxCellNum
      ensures useCellNum == old(useCellNum)
      ensures old(|que| + useCellNum) <= maxCellNum ==>
                que == old(que) && alive == old(alive) && this.maxCellNum == maxCellNum
      ensures old(|que| + useCellNum) > maxCellNum ==>
                var n := if useCellNum > maxCellNum then |old(que)| else |old(que)| + useCellNum - maxCellNum;
                que == old(que)[n..] && alive == old(alive) - Elements(old(que)[..n]) &&
                 this.maxCellNum == old(this.maxCellNum) - n
    {
      if |que| + useCellNum <= maxCellNum {
        this.maxCellNum := maxCellNum;
        return maxCellNum;
      }
      var delNum := if useCellNum > maxCellNum then |que| else |que| + useCellNum - maxCellNum;
      ghost var free, alive0 := que, alive;
      for i := 0 to delNum
        invariant que == free[i..] && alive == alive0 - Elements(free[..i])
        invariant useCellNum == old(useCellNum) && this.maxCellNum == old(this.maxCellNum)
      {
        assert free[..i + 1] == free[..i] + [free[i]];
        alive := alive - {que[0]};
        que := que[1..];
      }
      this.maxCellNum := this.maxCellNum - delNum;
      return maxCellNum;
    }
  }

  class LRUCache {
    const cellSize: nat
    const memPool: MemoryPool
    var maxSize: nat
    var maxOverflow: nat
    var insertInfos: map<Key, InfoId>
    var infos: map<InfoId, Info>
    var curSize: int
    var cells: map<Key, Cell>
    var queue: seq<Key>

    ghost function Value(): Cache
      reads this, memPool
    {
      Cache(cells, queue, curSize, maxSize, maxOverflow, insertInfos, infos, memPool.Value())
    }

    ghost predicate Valid()
      reads this, memPool
    {
      CacheInv(Value()) && cellSize > 0
    }

    /** The pool's limit is the two cache limits plus a margin of five hundred. */
    constructor (cacheSize: nat, cellSize: nat)
      requires cellSize > 0
      ensures Valid() && fresh(memPool) && this.cellSize == cellSize
      ensures maxSize + maxOverflow == cacheSize * 1024 * 1024 / cellSize
      ensures Value() == Cache(map[], [], 0, maxSize, maxOverflow, map[], map[],
              Pool([], 0, maxSize + maxOverflow + 500, {}))
    {
      this.cellSize := cellSize;
      var size, overflow := Limits(cacheSize, cellSize);
      maxSize, maxOverflow := size, overflow;
      memPool := new MemoryPool(size + overflow + 500);
      insertInfos, infos, curSize, cells, queue := map[], map[], 0, map[], [];
    }

    /** A twentieth of the budget, at most a thousand cells, is the overflow allowance. */
    static method Limits(cacheSize: nat, cellSize: nat) returns (size: nat, overflow: nat)
      requires cellSize > 0
      ensures size + overflow == cacheSize * 1024 * 1024 / cellSize
      ensures overflow == if (size + overflow) / 20 > 1000 then 1000 else (size + overflow) / 20
    {
      size := cacheSize * 1024 * 1024 / cellSize;
      overflow := size / 20;
      if overflow > 1000 {
        overflow := 1000;
      }
      size := size - overflow;
    }

    method GetImpl(key: Key) returns (found: Option<Buf>)
      requires Valid()
      modifies this
      ensures Valid()
      ensures key in old(cells) ==> Value() == Touch(old(Value()), key) && found == Some(old(cells)[key].buf)
      ensures key in old(cells) ==> Touched(old(cells), old(queue), cells, queue, key)
      ensures key !in old(cells) ==> Value() == old(Value()) && found == None
    {
      if key !in cells {
        return None;
      }
      TouchKeeps(Value(), key);
      hide CacheInv, Touch;
      found := Some(cells[key].buf);
      CountHit(key);
    }

    /** One more hit; after enough of them the key is young again. */
    method CountHit(key: Key)
      requires key in cells
      modifies `cells, `queue
      ensures Value() == Touch(old(Value()), key)
    {
      var cell := cells[key];
      if cell.hits >= THRESHOLD_OF_SWAP {
        queue := Without(queue, key) + [key];
        cells := cells[key := cell.(hits := 0)];
      } else {
        cells := cells[key := cell.(hits := cell.hits + 1)];
      }
    }

    /** Down to `max_size_` cells once both limits are reached. */
    method EvictOverflow()
      requires Listed(Value())
      modifies this, memPool
      ensures Value() == LruCache.EvictOverflow(old(Value()))
    {
      if curSize >= maxSize + maxOverflow {
        ghost var c0 := Value();
        var evictNum := curSize - maxSize;
        curSize := curSize - evictNum;
        for i := 0 to evictNum
          modifies `queue, `cells, memPool
          invariant Evicting(c0, evictNum, i)
        {
          EvictOne(c0, evictNum, i);
        }
      }
    }

    /** `i` of `n` evictions are done; the counter was lowered by `n` beforehand. */
    ghost predicate Evicting(c0: Cache, n: nat, i: nat)
      reads this, memPool
    {
      && i <= n <= |c0.queue| && QueueCached(c0)
      && var c := Value().(curSize := curSize + (n - i));
         Listed(c) && n - i <= |queue| && EvictN(c, n - i) == EvictN(c0, n)
    }

    method EvictOne(ghost c0: Cache, ghost n: nat, ghost i: nat)
      requires Evicting(c0, n, i) && i < n
      modifies `queue, `cells, memPool
      ensures Evicting(c0, n, i + 1)
    {
      ghost var c := Value().(curSize := curSize + (n - i));
      FrontLoses(c);
      DropListed(c, EvictFront(c), c.queue[0]);
      var key := queue[0];
      memPool.ReclaimBuffer(cells[key].buf);
      cells := cells - {key};
      queue := queue[1..];
      assert Value().(curSize := curSize + (n - i - 1)) == EvictFront(c);
    }

    /** The two branches of `SetImpl`; in `SetOrGet` only the first can occur. */
    method SetImpl(key: Key, value: Buf)
      requires Listed(Value())
      modifies this, memPool
      ensures Value() == SetCell(old(Value()), key, value)
    {
      if key !in cells {
        InsertListed(Value(), key, value);
        cells := cells[key := Cell(value, 0)];
        queue := queue + [key];
        curSize := curSize + 1;
        EvictOverflow();
      } else {
        var cell := cells[key];
        if cell.hits >= THRESHOLD_OF_SWAP {
          queue := Without(queue, key) + [key];
          cells := cells[key := Cell(value, 0)];
        } else {
          cells := cells[key := Cell(value, cell.hits + 1)];
        }
        memPool.ReclaimBuffer(cell.buf);
      }
    }

    /**
      First critical section of `SetOrGet`.  A hit returns the buffer of the key's own cell and counts; a
      miss the insert in flight for the key, a new one when there was none, whose buffer nobody else has.
     */
    method SetOrGetFirst(key: Key, newId: InfoId, addr: Buf) returns (found: Found)
      requires Valid() && newId !in infos && addr !in memPool.alive
      modifies this, memPool
      ensures Valid() && (Value(), found) == Lookup(old(Value()), key, newId, addr)
      ensures key in old(cells) ==>
                found == Hit(old(cells)[key].buf) && Touched(old(cells), old(queue), cells, queue, key) &&
                insertInfos == old(insertInfos) && infos == old(infos) && memPool.Value() == old(memPool.Value())
      ensures key !in old(cells) ==> cells == old(cells) && queue == old(queue)
      ensures key !in old(cells) && key in old(insertInfos) ==>
                found == Miss(old(insertInfos)[key]) && insertInfos == old(insertInfos) && infos == old(infos) &&
                memPool.Value() == old(memPool.Value())
      ensures key !in old(cells) && key !in old(insertInfos) ==>
                found == Miss(newId) && Inserted(old(Value()), Value(), key, newId, addr)
    {
      LookupKeeps(Value(), key, newId, addr);
      var hit := GetImpl(key);
      if hit.Some? {
        return Hit(hit.value);
      }
      if key !in insertInfos {
        var value := memPool.GetBuffer(addr);
        insertInfos := insertInfos[key := newId];
        infos := infos[newId := Info(value, false, false)];
      }
      return Miss(insertInfos[key]);
    }

    /** Second critical section of `SetOrGet`, after the load of `id` succeeded. */
    method SetOrGetSecond(key: Key, id: InfoId)
      requires Valid() && id in infos
      modifies this, memPool
      ensures Value() == Finish(old(Value()), key, id)
      ensures old(key in insertInfos && insertInfos[key] == id) ==>
                && Valid() && insertInfos == old(insertInfos) - {key}
                && infos == old(infos)[id := Info(old(infos)[id].buf, old(infos)[id].product, true)]
                && Published(old(Value()), Value(), key, old(infos)[id].buf)
      ensures !old(key in insertInfos && insertInfos[key] == id) ==>
                && cells == old(cells) && queue == old(queue) && memPool.useCellNum == old(memPool.useCellNum) - 1
                && insertInfos == if old(infos)[id].clean then old(insertInfos) else old(insertInfos) - {key}
    {
      var insert := infos[id];
      if key in insertInfos && insertInfos[key] == id {
        FinishKeeps(Value(), key, id);
        SetKeepsInserts(Value(), key, insert.buf);
        SetImpl(key, insert.buf);
      } else {
        memPool.ReclaimBuffer(insert.buf);
      }
      if !insert.clean {
        infos := infos[id := insert.(clean := true)];
        insertInfos := insertInfos - {key};
      }
    }

    method Evict(key: Key)
      requires Valid()
      modifies this, memPool
      ensures Value() == EvictKey(old(Value()), key) && Valid()
      ensures insertInfos == old(insertInfos) && infos == old(infos)
      ensures cells == if key in old(cells) then old(cells) - {key} else old(cells)
      ensures if key in old(cells) then TakenFrom(old(queue), queue, key) else queue == old(queue)
    {
      EvictKeyKeeps(Value(), key);
      EvictCell(key);
    }

    method EvictCell(key: Key)
      modifies this, memPool
      ensures Value() == EvictKey(old(Value()), key)
    {
      if key !in cells {
        return;
      }
      memPool.ReclaimBuffer(cells[key].buf);
      queue := Without(queue, key);
      cells := cells - {key};
      curSize := curSize - 1;
    }

    /** New limits take effect at once: afterwards the size is within them. */
    method AlterCacheSize(cacheSize: nat)
      requires Valid()
      modifies this, memPool
      ensures maxSize + maxOverflow == cacheSize * 1024 * 1024 / cellSize
      ensures Value() == Resize(old(Value()), maxSize, maxOverflow)
      ensures Valid() == true && curSize <= cacheSize * 1024 * 1024 / cellSize
      ensures maxOverflow == if (maxSize + maxOverflow) / 20 > 1000 then 1000 else (maxSize + maxOverflow) / 20
      ensures var n := if old(curSize) >= maxSize + maxOverflow then old(curSize) - maxSize else 0;
              0 <= n <= |old(queue)| && queue == old(queue)[n..] && curSize == old(curSize) - n
      ensures forall k :: k in cells ==> k in old(cells) && cells[k] == old(cells)[k]
    {
      hide CacheInv, Resize, QueueCached;
      var size, overflow := Limits(cacheSize, cellSize);
      InvListed(Value());
      ResizeKeeps(Value(), size, overflow);
      ApplyLimits(size, overflow);
    }

    method ApplyLimits(size: nat, overflow: nat)
      requires Listed(Value()) && Counted(Value())
      modifies this, memPool
      ensures maxSize == size && maxOverflow == overflow
      ensures Value() == Resize(old(Value()), size, overflow)
    {
      maxSize, maxOverflow := size, overflow;
      ghost var c := Value();
      assert Listed(c);
      OverflowCounts(c);
      hide Listed, Counted, LruCache.EvictOverflow, Trim;
      EvictOverflow();
      assert Value() == LruCache.EvictOverflow(c);
      var r := memPool.SetMaxBufferNum(maxSize + 500);
    }
  }

  lemma InvListed(c: Cache)
    requires CacheInv(c)
    ensures Listed(c) && Counted(c) && QueueCached(c) && Bounded(c)
  {
  }

  lemma {:induction false} EvictNUsed(c: Cache, n: nat)
    requires QueueCached(c) && n <= |c.queue|
    ensures EvictN(c, n).pool.used == c.pool.used - n
    ensures EvictN(c, n).maxSize == c.maxSize && EvictN(c, n).maxOverflow == c.maxOverflow
    decreases n
  {
    if n > 0 {
      EvictNUsed(EvictFront(c), n - 1);
    }
  }

  lemma {:induction false} QueueFits(queue: seq<Key>, cells: map<Key, Cell>)
    requires forall k :: k in queue ==> k in cells
    requires forall i, j :: 0 <= i < j < |queue| ==> queue[i] != queue[j]
    ensures |queue| <= |cells|
    decreases |queue|
  {
    if queue != [] {
      SizeAfterRemove(cells, queue[0]);
      QueueFits(queue[1..], cells - {queue[0]});
    }
  }

  lemma OverflowCounts(c: Cache)
    requires Listed(c) && c.pool.used >= |c.cells|
    ensures LruCache.EvictOverflow(c).pool.used >= 0
    ensures LruCache.EvictOverflow(c).maxSize == c.maxSize && LruCache.EvictOverflow(c).maxOverflow == c.maxOverflow
  {
    if MustEvict(c) {
      QueueFits(c.queue, c.cells);
      EvictNUsed(c, c.curSize - c.maxSize);
    }
  }
}
