/**
  The block cache as a value: cells, eviction queue, in-flight inserts and buffer pool, with one
  function per critical section of `LRUCache`.  The class in module `LruCacheMemory` is proved
  to compute these functions; module `CacheProtocol` interleaves them.
 */
module LruCache {
  import opened Wrappers

  type Key = nat
  type Buf = nat
  type InfoId = nat

  const THRESHOLD_OF_SWAP := 250

  datatype Cell = Cell(buf: Buf, hits: nat)

  /** `que_`, `use_cell_num_`, `max_cell_num_`; `alive` is the set of buffers allocated and not deleted. */
  datatype Pool = Pool(free: seq<Buf>, used: int, maxCells: int, alive: set<Buf>)

  /** `InsertInfo`, shared by every thread that missed on its key while it was in flight. */
  datatype Info = Info(buf: Buf, product: bool, clean: bool)

  datatype Cache = Cache(
    cells: map<Key, Cell>,
    queue: seq<Key>,
    curSize: int,
    maxSize: nat,
    maxOverflow: nat,
    inserts: map<Key, InfoId>,  // insert_infos_
    infos: map<InfoId, Info>,   // every InsertInfo ever made
    pool: Pool)

  // ----- Buffer pool -----

  /** The pool's next buffer, or the one at `addr` when it has to allocate. */
  function TakeBuffer(p: Pool, addr: Buf): (r: (Pool, Buf)) {
    if |p.free| > 0 then (p.(free := p.free[1..], used := p.used + 1), p.free[0])
    else (p.(used := p.used + 1, alive := p.alive + {addr}), addr)
  }

  /** Back to the pool; over the limit the pool deletes its oldest buffer. */
  function Reclaim(p: Pool, b: Buf): Pool {
    var p1 := p.(free := p.free + [b], used := p.used - 1);
    if p1.used + |p1.free| > p1.maxCells
    then p1.(free := p1.free[1..], alive := p1.alive - {p1.free[0]})
    else p1
  }

  // ----- Cache operations -----

  function Without(queue: seq<Key>, k: Key): seq<Key> {
    if queue == [] then []
    else if queue[0] == k then Without(queue[1..], k)
    else [queue[0]] + Without(queue[1..], k)
  }

  /** `GetImpl` on a cached key: every 251st hit moves the key to the young end of the queue. */
  function Touch(c: Cache, k: Key): Cache
    requires k in c.cells
  {
    var cell := c.cells[k];
    if cell.hits >= THRESHOLD_OF_SWAP
    then c.(queue := Without(c.queue, k) + [k], cells := c.cells[k := cell.(hits := 0)])
    else c.(cells := c.cells[k := cell.(hits := cell.hits + 1)])
  }

  function EvictFront(c: Cache): Cache
    requires |c.queue| > 0 && c.queue[0] in c.cells
  {
    var k := c.queue[0];
    c.(cells := c.cells - {k}, queue := c.queue[1..], curSize := c.curSize - 1, pool := Reclaim(c.pool, c.cells[k].buf))
  }

  predicate QueueCached(c: Cache) {
    (forall k :: k in c.queue ==> k in c.cells) &&
    (forall i, j :: 0 <= i < j < |c.queue| ==> c.queue[i] != c.queue[j])
  }

  function EvictN(c: Cache, n: nat): Cache
    requires n <= |c.queue| && QueueCached(c)
    decreases n
  {
    if n == 0 then c else EvictN(EvictFront(c), n - 1)
  }

  predicate MustEvict(c: Cache) {
    c.curSize >= c.maxSize + c.maxOverflow
  }

  function EvictOverflow(c: Cache): Cache
    requires QueueCached(c) && c.curSize == |c.queue|
  {
    if MustEvict(c) then EvictN(c, c.curSize - c.maxSize) else c
  }

  /** `SetImpl` for a key that has no cell yet, before the eviction. */
  function InsertCell(c: Cache, k: Key, b: Buf): Cache {
    c.(cells := c.cells[k := Cell(b, 0)], queue := c.queue + [k], curSize := c.curSize + 1)
  }

  /** `SetImpl` for a key that already has a cell. */
  function ReplaceCell(c: Cache, k: Key, b: Buf): Cache
    requires k in c.cells
  {
    var c1 := Touch(c, k);
    c1.(pool := Reclaim(c.pool, c.cells[k].buf), cells := c1.cells[k := c1.cells[k].(buf := b)])
  }

  function SetCell(c: Cache, k: Key, b: Buf): Cache
    requires QueueCached(c) && c.curSize == |c.queue|
  {
    if k in c.cells then ReplaceCell(c, k, b)
    else
      InsertedQueue(c, k, b);
      EvictOverflow(InsertCell(c, k, b))
  }

  function EvictKey(c: Cache, k: Key): Cache {
    if k !in c.cells then c
    else c.(cells := c.cells - {k}, queue := Without(c.queue, k), curSize := c.curSize - 1,
            pool := Reclaim(c.pool, c.cells[k].buf))
  }

  datatype Found = Hit(buf: Buf) | Miss(id: InfoId)

  /** First critical section of `SetOrGet`; `id` and `addr` are the addresses a new insert would get. */
  function Lookup(c: Cache, k: Key, id: InfoId, addr: Buf): (Cache, Found) {
    if k in c.cells then (Touch(c, k), Hit(c.cells[k].buf))
    else if k in c.inserts then (c, Miss(c.inserts[k]))
    else
      var (p, b) := TakeBuffer(c.pool, addr);
      (c.(pool := p, inserts := c.inserts[k := id], infos := c.infos[id := Info(b, false, false)]), Miss(id))
  }

  /** Second critical section of `SetOrGet`, after a successful load. */
  function Finish(c: Cache, k: Key, id: InfoId): Cache
    requires QueueCached(c) && c.curSize == |c.queue| && id in c.infos
  {
    var info := c.infos[id];
    var c1 := if k in c.inserts && c.inserts[k] == id then SetCell(c, k, info.buf)
              else c.(pool := Reclaim(c.pool, info.buf));
    if info.clean then c1
    else c1.(infos := c.infos[id := info.(clean := true)], inserts := c.inserts - {k})
  }

  /** How many free buffers `SetMaxBufferNum` deletes. */
  function Surplus(p: Pool, maxCells: int): int {
    if |p.free| + p.used <= maxCells then 0
    else if p.used > maxCells then |p.free|
    else |p.free| + p.used - maxCells
  }

  function Elements(xs: seq<Buf>): set<Buf> {
    set x | x in xs
  }

  /** `SetMaxBufferNum`: a fitting limit is taken over, otherwise the old one shrinks by what was deleted. */
  function Trim(p: Pool, maxCells: int): Pool {
    var d := Surplus(p, maxCells);
    if d <= 0 || d > |p.free| then p.(maxCells := if |p.free| + p.used <= maxCells then maxCells else p.maxCells)
    else p.(free := p.free[d..], alive := p.alive - Elements(p.free[..d]), maxCells := p.maxCells - d)
  }

  /** `AlterCacheSize`, with the sizes it computes from the byte budget. */
  function Resize(c: Cache, maxSize: nat, maxOverflow: nat): Cache
    requires QueueCached(c) && c.curSize == |c.queue|
  {
    var c1 := EvictOverflow(c.(maxSize := maxSize, maxOverflow := maxOverflow));
    c1.(pool := Trim(c1.pool, maxSize + 500))
  }

  lemma InsertedQueue(c: Cache, k: Key, b: Buf)
    requires QueueCached(c) && c.curSize == |c.queue| && k !in c.cells
    ensures QueueCached(InsertCell(c, k, b)) && InsertCell(c, k, b).curSize == |InsertCell(c, k, b).queue|
  {
  }

  // ----- The invariant -----

  /** The queue lists the cells' keys, each once, and `cur_size_` counts them. */
  predicate Listed(c: Cache) {
    QueueCached(c) && (forall k :: k in c.cells ==> k in c.queue) && c.curSize == |c.queue|
  }

  predicate Bounded(c: Cache) {
    c.curSize <= c.maxSize + c.maxOverflow
  }

  /** In-flight entries have their own unfinished info, and their keys are not cached. */
  predicate InFlight(c: Cache) {
    && (forall k :: k in c.inserts ==> k !in c.cells && c.inserts[k] in c.infos && !c.infos[c.inserts[k]].clean)
    && (forall k, k' :: k in c.inserts && k' in c.inserts && k != k' ==> c.inserts[k] != c.inserts[k'])
  }

  datatype Owner = FreeList | CellOf(k: Key) | InsertOf(k: Key)

  predicate Owns(c: Cache, o: Owner, b: Buf) {
    match o
    case FreeList => b in c.pool.free
    case CellOf(k) => k in c.cells && c.cells[k].buf == b
    case InsertOf(k) => k in c.inserts && c.inserts[k] in c.infos && c.infos[c.inserts[k]].buf == b
  }

  /** Every allocated buffer has exactly one owner, and only allocated buffers are owned. */
  ghost predicate Owned(c: Cache) {
    && (forall i, j :: 0 <= i < j < |c.pool.free| ==> c.pool.free[i] != c.pool.free[j])
    && (forall o, b :: Owns(c, o, b) ==> b in c.pool.alive)
    && (forall o, o', b :: Owns(c, o, b) && Owns(c, o', b) ==> o == o')
    && (forall b :: b in c.pool.alive ==> exists o :: Owns(c, o, b))
  }

  predicate Counted(c: Cache) {
    c.pool.used == |c.cells| + |c.inserts|
  }

  ghost predicate CacheInv(c: Cache) {
    Listed(c) && Bounded(c) && InFlight(c) && Owned(c) && Counted(c)
  }

  /** Everything but the bound on the size. */
  ghost predicate Structure(c: Cache) {
    Listed(c) && InFlight(c) && Owned(c) && Counted(c)
  }

  // ----- Queue facts -----

  lemma {:induction false} WithoutFacts(queue: seq<Key>, k: Key)
    requires forall i, j :: 0 <= i < j < |queue| ==> queue[i] != queue[j]
    ensures var w := Without(queue, k);
            && (forall x :: x in w <==> x in queue && x != k)
            && (forall i, j :: 0 <= i < j < |w| ==> w[i] != w[j])
            && |w| == |queue| - (if k in queue then 1 else 0)
  {
    if queue != [] {
      WithoutFacts(queue[1..], k);
      assert forall x :: x in queue <==> x == queue[0] || x in queue[1..];
      assert queue[0] !in queue[1..];
      assert queue[0] !in Without(queue[1..], k);
    }
  }

  /** A queue that lost exactly `k`, with the cells. */
  ghost predicate Loses(queue: seq<Key>, queue': seq<Key>, k: Key) {
    && k in queue && |queue'| == |queue| - 1
    && (forall i, j :: 0 <= i < j < |queue'| ==> queue'[i] != queue'[j])
    && (forall x :: x in queue' <==> x in queue && x != k)
  }

  lemma DropListed(c: Cache, c': Cache, k: Key)
    requires Listed(c) && k in c.cells && c'.cells == c.cells - {k} && c'.curSize == c.curSize - 1 &&
             Loses(c.queue, c'.queue, k)
    ensures Listed(c')
  {
  }

  lemma FrontLoses(c: Cache)
    requires Listed(c) && |c.queue| > 0
    ensures Loses(c.queue, c.queue[1..], c.queue[0])
  {
    assert forall x :: x in c.queue <==> x == c.queue[0] || x in c.queue[1..];
  }

  /** The queue with `k` taken from its place, or put at the young end; the others stay in order. */
  ghost predicate TakenFrom(queue: seq<Key>, queue': seq<Key>, k: Key) {
    forall i :: 0 <= i < |queue| && queue[i] == k ==> queue' == queue[..i] + queue[i + 1..]
  }

  ghost predicate MadeYoung(queue: seq<Key>, queue': seq<Key>, k: Key) {
    forall i :: 0 <= i < |queue| && queue[i] == k ==> queue' == queue[..i] + queue[i + 1..] + [k]
  }

  lemma {:induction false} WithoutIs(queue: seq<Key>, k: Key, i: nat)
    requires forall i, j :: 0 <= i < j < |queue| ==> queue[i] != queue[j]
    requires i < |queue| && queue[i] == k
    ensures Without(queue, k) == queue[..i] + queue[i + 1..]
    decreases |queue|
  {
    if i > 0 {
      WithoutIs(queue[1..], k, i - 1);
      assert [queue[0]] + queue[1..][..i - 1] == queue[..i];
    } else {
      WithoutAbsent(queue[1..], k);
    }
  }

  lemma {:induction false} WithoutAbsent(queue: seq<Key>, k: Key)
    requires k !in queue
    ensures Without(queue, k) == queue
  {
    if queue != [] { WithoutAbsent(queue[1..], k); }
  }

  lemma WithoutTakes(queue: seq<Key>, k: Key)
    requires forall i, j :: 0 <= i < j < |queue| ==> queue[i] != queue[j]
    ensures TakenFrom(queue, Without(queue, k), k) && MadeYoung(queue, Without(queue, k) + [k], k)
  {
    forall i | 0 <= i < |queue| && queue[i] == k ensures Without(queue, k) == queue[..i] + queue[i + 1..] {
      WithoutIs(queue, k, i);
    }
  }

  // ----- Ownership facts -----

  /** Operations that leave pool, inserts and every cell's buffer alone keep ownership. */
  lemma SameOwners(c: Cache, c': Cache)
    requires Owned(c) && c'.pool == c.pool && c'.inserts == c.inserts && c'.infos == c.infos
    requires c'.cells.Keys == c.cells.Keys && forall k :: k in c.cells ==> c'.cells[k].buf == c.cells[k].buf
    ensures Owned(c')
  {
    assert forall o, b :: Owns(c', o, b) <==> Owns(c, o, b);
  }

  lemma ReclaimFacts(p: Pool, b0: Buf)
    requires Distinct(p.free) && b0 !in p.free && b0 in p.alive && forall b :: b in p.free ==> b in p.alive
    ensures var p' := Reclaim(p, b0);
            && Distinct(p'.free) && p'.alive <= p.alive && p'.used == p.used - 1
            && (forall b :: b in p'.free <==> (b in p.free || b == b0) && b in p'.alive)
            && (forall b :: b in p.alive && b !in p.free && b != b0 ==> b in p'.alive)
  {
    var free1 := p.free + [b0];
    assert forall b :: b in free1 <==> b in p.free || b == b0;
    assert free1 == [free1[0]] + free1[1..];
    assert Distinct(free1) && free1[0] !in free1[1..];
    assert forall b :: b in free1 <==> b == free1[0] || b in free1[1..];
  }

  /** Moving the buffer of one cell to the free list, with or without deleting the oldest. */
  lemma DropOwner(c: Cache, c': Cache, k: Key)
    requires Owned(c) && k in c.cells && c'.cells == c.cells - {k}
    requires c'.inserts == c.inserts && c'.infos == c.infos && c'.pool == Reclaim(c.pool, c.cells[k].buf)
    ensures Owned(c')
  {
    var b0 := c.cells[k].buf;
    assert Owns(c, CellOf(k), b0);
    forall b | b in c.pool.free ensures b in c.pool.alive && b != b0 {
      assert Owns(c, FreeList, b);
    }
    ReclaimFacts(c.pool, b0);
    forall o, b | Owns(c', o, b)
      ensures b in c'.pool.alive && (if b == b0 then o == FreeList else Owns(c, o, b))
    {
      if o != FreeList {
        assert Owns(c, o, b);
        assert b in c.pool.free ==> Owns(c, FreeList, b);
      } else {
        assert b != b0 ==> Owns(c, FreeList, b);
      }
    }
    forall b | b in c'.pool.alive ensures exists o :: Owns(c', o, b) {
      var o :| Owns(c, o, b);
      assert Owns(c', if o == CellOf(k) then FreeList else o, b);
    }
  }

  // ----- Each operation keeps the invariant -----

  /** A hit: the cell counts it, and the key becomes young after 250 of them. */
  ghost predicate Touched(cells: map<Key, Cell>, queue: seq<Key>, cells': map<Key, Cell>, queue': seq<Key>, k: Key)
    requires k in cells
  {
    && cells' == cells[k := Cell(cells[k].buf, if cells[k].hits >= 250 then 0 else cells[k].hits + 1)]
    && if cells[k].hits >= 250 then MadeYoung(queue, queue', k) else queue' == queue
  }

  lemma TouchIs(c: Cache, k: Key)
    requires QueueCached(c) && k in c.cells
    ensures var c' := Touch(c, k);
            Touched(c.cells, c.queue, c'.cells, c'.queue, k) && c' == c.(cells := c'.cells, queue := c'.queue)
  {
    WithoutTakes(c.queue, k);
  }

  lemma TouchKeeps(c: Cache, k: Key)
    requires CacheInv(c) && k in c.cells
    ensures CacheInv(Touch(c, k))
    ensures var c' := Touch(c, k);
            Touched(c.cells, c.queue, c'.cells, c'.queue, k) && c' == c.(cells := c'.cells, queue := c'.queue)
  {
    TouchIs(c, k);
    TouchInv(c, k);
  }

  lemma TouchInv(c: Cache, k: Key)
    requires CacheInv(c) && k in c.cells
    ensures CacheInv(Touch(c, k))
  {
    TouchListed(c, k);
    SameOwners(c, Touch(c, k));
    assert Touch(c, k).cells.Keys == c.cells.Keys;
  }

  lemma TouchListed(c: Cache, k: Key)
    requires Listed(c) && k in c.cells
    ensures Listed(Touch(c, k)) && Touch(c, k).cells.Keys == c.cells.Keys
  {
    WithoutFacts(c.queue, k);
    var c' := Touch(c, k);
    assert forall x :: x in c'.queue <==> x in c.queue;
  }

  lemma DropCounted(c: Cache, c': Cache, k: Key)
    requires InFlight(c) && Counted(c) && k in c.cells && c'.cells == c.cells - {k}
    requires c'.inserts == c.inserts && c'.infos == c.infos && c'.pool.used == c.pool.used - 1
    ensures InFlight(c') && Counted(c')
  {
    assert c.cells.Keys == c'.cells.Keys + {k};
  }

  lemma DropKeeps(c: Cache, c': Cache, k: Key)
    requires Structure(c) && k in c.cells && c'.cells == c.cells - {k} && c'.curSize == c.curSize - 1 &&
             Loses(c.queue, c'.queue, k)
    requires c'.inserts == c.inserts && c'.infos == c.infos && c'.pool == Reclaim(c.pool, c.cells[k].buf)
    ensures Structure(c')
  {
    DropListed(c, c', k);
    DropOwner(c, c', k);
    DropCounted(c, c', k);
  }

  /** `c'` is `c` without its `n` oldest cells. */
  predicate Shrunk(c: Cache, c': Cache, n: nat) {
    && n <= |c.queue| && c'.queue == c.queue[n..] && c'.curSize == c.curSize - n
    && (forall k :: k in c'.cells ==> k in c.cells && c'.cells[k] == c.cells[k])
    && c'.inserts == c.inserts && c'.infos == c.infos
    && c'.maxSize == c.maxSize && c'.maxOverflow == c.maxOverflow
    && c'.pool.alive <= c.pool.alive
  }

  /** Evicting `n` keys removes the `n` oldest of the queue, no other cell, and keeps the structure. */
  lemma {:induction false} EvictNKeeps(c: Cache, n: nat)
    requires Structure(c) && n <= |c.queue|
    ensures Structure(EvictN(c, n)) && Shrunk(c, EvictN(c, n), n)
    decreases n
  {
    if n > 0 {
      FrontLoses(c);
      DropKeeps(c, EvictFront(c), c.queue[0]);
      EvictNKeeps(EvictFront(c), n - 1);
      assert c.queue[1..][n - 1..] == c.queue[n..];
    }
  }

  /** After the overflow check the size is within both limits, whatever it was before. */
  lemma EvictOverflowKeeps(c: Cache)
    requires Structure(c)
    ensures CacheInv(EvictOverflow(c))
    ensures Shrunk(c, EvictOverflow(c), if MustEvict(c) then c.curSize - c.maxSize else 0)
  {
    if MustEvict(c) {
      assert c.curSize == |c.queue|;
      hide Structure, CacheInv, Shrunk, EvictN;
      EvictNKeeps(c, c.curSize - c.maxSize);
      ShrunkBounded(c, EvictN(c, c.curSize - c.maxSize));
    } else {
      assert c.queue[0..] == c.queue;
    }
  }

  lemma ShrunkBounded(c: Cache, c': Cache)
    requires MustEvict(c) && Structure(c') && c.curSize == |c.queue| && Shrunk(c, c', c.curSize - c.maxSize)
    ensures CacheInv(c')
  {
  }

  lemma ResizeKeeps(c: Cache, maxSize: nat, maxOverflow: nat)
    requires CacheInv(c)
    ensures CacheInv(Resize(c, maxSize, maxOverflow))
    ensures var c' := Resize(c, maxSize, maxOverflow);
            && c'.inserts == c.inserts && c'.infos == c.infos && c'.pool.alive <= c.pool.alive
            && (forall k :: k in c'.cells ==> k in c.cells && c'.cells[k] == c.cells[k])
            && var n := if c.curSize >= maxSize + maxOverflow then c.curSize - maxSize else 0;
               && 0 <= n <= |c.queue| && c'.queue == c.queue[n..] && c'.curSize == c.curSize - n
               && c'.maxSize == maxSize && c'.maxOverflow == maxOverflow
  {
    var c1 := c.(maxSize := maxSize, maxOverflow := maxOverflow);
    SameOwners(c, c1);
    hide CacheInv;
    EvictThenTrim(c1, maxSize + 500);
  }

  lemma EvictThenTrim(c: Cache, maxCells: int)
    requires Structure(c)
    ensures var e := EvictOverflow(c);
            var c' := e.(pool := Trim(e.pool, maxCells));
            && CacheInv(c')
            && c'.inserts == c.inserts && c'.infos == c.infos && c'.pool.alive <= c.pool.alive
            && (forall k :: k in c'.cells ==> k in c.cells && c'.cells[k] == c.cells[k])
            && Shrunk(c, e, if MustEvict(c) then c.curSize - c.maxSize else 0)
  {
    EvictOverflowKeeps(c);
    TrimKeeps(EvictOverflow(c), maxCells);
  }

  lemma TrimKeeps(c: Cache, maxCells: int)
    requires CacheInv(c)
    ensures CacheInv(c.(pool := Trim(c.pool, maxCells))) && Trim(c.pool, maxCells).alive <= c.pool.alive
  {
    TrimOwners(c, maxCells);
  }

  /** Deleting free buffers leaves the owners of all others alone. */
  lemma TrimOwners(c: Cache, maxCells: int)
    requires Owned(c)
    ensures Owned(c.(pool := Trim(c.pool, maxCells)))
    ensures Trim(c.pool, maxCells).alive <= c.pool.alive && Trim(c.pool, maxCells).used == c.pool.used
  {
    var c' := c.(pool := Trim(c.pool, maxCells));
    var d := Surplus(c.pool, maxCells);
    if 0 < d <= |c.pool.free| {
      var free := c.pool.free;
      assert forall b :: b in free <==> b in free[..d] || b in free[d..];
      forall o, b | Owns(c', o, b) ensures Owns(c, o, b) && b in c'.pool.alive {
        assert Owns(c, o, b);
        assert b in free[..d] ==> Owns(c, FreeList, b);
      }
      forall b | b in c'.pool.alive ensures exists o :: Owns(c', o, b) {
        var o :| Owns(c, o, b);
        assert Owns(c', o, b);
      }
    } else {
      assert forall o, b :: Owns(c', o, b) <==> Owns(c, o, b);
    }
  }

  /** Exactly the key's cell is gone, from its place in the queue. */
  lemma EvictKeyKeeps(c: Cache, k: Key)
    requires CacheInv(c)
    ensures CacheInv(EvictKey(c, k)) && (k !in c.cells ==> EvictKey(c, k) == c)
    ensures var c' := EvictKey(c, k);
            k in c.cells ==>
              && c'.cells == c.cells - {k} && TakenFrom(c.queue, c'.queue, k) && c'.curSize == c.curSize - 1
              && c'.inserts == c.inserts && c'.infos == c.infos && Owns(c', FreeList, c.cells[k].buf) ==
                 (c.cells[k].buf in c'.pool.alive)
  {
    if k in c.cells {
      WithoutFacts(c.queue, k);
      WithoutTakes(c.queue, k);
      EvictedFree(c, k);
      DropKeeps(c, EvictKey(c, k), k);
    }
  }

  lemma EvictedFree(c: Cache, k: Key)
    requires Owned(c) && k in c.cells
    ensures var p := Reclaim(c.pool, c.cells[k].buf); c.cells[k].buf in p.free <==> c.cells[k].buf in p.alive
  {
    var b0 := c.cells[k].buf;
    assert Owns(c, CellOf(k), b0);
    forall b | b in c.pool.free ensures b in c.pool.alive && b != b0 {
      assert Owns(c, FreeList, b);
    }
    ReclaimFacts(c.pool, b0);
  }

  // ----- SetOrGet -----

  lemma TakeFacts(p: Pool, addr: Buf)
    requires Distinct(p.free) && addr !in p.alive && forall b :: b in p.free ==> b in p.alive
    ensures var (p', b0) := TakeBuffer(p, addr);
            && Distinct(p'.free) && p'.alive == p.alive + {b0} && p'.used == p.used + 1
            && (forall b :: b in p'.free <==> b in p.free && b != b0)
            && (b0 in p.free || b0 !in p.alive)
  {
    if |p.free| > 0 {
      assert forall b :: b in p.free <==> b == p.free[0] || b in p.free[1..];
      assert p.free[0] !in p.free[1..];
    }
  }

  /** A new insert takes its buffer from the pool. */
  lemma MissOwners(c: Cache, k: Key, id: InfoId, addr: Buf)
    requires Owned(c) && InFlight(c) && k !in c.cells && k !in c.inserts && id !in c.infos && addr !in c.pool.alive
    ensures Owned(Lookup(c, k, id, addr).0)
  {
    var c' := Lookup(c, k, id, addr).0;
    var b0 := TakeBuffer(c.pool, addr).1;
    forall b | b in c.pool.free ensures b in c.pool.alive {
      assert Owns(c, FreeList, b);
    }
    TakeFacts(c.pool, addr);
    forall o, b | Owns(c', o, b)
      ensures b in c'.pool.alive && (if b == b0 then o == InsertOf(k) else Owns(c, o, b))
    {
      if o != InsertOf(k) {
        assert Owns(c, o, b);
        assert b0 in c.pool.free ==> Owns(c, FreeList, b0);
      }
    }
    forall b | b in c'.pool.alive ensures exists o :: Owns(c', o, b) {
      if b == b0 {
        assert Owns(c', InsertOf(k), b);
      } else {
        var o :| Owns(c, o, b);
        assert Owns(c', o, b);
      }
    }
  }

  lemma LookupInv(c: Cache, k: Key, id: InfoId, addr: Buf)
    requires CacheInv(c) && id !in c.infos && addr !in c.pool.alive
    ensures CacheInv(Lookup(c, k, id, addr).0)
    ensures var (c', r) := Lookup(c, k, id, addr);
            && (r.Hit? <==> k in c.cells)
            && (r.Miss? ==> k in c'.inserts && c'.inserts[k] == r.id)
  {
    if k in c.cells {
      TouchInv(c, k);
    } else if k !in c.inserts {
      MissOwners(c, k, id, addr);
      MissCounted(c, k, id, addr);
    }
  }

  /** A key goes in flight under a new insert, which has the pool's next buffer or else a new one. */
  ghost predicate Inserted(c: Cache, c': Cache, k: Key, id: InfoId, addr: Buf) {
    var b := if c.pool.free == [] then addr else c.pool.free[0];
    && c'.inserts == c.inserts[k := id] && c'.infos == c.infos[id := Info(b, false, false)]
    && c'.cells == c.cells && c'.queue == c.queue && c'.curSize == c.curSize
    && c'.maxSize == c.maxSize && c'.maxOverflow == c.maxOverflow
    && forall o :: Owns(c', o, b) <==> o == InsertOf(k)
  }

  /**
    The first critical section keeps the invariant.  A hit gives the buffer of the key's own cell; a
    miss the insert that is in flight for the key, a new one with a buffer that nobody else has when
    there was none.
   */
  lemma LookupKeeps(c: Cache, k: Key, id: InfoId, addr: Buf)
    requires CacheInv(c) && id !in c.infos && addr !in c.pool.alive
    ensures CacheInv(Lookup(c, k, id, addr).0)
    ensures var (c', r) := Lookup(c, k, id, addr);
            if k in c.cells then
              && r == Hit(c.cells[k].buf)
              && Touched(c.cells, c.queue, c'.cells, c'.queue, k) && c' == c.(cells := c'.cells, queue := c'.queue)
            else if k in c.inserts then r == Miss(c.inserts[k]) && c' == c
            else r == Miss(id) && Inserted(c, c', k, id, addr)
  {
    LookupInv(c, k, id, addr);
    if k in c.cells {
      TouchIs(c, k);
    } else if k !in c.inserts {
      var c' := Lookup(c, k, id, addr).0;
      assert Owns(c', InsertOf(k), c'.infos[id].buf);
    }
  }

  lemma MissCounted(c: Cache, k: Key, id: InfoId, addr: Buf)
    requires InFlight(c) && Counted(c) && k !in c.cells && k !in c.inserts && id !in c.infos
    ensures InFlight(Lookup(c, k, id, addr).0) && Counted(Lookup(c, k, id, addr).0)
  {
    SizeAfterAdd(c.inserts, k, id);
  }

  /** The in-flight entry of `k` turned into a cell, before any eviction. */
  function Promote(c: Cache, k: Key, id: InfoId): Cache
    requires id in c.infos
  {
    InsertCell(c, k, c.infos[id].buf).(inserts := c.inserts - {k}, infos := c.infos[id := c.infos[id].(clean := true)])
  }

  lemma PromoteOwners(c: Cache, k: Key, id: InfoId)
    requires Owned(c) && InFlight(c) && k in c.inserts && c.inserts[k] == id
    ensures Owned(Promote(c, k, id))
  {
    var c' := Promote(c, k, id);
    var b0 := c.infos[id].buf;
    assert Owns(c, InsertOf(k), b0);
    forall o, b | Owns(c', o, b)
      ensures o != InsertOf(k) && Owns(c, if o == CellOf(k) then InsertOf(k) else o, b)
    {
    }
    forall b | b in c'.pool.alive ensures exists o :: Owns(c', o, b) {
      var o :| Owns(c, o, b);
      assert Owns(c', if o == InsertOf(k) then CellOf(k) else o, b);
    }
  }

  lemma InsertListed(c: Cache, k: Key, b: Buf)
    requires Listed(c) && k !in c.cells
    ensures Listed(InsertCell(c, k, b)) && k !in c.queue
  {
    assert forall x :: x in c.queue + [k] <==> x in c.queue || x == k;
  }

  lemma SizeAfterAdd<V>(m: map<Key, V>, k: Key, v: V)
    requires k !in m
    ensures |m[k := v]| == |m| + 1
  {
    assert m[k := v].Keys == m.Keys + {k};
  }

  lemma SizeAfterRemove<V>(m: map<Key, V>, k: Key)
    requires k in m
    ensures |m - {k}| == |m| - 1
  {
    assert m.Keys == (m - {k}).Keys + {k};
  }

  lemma PromoteCounted(c: Cache, k: Key, id: InfoId)
    requires Counted(c) && k !in c.cells && k in c.inserts && id in c.infos
    ensures Counted(Promote(c, k, id))
  {
    SizeAfterAdd(c.cells, k, Cell(c.infos[id].buf, 0));
    SizeAfterRemove(c.inserts, k);
  }

  lemma PromoteInFlight(c: Cache, k: Key, id: InfoId)
    requires InFlight(c) && k in c.inserts && c.inserts[k] == id
    ensures InFlight(Promote(c, k, id))
  {
  }

  lemma {:induction false} EvictNIgnoresInserts(c: Cache, n: nat, inserts: map<Key, InfoId>, infos: map<InfoId, Info>)
    requires QueueCached(c) && n <= |c.queue|
    ensures EvictN(c.(inserts := inserts, infos := infos), n) == EvictN(c, n).(inserts := inserts, infos := infos)
    decreases n
  {
    if n > 0 {
      EvictNIgnoresInserts(EvictFront(c), n - 1, inserts, infos);
    }
  }

  lemma EvictOverflowIgnoresInserts(c: Cache, inserts: map<Key, InfoId>, infos: map<InfoId, Info>)
    requires QueueCached(c) && c.curSize == |c.queue|
    ensures EvictOverflow(c.(inserts := inserts, infos := infos)) ==
            EvictOverflow(c).(inserts := inserts, infos := infos)
  {
    if MustEvict(c) {
      EvictNIgnoresInserts(c, c.curSize - c.maxSize, inserts, infos);
    }
  }

  lemma SetIsPromote(c: Cache, k: Key, id: InfoId)
    requires Listed(c) && k !in c.cells && id in c.infos && Listed(Promote(c, k, id))
    ensures var p := Promote(c, k, id);
            SetCell(c, k, c.infos[id].buf).(inserts := p.inserts, infos := p.infos) == EvictOverflow(p)
  {
    var p := Promote(c, k, id);
    InsertedQueue(c, k, c.infos[id].buf);
    EvictOverflowIgnoresInserts(InsertCell(c, k, c.infos[id].buf), p.inserts, p.infos);
  }

  lemma {:induction false} EvictNKeepsInserts(c: Cache, n: nat)
    requires QueueCached(c) && n <= |c.queue|
    ensures EvictN(c, n).inserts == c.inserts && EvictN(c, n).infos == c.infos
    decreases n
  {
    if n > 0 {
      EvictNKeepsInserts(EvictFront(c), n - 1);
    }
  }

  lemma SetKeepsInserts(c: Cache, k: Key, b: Buf)
    requires Listed(c) && k !in c.cells
    ensures SetCell(c, k, b).inserts == c.inserts && SetCell(c, k, b).infos == c.infos
  {
    InsertedQueue(c, k, b);
    var c1 := InsertCell(c, k, b);
    if MustEvict(c1) {
      EvictNKeepsInserts(c1, c1.curSize - c1.maxSize);
    }
  }

  lemma FinishIsPromote(c: Cache, k: Key, id: InfoId)
    requires Listed(c) && InFlight(c) && k in c.inserts && c.inserts[k] == id && Listed(Promote(c, k, id))
    ensures Finish(c, k, id) == EvictOverflow(Promote(c, k, id))
  {
    SetIsPromote(c, k, id);
    SetKeepsInserts(c, k, c.infos[id].buf);
  }

  /**
    The second critical section keeps the invariant: the key leaves flight, and of the cells only
    old ones can disappear or, for this key, the loaded buffer appear.
   */
  lemma FinishInv(c: Cache, k: Key, id: InfoId)
    requires CacheInv(c) && k in c.inserts && c.inserts[k] == id
    ensures CacheInv(Finish(c, k, id))
    ensures var c' := Finish(c, k, id);
            && c'.inserts == c.inserts - {k} && c'.infos == c.infos[id := c.infos[id].(clean := true)]
            && c'.pool.alive <= c.pool.alive
            && forall x :: x in c'.cells ==>
                 if x == k then c'.cells[x].buf == c.infos[id].buf else x in c.cells && c'.cells[x] == c.cells[x]
  {
    PromoteOwners(c, k, id);
    InsertListed(c, k, c.infos[id].buf);
    PromoteCounted(c, k, id);
    PromoteInFlight(c, k, id);
    EvictOverflowKeeps(Promote(c, k, id));
    FinishIsPromote(c, k, id);
  }

  /** The loaded buffer is the youngest cell, and the oldest cells make room for it when both limits are reached. */
  ghost predicate Published(c: Cache, c': Cache, k: Key, b: Buf) {
    var n := if c.curSize + 1 >= c.maxSize + c.maxOverflow then c.curSize + 1 - c.maxSize else 0;
    && 0 <= n <= |c.queue| + 1 && c'.queue == (c.queue + [k])[n..] && c'.curSize == c.curSize + 1 - n
    && (forall x :: x in c'.cells <==> x in c'.queue)
    && (forall x :: x in c'.cells ==>
          if x == k then c'.cells[x] == Cell(b, 0) else x in c.cells && c'.cells[x] == c.cells[x])
    && c'.maxSize == c.maxSize && c'.maxOverflow == c.maxOverflow
  }

  lemma PublishedBy(c: Cache, p: Cache, c': Cache, k: Key, b: Buf)
    requires p.queue == c.queue + [k] && p.cells == c.cells[k := Cell(b, 0)] && p.curSize == c.curSize + 1
    requires p.maxSize == c.maxSize && p.maxOverflow == c.maxOverflow && Listed(c')
    requires Shrunk(p, c', if MustEvict(p) then p.curSize - p.maxSize else 0)
    ensures Published(c, c', k, b)
  {
  }

  /** The second critical section: the key leaves flight and its buffer is the youngest cell. */
  lemma FinishKeeps(c: Cache, k: Key, id: InfoId)
    requires CacheInv(c) && k in c.inserts && c.inserts[k] == id
    ensures var c' := Finish(c, k, id);
            && CacheInv(c') && c'.inserts == c.inserts - {k}
            && c'.infos == c.infos[id := Info(c.infos[id].buf, c.infos[id].product, true)]
            && Published(c, c', k, c.infos[id].buf)
  {
    var p := Promote(c, k, id);
    FinishInv(c, k, id);
    FinishShrinks(c, k, id);
    assert Listed(Finish(c, k, id));
    hide Finish, CacheInv, Listed, Shrunk, EvictOverflow, Published;
    PublishedBy(c, p, Finish(c, k, id), k, c.infos[id].buf);
  }

  lemma FinishShrinks(c: Cache, k: Key, id: InfoId)
    requires CacheInv(c) && k in c.inserts && c.inserts[k] == id
    ensures var p := Promote(c, k, id);
            Shrunk(p, Finish(c, k, id), if MustEvict(p) then p.curSize - p.maxSize else 0)
  {
    PromoteOwners(c, k, id);
    InsertListed(c, k, c.infos[id].buf);
    PromoteCounted(c, k, id);
    PromoteInFlight(c, k, id);
    EvictOverflowKeeps(Promote(c, k, id));
    FinishIsPromote(c, k, id);
  }
}
