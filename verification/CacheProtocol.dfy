/**
  Every interleaving of `LRUCache::SetOrGet` readers and `Block::Update` writers over one cache.

  A step is one critical section of the cache mutex, one acquisition of an insert mutex, or one
  byte of a block load or of a positioned write.  The cache mutex is never held while another
  lock is acquired, so its sections are single steps; insert mutexes are held across steps.
  Loads are not atomic: their bytes may be read in any order, with writes in between.
 */
module CacheProtocol {
  import opened LruCache
  import opened FileBytes

  /** The part of an update that falls in one block. */
  datatype Chunk = Chunk(key: Key, off: nat, data: Bytes)

  datatype ReaderPc =
    | RIdle
    | RWant(k: Key, id: InfoId)                   // missed; waits for the insert mutex
    | RHold(k: Key, id: InfoId, got: set<nat>)    // holds it; bytes `got` are loaded
    | RLoaded(k: Key, id: InfoId)                 // load done, `is_product_` set

  datatype WriterPc =
    | WIdle
    | WWrite(todo: seq<Chunk>, done: set<(nat, nat)>)   // writing; bytes `done`, by chunk, are on disk
    | WFind(todo: seq<Chunk>)                     // disk written; head chunk not looked up yet
    | WWait(todo: seq<Chunk>, id: InfoId)         // head's key was in flight; waits for its mutex
    | WHold(todo: seq<Chunk>, id: InfoId)         // holds it

  datatype Thread = Reader(t: nat) | Writer(w: nat)

  datatype State = State(
    cache: Cache,
    cellSize: nat,
    mem: map<Buf, Bytes>,
    disk: map<Key, Bytes>,
    readers: map<nat, ReaderPc>,
    writers: map<nat, WriterPc>,
    locks: map<InfoId, Thread>)

  function Patch(bytes: Bytes, off: nat, data: Bytes): (r: Bytes)
    requires off + |data| <= |bytes|
    ensures |r| == |bytes|
    ensures forall i :: 0 <= i < |bytes| ==> r[i] == if off <= i < off + |data| then data[i - off] else bytes[i]
  {
    bytes[..off] + data + bytes[off + |data|..]
  }

  function Todo(pc: WriterPc): seq<Chunk> {
    match pc
    case WIdle => []
    case WWrite(todo, _) => todo
    case WFind(todo) => todo
    case WWait(todo, _) => todo
    case WHold(todo, _) => todo
  }

  predicate Fits(disk: map<Key, Bytes>, c: Chunk) {
    c.key in disk && c.off + |c.data| <= |disk[c.key]|
  }

  predicate DistinctKeys(chunks: seq<Chunk>) {
    forall i, j :: 0 <= i < j < |chunks| ==> chunks[i].key != chunks[j].key
  }

  // ----- Steps -----

  datatype Step =
    | Look(t: nat, k: Key, id: InfoId, addr: Buf, junk: Bytes)
    | Lock(t: nat)
    | Load(t: nat, i: nat)
    | Product(t: nat)
    | Publish(t: nat)
    | Write(w: nat, chunks: seq<Chunk>)
    | WriteByte(w: nat, j: nat, i: nat)
    | Written(w: nat)
    | Find(w: nat)
    | LockW(w: nat)
    | PatchCell(w: nat)
    | Evict(k: Key)
    | Alter(maxSize: nat, maxOverflow: nat)

  /** The bytes of a write that are not on disk yet, by chunk. */
  function Unwritten(todo: seq<Chunk>, done: set<(nat, nat)>): (r: set<(nat, nat)>)
    ensures forall x :: x in r ==> x.0 < |todo| && x.1 < |todo[x.0].data|
  {
    set j: nat, i: nat | j < |todo| && i < |todo[j].data| && (j, i) !in done :: (j, i)
  }

  predicate Enabled(s: State, step: Step) {
    match step
    case Look(t, k, id, addr, junk) =>
      t in s.readers && s.readers[t].RIdle? && k in s.disk &&
      id !in s.cache.infos && addr !in s.cache.pool.alive && |junk| == s.cellSize
    case Lock(t) => t in s.readers && s.readers[t].RWant? && s.readers[t].id !in s.locks &&
        s.readers[t].id in s.cache.infos
    case Load(t, i) =>
      t in s.readers && s.readers[t].RHold? && s.readers[t].k in s.disk && i < |s.disk[s.readers[t].k]| &&
          i !in s.readers[t].got
    case Product(t) =>
      t in s.readers && s.readers[t].RHold? && s.readers[t].k in s.disk &&
      forall i :: 0 <= i < |s.disk[s.readers[t].k]| ==> i in s.readers[t].got
    case Publish(t) => t in s.readers && s.readers[t].RLoaded?
    case Write(w, chunks) =>
      // at most one updater works on a block at a time
      w in s.writers && s.writers[w].WIdle? && chunks != [] && DistinctKeys(chunks) &&
      (forall j :: 0 <= j < |chunks| ==> Fits(s.disk, chunks[j]) && !Busy(s, chunks[j].key))
    case WriteByte(w, j, i) =>
      w in s.writers && s.writers[w].WWrite? && (j, i) in Unwritten(s.writers[w].todo, s.writers[w].done) &&
      Fits(s.disk, s.writers[w].todo[j])
    case Written(w) =>
      w in s.writers && s.writers[w].WWrite? && Unwritten(s.writers[w].todo, s.writers[w].done) == {}
    case Find(w) => w in s.writers && s.writers[w].WFind? && s.writers[w].todo != []
    case LockW(w) => w in s.writers && s.writers[w].WWait? && s.writers[w].id !in s.locks
    case PatchCell(w) => w in s.writers && s.writers[w].WHold? && s.writers[w].todo != []
    case Evict(k) => true
    case Alter(maxSize, maxOverflow) => true
  }

  /** Some update of block `k` has written the disk and not finished its cache step. */
  predicate Busy(s: State, k: Key) {
    exists w :: w in s.writers && exists j :: 0 <= j < |Todo(s.writers[w])| && Todo(s.writers[w])[j].key == k
  }

  function After(todo: seq<Chunk>): WriterPc
    requires todo != []
  {
    if |todo| == 1 then WIdle else WFind(todo[1..])
  }

  /** The copy into the cell, if the key is cached. */
  function Patched(s: State, c: Chunk): map<Buf, Bytes> {
    if c.key in s.cache.cells && s.cache.cells[c.key].buf in s.mem &&
        c.off + |c.data| <= |s.mem[s.cache.cells[c.key].buf]|
    then s.mem[s.cache.cells[c.key].buf := Patch(s.mem[s.cache.cells[c.key].buf], c.off, c.data)]
    else s.mem
  }

  function LookState(s: State, t: nat, k: Key, id: InfoId, addr: Buf, junk: Bytes): State {
    var (cache, found) := Lookup(s.cache, k, id, addr);
    s.(cache := cache,
       mem := if addr in cache.pool.alive then s.mem[addr := junk] else s.mem,
       readers := if found.Hit? then s.readers else s.readers[t := RWant(k, found.id)])
  }

  /** The insert mutex is taken; a finished insert is returned at once and the mutex released. */
  function LockState(s: State, t: nat): State
    requires t in s.readers && s.readers[t].RWant? && s.readers[t].id in s.cache.infos
  {
    var RWant(k, id) := s.readers[t];
    if s.cache.infos[id].product then s.(readers := s.readers[t := RIdle])
    else s.(readers := s.readers[t := RHold(k, id, {})], locks := s.locks[id := Reader(t)])
  }

  function LoadState(s: State, t: nat, i: nat): State
    requires t in s.readers && s.readers[t].RHold? && ReaderOk(s, t) && i < |s.disk[s.readers[t].k]|
  {
    var RHold(k, id, got) := s.readers[t];
    var b := s.cache.infos[id].buf;
    s.(mem := s.mem[b := s.mem[b][i := s.disk[k][i]]], readers := s.readers[t := RHold(k, id, got + {i})])
  }

  function ProductState(s: State, t: nat): State
    requires t in s.readers && s.readers[t].RHold? && ReaderOk(s, t)
  {
    var RHold(k, id, got) := s.readers[t];
    s.(cache := s.cache.(infos := s.cache.infos[id := s.cache.infos[id].(product := true)]),
       readers := s.readers[t := RLoaded(k, id)])
  }

  function PublishState(s: State, t: nat): State
    requires t in s.readers && s.readers[t].RLoaded? && ReaderOk(s, t) && Listed(s.cache)
  {
    var RLoaded(k, id) := s.readers[t];
    s.(cache := Finish(s.cache, k, id), readers := s.readers[t := RIdle], locks := s.locks - {id})
  }

  function WriteState(s: State, w: nat, chunks: seq<Chunk>): State {
    s.(writers := s.writers[w := WWrite(chunks, {})])
  }

  function WriteByteState(s: State, w: nat, j: nat, i: nat): State
    requires Enabled(s, WriteByte(w, j, i))
  {
    var WWrite(todo, done) := s.writers[w];
    var c := todo[j];
    s.(disk := s.disk[c.key := s.disk[c.key][c.off + i := c.data[i]]],
       writers := s.writers[w := WWrite(todo, done + {(j, i)})])
  }

  function WrittenState(s: State, w: nat): State
    requires w in s.writers && s.writers[w].WWrite?
  {
    s.(writers := s.writers[w := WFind(s.writers[w].todo)])
  }

  function FindState(s: State, w: nat): State
    requires w in s.writers && s.writers[w].WFind? && s.writers[w].todo != []
  {
    var todo := s.writers[w].todo;
    if todo[0].key in s.cache.inserts then s.(writers := s.writers[w := WWait(todo, s.cache.inserts[todo[0].key])])
    else s.(mem := Patched(s, todo[0]), writers := s.writers[w := After(todo)])
  }

  function LockWState(s: State, w: nat): State
    requires w in s.writers && s.writers[w].WWait?
  {
    var WWait(todo, id) := s.writers[w];
    s.(writers := s.writers[w := WHold(todo, id)], locks := s.locks[id := Writer(w)])
  }

  function PatchState(s: State, w: nat): State
    requires w in s.writers && s.writers[w].WHold? && s.writers[w].todo != []
  {
    var WHold(todo, id) := s.writers[w];
    s.(mem := Patched(s, todo[0]), writers := s.writers[w := After(todo)], locks := s.locks - {id})
  }

  function Apply(s: State, step: Step): State
    requires AllReaders(s) && Listed(s.cache) && Enabled(s, step)
  {
    match step
    case Look(t, k, id, addr, junk) => LookState(s, t, k, id, addr, junk)
    case Lock(t) => LockState(s, t)
    case Load(t, i) => LoadState(s, t, i)
    case Product(t) => ProductState(s, t)
    case Publish(t) => PublishState(s, t)
    case Write(w, chunks) => WriteState(s, w, chunks)
    case WriteByte(w, j, i) => WriteByteState(s, w, j, i)
    case Written(w) => WrittenState(s, w)
    case Find(w) => FindState(s, w)
    case LockW(w) => LockWState(s, w)
    case PatchCell(w) => PatchState(s, w)
    case Evict(k) => s.(cache := EvictKey(s.cache, k))
    case Alter(maxSize, maxOverflow) => s.(cache := Resize(s.cache, maxSize, maxOverflow))
  }

  // ----- The invariant -----

  predicate ReaderOk(s: State, t: nat)
    requires t in s.readers
  {
    match s.readers[t]
    case RIdle => true
    case RWant(k, id) => k in s.disk && id in s.cache.infos &&
        (s.cache.infos[id].product || (k in s.cache.inserts && s.cache.inserts[k] == id))
    case RHold(k, id, got) =>
      k in s.disk && id in s.cache.infos && !s.cache.infos[id].product && Holds(s, Reader(t), id) &&
      k in s.cache.inserts && s.cache.inserts[k] == id && s.cache.infos[id].buf in s.mem &&
          |s.mem[s.cache.infos[id].buf]| == s.cellSize >= |s.disk[k]|
    case RLoaded(k, id) =>
      k in s.disk && id in s.cache.infos && s.cache.infos[id].product && Holds(s, Reader(t), id) &&
      k in s.cache.inserts && s.cache.inserts[k] == id &&
      s.cache.infos[id].buf in s.mem && |s.mem[s.cache.infos[id].buf]| == s.cellSize >= |s.disk[k]|
  }

  predicate Holds(s: State, th: Thread, id: InfoId) {
    id in s.locks && s.locks[id] == th
  }

  predicate WriterOk(s: State, w: nat)
    requires w in s.writers
  {
    var pc := s.writers[w];
    && (!pc.WIdle? ==> Todo(pc) != [])
    && DistinctKeys(Todo(pc))
    && (forall j :: 0 <= j < |Todo(pc)| ==> ChunkOk(s.disk, pc, j))
    && (pc.WHold? ==> Holds(s, Writer(w), pc.id))
  }

  /** Of a write under way, the bytes done are on disk; afterwards all of them. */
  predicate ChunkOk(disk: map<Key, Bytes>, pc: WriterPc, j: nat)
    requires j < |Todo(pc)|
  {
    if pc.WWrite? then PartOnDisk(disk, pc.todo[j], j, pc.done) else ChunkOnDisk(disk, Todo(pc)[j])
  }

  predicate PartOnDisk(disk: map<Key, Bytes>, c: Chunk, j: nat, done: set<(nat, nat)>) {
    Fits(disk, c) && forall i: nat :: i < |c.data| && (j, i) in done ==> disk[c.key][c.off + i] == c.data[i]
  }

  /** Until its cache step is done, an update's bytes are what the disk holds. */
  predicate ChunkOnDisk(disk: map<Key, Bytes>, c: Chunk) {
    Fits(disk, c) && forall i :: 0 <= i < |c.data| ==> disk[c.key][c.off + i] == c.data[i]
  }

  predicate OneUpdaterPerBlock(s: State) {
    forall w, w' :: w in s.writers && w' in s.writers && w != w' ==> ApartKeys(Todo(s.writers[w]), Todo(s.writers[w']))
  }

  predicate ApartKeys(xs: seq<Chunk>, ys: seq<Chunk>) {
    forall i, j :: 0 <= i < |xs| && 0 <= j < |ys| ==> xs[i].key != ys[j].key
  }

  predicate LockOk(s: State, id: InfoId)
    requires id in s.locks
  {
    match s.locks[id]
    case Reader(t) => t in s.readers &&
        ((s.readers[t].RHold? && s.readers[t].id == id) || (s.readers[t].RLoaded? && s.readers[t].id == id))
    case Writer(w) => w in s.writers && s.writers[w].WHold? && s.writers[w].id == id
  }

  predicate Memory(s: State) {
    && (forall b :: b in s.cache.pool.alive ==> b in s.mem && |s.mem[b]| == s.cellSize)
    && (forall k :: k in s.disk ==> |s.disk[k]| <= s.cellSize)
    && (forall k :: k in s.cache.cells ==> k in s.disk && s.cache.cells[k].buf in s.cache.pool.alive)
    && (forall k :: k in s.cache.inserts ==> k in s.disk)
  }

  predicate Covers(c: Chunk, k: Key, i: nat) {
    c.key == k && c.off <= i < c.off + |c.data|
  }

  predicate CoversAt(writers: map<nat, WriterPc>, w: nat, j: nat, k: Key, i: nat) {
    w in writers && j < |Todo(writers[w])| && Covers(Todo(writers[w])[j], k, i)
  }

  /** Byte `i` of block `k` belongs to an update that is on disk but not through the cache. */
  ghost predicate Pending(writers: map<nat, WriterPc>, k: Key, i: nat) {
    exists w: nat, j: nat :: CoversAt(writers, w, j, k, i)
  }

  /** Such an update will still come to the buffer that insert `id` is loading. */
  predicate WillReach(pc: WriterPc, j: nat, id: InfoId) {
    j > 0 || pc.WWrite? || pc.WFind? || (pc.WWait? && pc.id == id)
  }

  ghost predicate PendingFor(writers: map<nat, WriterPc>, k: Key, i: nat, id: InfoId) {
    exists w: nat, j: nat :: CoversAt(writers, w, j, k, i) && WillReach(writers[w], j, id)
  }

  /** A cached byte equals the disk byte unless an unfinished update covers it. */
  ghost predicate Coherent(s: State) {
    forall k, i ::
      && k in s.cache.cells && k in s.disk && 0 <= i < |s.disk[k]|
      && s.cache.cells[k].buf in s.mem && i < |s.mem[s.cache.cells[k].buf]|
      ==>
      s.mem[s.cache.cells[k].buf][i] == s.disk[k][i] || Pending(s.writers, k, i)
  }

  /** The bytes a reader has loaded so far equal the disk, or will be patched after publication. */
  ghost predicate LoadOk(s: State, t: nat)
    requires t in s.readers && ReaderOk(s, t)
  {
    match s.readers[t]
    case RHold(k, id, got) =>
      forall i :: 0 <= i < |s.disk[k]| && i in got ==>
        s.mem[s.cache.infos[id].buf][i] == s.disk[k][i] || PendingFor(s.writers, k, i, id)
    case RLoaded(k, id) =>
      forall i :: 0 <= i < |s.disk[k]| ==>
        s.mem[s.cache.infos[id].buf][i] == s.disk[k][i] || PendingFor(s.writers, k, i, id)
    case _ => true
  }

  predicate AllReaders(s: State) {
    forall t :: t in s.readers ==> ReaderOk(s, t)
  }

  ghost predicate AllLoads(s: State)
    requires AllReaders(s)
  {
    forall t :: t in s.readers ==> LoadOk(s, t)
  }

  predicate AllWriters(s: State) {
    forall w :: w in s.writers ==> WriterOk(s, w)
  }

  predicate AllLocks(s: State) {
    forall id :: id in s.locks ==> LockOk(s, id)
  }

  ghost predicate Control(s: State) {
    CacheInv(s.cache) && Memory(s) && AllReaders(s) && AllWriters(s) && OneUpdaterPerBlock(s) && AllLocks(s)
  }

  ghost predicate Inv(s: State) {
    Control(s) && Coherent(s) && AllLoads(s)
  }

  // ----- Frames -----

  /** Cells and in-flight entries have pairwise different buffers, all allocated. */
  predicate Apart(c: Cache) {
    && (forall k :: k in c.inserts ==> c.inserts[k] in c.infos && k !in c.cells)
    && (forall k, x :: k in c.inserts && x in c.cells ==> c.infos[c.inserts[k]].buf != c.cells[x].buf)
    && (forall k, k' :: k in c.inserts && k' in c.inserts && k != k' ==>
       c.infos[c.inserts[k]].buf != c.infos[c.inserts[k']].buf)
    && (forall x, x' :: x in c.cells && x' in c.cells && x != x' ==> c.cells[x].buf != c.cells[x'].buf)
    && (forall k :: k in c.inserts ==> c.infos[c.inserts[k]].buf in c.pool.alive)
    && (forall x :: x in c.cells ==> c.cells[x].buf in c.pool.alive)
  }

  lemma BuffersApart(c: Cache)
    requires CacheInv(c)
    ensures Apart(c)
  {
    assert forall k :: k in c.inserts ==> Owns(c, InsertOf(k), c.infos[c.inserts[k]].buf);
    assert forall x :: x in c.cells ==> Owns(c, CellOf(x), c.cells[x].buf);
  }

  /** The part of the invariant that the contents of buffers depend on. */
  ghost predicate Data(s: State) {
    Apart(s.cache) && Memory(s) && AllReaders(s) && Coherent(s) && AllLoads(s)
  }

  lemma DataOf(s: State)
    requires Inv(s)
    ensures Data(s)
  {
    hide CacheInv, Memory, AllReaders, Coherent, AllLoads, AllWriters, OneUpdaterPerBlock, AllLocks;
    BuffersApart(s.cache);
  }

  // ----- The cache-only steps -----

  /** A cache change that only loses or touches cells, and adds no in-flight entry. */
  predicate CacheShrinks(c: Cache, c': Cache) {
    && c'.inserts == c.inserts && c'.infos == c.infos
    && (forall k :: k in c'.cells ==> k in c.cells && c'.cells[k].buf == c.cells[k].buf)
    && c'.pool.alive <= c.pool.alive
  }

  lemma ShrinkKeeps(s: State, s': State)
    requires Inv(s) && CacheInv(s'.cache) && CacheShrinks(s.cache, s'.cache) && s' == s.(cache := s'.cache)
    ensures Inv(s')
  {
    BuffersApart(s'.cache);
    forall t | t in s'.readers ensures ReaderOk(s', t) && LoadOk(s', t) {
      assert ReaderOk(s, t) && LoadOk(s, t);
    }
    forall w | w in s'.writers ensures WriterOk(s', w) {
      assert WriterOk(s, w);
    }
    forall id | id in s'.locks ensures LockOk(s', id) {
      assert LockOk(s, id);
    }
  }

  lemma ResizeShrinks(c: Cache, maxSize: nat, maxOverflow: nat)
    requires CacheInv(c)
    ensures CacheInv(Resize(c, maxSize, maxOverflow)) && CacheShrinks(c, Resize(c, maxSize, maxOverflow))
  {
    ResizeKeeps(c, maxSize, maxOverflow);
  }

  lemma EvictShrinks(c: Cache, k: Key)
    requires CacheInv(c)
    ensures CacheInv(EvictKey(c, k)) && CacheShrinks(c, EvictKey(c, k))
  {
    EvictKeyKeeps(c, k);
  }

  lemma EvictStep(s: State, k: Key)
    requires Inv(s)
    ensures Inv(s.(cache := EvictKey(s.cache, k)))
  {
    EvictShrinks(s.cache, k);
    ShrinkKeeps(s, s.(cache := EvictKey(s.cache, k)));
  }

  lemma AlterStep(s: State, maxSize: nat, maxOverflow: nat)
    requires Inv(s)
    ensures Inv(s.(cache := Resize(s.cache, maxSize, maxOverflow)))
  {
    ResizeShrinks(s.cache, maxSize, maxOverflow);
    ShrinkKeeps(s, s.(cache := Resize(s.cache, maxSize, maxOverflow)));
  }

  // ----- Reader steps -----

  lemma LookAlive(c: Cache, k: Key, id: InfoId, addr: Buf)
    requires id !in c.infos && addr !in c.pool.alive
    ensures var c' := Lookup(c, k, id, addr).0;
            && c.pool.alive <= c'.pool.alive <= c.pool.alive + {addr}
            && (forall x :: x in c'.cells <==> x in c.cells) &&
               (forall x :: x in c.cells ==> c'.cells[x].buf == c.cells[x].buf)
            && (forall x :: x in c.inserts ==> x in c'.inserts && c'.inserts[x] == c.inserts[x])
            && (forall x :: x in c'.inserts ==> x in c.inserts || (x == k && x !in c.cells))
            && (forall i :: i in c.infos ==> i in c'.infos && c'.infos[i] == c.infos[i])
  {
  }

  /** What a step must leave alone for a reader's facts to survive it. */
  ghost predicate ReaderFrame(s: State, s': State, u: nat)
    requires u in s.readers && ReaderOk(s, u)
  {
    && u in s'.readers && s'.readers[u] == s.readers[u]
    && match s.readers[u]
       case RIdle => true
       case RWant(k, id) =>
         k in s'.disk && id in s'.cache.infos &&
         ((s'.cache.infos[id] == s.cache.infos[id] &&
             (k in s.cache.inserts ==> k in s'.cache.inserts && s'.cache.inserts[k] == s.cache.inserts[k]))
           || s'.cache.infos[id].product)
       case RHold(k, id, got) => LoadFrame(s, s', u, k, id)
       case RLoaded(k, id) => LoadFrame(s, s', u, k, id)
  }

  ghost predicate LoadFrame(s: State, s': State, u: nat, k: Key, id: InfoId)
    requires k in s.disk && id in s.cache.infos && s.cache.infos[id].buf in s.mem &&
             |s.disk[k]| <= |s.mem[s.cache.infos[id].buf]|
  {
    && k in s'.disk && |s'.disk[k]| == |s.disk[k]| && s'.cellSize == s.cellSize
    && id in s'.cache.infos && s'.cache.infos[id] == s.cache.infos[id] && Holds(s', Reader(u), id)
    && k in s'.cache.inserts && s'.cache.inserts[k] == id
    && s.cache.infos[id].buf in s'.mem && s'.mem[s.cache.infos[id].buf] == s.mem[s.cache.infos[id].buf]
    && (forall i :: 0 <= i < |s.disk[k]| && s'.disk[k][i] != s.disk[k][i] ==> PendingFor(s'.writers, k, i, id))
    && (forall i :: 0 <= i < |s.disk[k]| && PendingFor(s.writers, k, i, id) ==>
          PendingFor(s'.writers, k, i, id) || s'.mem[s.cache.infos[id].buf][i] == s'.disk[k][i])
  }

  lemma ReaderKept(s: State, s': State, u: nat)
    requires u in s.readers && ReaderOk(s, u) && LoadOk(s, u) && ReaderFrame(s, s', u)
    ensures ReaderOk(s', u) && LoadOk(s', u)
  {
  }

  lemma LookOther(s: State, t: nat, k: Key, id: InfoId, addr: Buf, junk: Bytes, u: nat)
    requires Data(s) && Enabled(s, Look(t, k, id, addr, junk)) && u in s.readers && u != t
    ensures ReaderOk(s, u) && ReaderFrame(s, LookState(s, t, k, id, addr, junk), u)
  {
    LookAlive(s.cache, k, id, addr);
    assert ReaderOk(s, u);
  }

  lemma LookMemory(s: State, t: nat, k: Key, id: InfoId, addr: Buf, junk: Bytes)
    requires Data(s) && Enabled(s, Look(t, k, id, addr, junk))
    ensures Memory(LookState(s, t, k, id, addr, junk))
  {
    LookAlive(s.cache, k, id, addr);
  }

  lemma LookCoherent(s: State, t: nat, k: Key, id: InfoId, addr: Buf, junk: Bytes)
    requires Data(s) && Enabled(s, Look(t, k, id, addr, junk))
    ensures Coherent(LookState(s, t, k, id, addr, junk))
  {
    LookAlive(s.cache, k, id, addr);
  }

  /** Steps of readers leave updates, the disk and the writers' locks alone. */
  lemma WritersKept(s: State, s': State)
    requires AllWriters(s) && s'.writers == s.writers && s'.disk == s.disk
    requires forall id, w :: Holds(s, Writer(w), id) ==> Holds(s', Writer(w), id)
    ensures AllWriters(s')
  {
    forall w | w in s'.writers ensures WriterOk(s', w) {
      assert WriterOk(s, w);
    }
  }

  lemma LookReaders(s: State, t: nat, k: Key, id: InfoId, addr: Buf, junk: Bytes)
    requires Data(s) && Enabled(s, Look(t, k, id, addr, junk))
    ensures AllReaders(LookState(s, t, k, id, addr, junk)) && AllLoads(LookState(s, t, k, id, addr, junk))
  {
    var s' := LookState(s, t, k, id, addr, junk);
    forall u | u in s'.readers ensures ReaderOk(s', u) && LoadOk(s', u) {
      if u != t {
        LookOther(s, t, k, id, addr, junk, u);
        ReaderKept(s, s', u);
      }
    }
  }

  /** Only threads holding no lock are touched and no lock changes hands. */
  lemma LocksKept(s: State, s': State)
    requires AllLocks(s) && s'.locks == s.locks
    requires forall t :: t in s.readers && (s.readers[t].RHold? || s.readers[t].RLoaded?) ==>
               t in s'.readers && (s'.readers[t].RHold? || s'.readers[t].RLoaded?) &&
                   s'.readers[t].id == s.readers[t].id
    requires forall w :: w in s.writers && s.writers[w].WHold? ==> w in s'.writers && s'.writers[w] == s.writers[w]
    ensures AllLocks(s')
  {
    forall id | id in s'.locks ensures LockOk(s', id) {
      assert LockOk(s, id);
    }
  }

  /** Looking a key up: on a miss the reader waits for the insert that is in flight. */
  lemma LookStep(s: State, t: nat, k: Key, id: InfoId, addr: Buf, junk: Bytes)
    requires Inv(s) && Enabled(s, Look(t, k, id, addr, junk))
    ensures Inv(LookState(s, t, k, id, addr, junk))
  {
    BuffersApart(s.cache);
    var s' := LookState(s, t, k, id, addr, junk);
    LookupInv(s.cache, k, id, addr);
    LookMemory(s, t, k, id, addr, junk);
    LookCoherent(s, t, k, id, addr, junk);
    LookReaders(s, t, k, id, addr, junk);
    WritersKept(s, s');
    LocksKept(s, s');
  }

  // Lock

  lemma LockReaders(s: State, t: nat)
    requires Data(s) && Enabled(s, Lock(t))
    ensures AllReaders(LockState(s, t)) && AllLoads(LockState(s, t))
  {
    var s' := LockState(s, t);
    forall u | u in s'.readers ensures ReaderOk(s', u) && LoadOk(s', u) {
      assert ReaderOk(s, u) && LoadOk(s, u);
      if u != t {
        ReaderKept(s, s', u);
      }
    }
  }

  lemma LockLocks(s: State, t: nat)
    requires AllLocks(s) && Enabled(s, Lock(t))
    ensures AllLocks(LockState(s, t))
  {
    var s' := LockState(s, t);
    forall i | i in s'.locks ensures LockOk(s', i) {
      assert i in s.locks ==> LockOk(s, i);
    }
  }

  /** Taking the insert mutex: the reader becomes the loader, or finds the product and returns. */
  lemma LockStep(s: State, t: nat)
    requires Inv(s) && Enabled(s, Lock(t))
    ensures Inv(LockState(s, t))
  {
    BuffersApart(s.cache);
    LockReaders(s, t);
    LockRest(s, t);
  }

  lemma LockRest(s: State, t: nat)
    requires AllLocks(s) && AllWriters(s) && OneUpdaterPerBlock(s) && Enabled(s, Lock(t))
    ensures AllLocks(LockState(s, t)) && AllWriters(LockState(s, t)) && OneUpdaterPerBlock(LockState(s, t))
  {
    LockLocks(s, t);
    WritersKept(s, LockState(s, t));
  }

  // Load one byte

  lemma LoadOther(s: State, t: nat, i: nat, u: nat)
    requires Data(s) && Enabled(s, Load(t, i)) && u in s.readers && ReaderOk(s, t) && u != t
    ensures ReaderOk(LoadState(s, t, i), u) && LoadOk(LoadState(s, t, i), u)
  {
    assert ReaderOk(s, u) && LoadOk(s, u);
    ReaderKept(s, LoadState(s, t, i), u);
  }

  lemma LoadReaders(s: State, t: nat, i: nat)
    requires Data(s) && Enabled(s, Load(t, i)) && ReaderOk(s, t)
    ensures AllReaders(LoadState(s, t, i)) && AllLoads(LoadState(s, t, i))
  {
    var s' := LoadState(s, t, i);
    forall u | u in s'.readers ensures ReaderOk(s', u) && LoadOk(s', u) {
      if u != t {
        LoadOther(s, t, i, u);
      } else {
        assert LoadOk(s, t);
      }
    }
  }

  lemma LoadCoherent(s: State, t: nat, i: nat)
    requires Data(s) && Enabled(s, Load(t, i)) && ReaderOk(s, t)
    ensures Coherent(LoadState(s, t, i)) && Memory(LoadState(s, t, i))
  {
  }

  /** One byte of the block arrives in the loader's own buffer. */
  lemma LoadStep(s: State, t: nat, i: nat)
    requires Inv(s) && Enabled(s, Load(t, i))
    ensures ReaderOk(s, t) && Inv(LoadState(s, t, i))
  {
    BuffersApart(s.cache);
    assert ReaderOk(s, t) && Data(s);
    hide CacheInv, AllWriters, AllLocks, AllReaders, AllLoads, Coherent, OneUpdaterPerBlock, Memory, Data, LoadState,
        Enabled;
    LoadRest(s, t, i);
    LoadCoherent(s, t, i);
    LoadReaders(s, t, i);
  }

  lemma LoadRest(s: State, t: nat, i: nat)
    requires CacheInv(s.cache) && AllWriters(s) && OneUpdaterPerBlock(s) && AllLocks(s) && Enabled(s, Load(t, i)) &&
             ReaderOk(s, t)
    ensures var s' := LoadState(s, t, i); CacheInv(s'.cache) && AllWriters(s') && OneUpdaterPerBlock(s') && AllLocks(s')
  {
    hide CacheInv;
    WritersKept(s, LoadState(s, t, i));
    LocksKept(s, LoadState(s, t, i));
  }

  // Mark the insert as produced

  lemma ProductCache(c: Cache, id: InfoId)
    requires CacheInv(c) && id in c.infos
    ensures CacheInv(c.(infos := c.infos[id := c.infos[id].(product := true)]))
  {
    var c' := c.(infos := c.infos[id := c.infos[id].(product := true)]);
    assert forall o, b :: Owns(c', o, b) <==> Owns(c, o, b);
  }

  lemma ProductReaders(s: State, t: nat)
    requires Data(s) && Enabled(s, Product(t)) && ReaderOk(s, t)
    ensures AllReaders(ProductState(s, t)) && AllLoads(ProductState(s, t))
  {
    var s' := ProductState(s, t);
    forall u | u in s'.readers ensures ReaderOk(s', u) && LoadOk(s', u) {
      assert ReaderOk(s, u) && LoadOk(s, u);
      if u != t {
        ReaderKept(s, s', u);
      }
    }
  }

  lemma ProductStep(s: State, t: nat)
    requires Inv(s) && Enabled(s, Product(t))
    ensures ReaderOk(s, t) && Inv(ProductState(s, t))
  {
    BuffersApart(s.cache);
    assert ReaderOk(s, t) && Data(s);
    hide CacheInv, AllWriters, AllLocks, AllReaders, AllLoads, Coherent, OneUpdaterPerBlock, Memory, Data, ProductState,
        Enabled;
    ProductRest(s, t);
    ProductReaders(s, t);
  }

  lemma ProductRest(s: State, t: nat)
    requires Control(s) && Coherent(s) && Enabled(s, Product(t)) && ReaderOk(s, t)
    ensures var s' := ProductState(s, t);
            CacheInv(s'.cache) && Memory(s') && AllWriters(s') && OneUpdaterPerBlock(s') && AllLocks(s') && Coherent(s')
  {
    hide CacheInv, AllReaders;
    ProductCache(s.cache, s.readers[t].id);
    ProductLocks(s, t);
  }

  lemma ProductLocks(s: State, t: nat)
    requires AllWriters(s) && AllLocks(s) && Enabled(s, Product(t)) && ReaderOk(s, t)
    ensures AllWriters(ProductState(s, t)) && AllLocks(ProductState(s, t))
  {
    hide AllWriters, AllLocks;
    WritersKept(s, ProductState(s, t));
    LocksKept(s, ProductState(s, t));
  }

  // Publish

  /** What `FinishInv` says of the cache after publication. */
  predicate Finished(c: Cache, c': Cache, k: Key, id: InfoId)
    requires id in c.infos
  {
    && c'.inserts == c.inserts - {k} && c'.infos == c.infos[id := c.infos[id].(clean := true)]
    && c'.pool.alive <= c.pool.alive && Apart(c')
    && forall x :: x in c'.cells ==>
         if x == k then c'.cells[x].buf == c.infos[id].buf else x in c.cells && c'.cells[x] == c.cells[x]
  }

  lemma PublishOther(s: State, t: nat, u: nat)
    requires Data(s) && Enabled(s, Publish(t)) && u in s.readers && ReaderOk(s, t) && u != t && Listed(s.cache)
    requires Finished(s.cache, PublishState(s, t).cache, s.readers[t].k, s.readers[t].id)
    ensures ReaderOk(PublishState(s, t), u) && LoadOk(PublishState(s, t), u)
  {
    assert ReaderOk(s, u) && LoadOk(s, u);
    ReaderKept(s, PublishState(s, t), u);
  }

  lemma PublishReaders(s: State, t: nat)
    requires Data(s) && Enabled(s, Publish(t)) && ReaderOk(s, t) && Listed(s.cache)
    requires Finished(s.cache, PublishState(s, t).cache, s.readers[t].k, s.readers[t].id)
    ensures AllReaders(PublishState(s, t)) && AllLoads(PublishState(s, t))
  {
    var s' := PublishState(s, t);
    forall u | u in s'.readers ensures ReaderOk(s', u) && LoadOk(s', u) {
      if u != t {
        PublishOther(s, t, u);
      }
    }
  }

  /** The holder of a lock gives it up. */
  lemma LocksReleased(s: State, s': State, id: InfoId)
    requires AllLocks(s) && s'.locks == s.locks - {id} && id in s.locks
    requires forall t :: t in s.readers && s.locks[id] != Reader(t) ==> t in s'.readers && s'.readers[t] == s.readers[t]
    requires forall w :: w in s.writers && s.locks[id] != Writer(w) ==> w in s'.writers && s'.writers[w] == s.writers[w]
    ensures AllLocks(s')
  {
    forall i | i in s'.locks ensures LockOk(s', i) {
      assert LockOk(s, i) && LockOk(s, id);
    }
  }

  lemma PublishCoherent(s: State, t: nat)
    requires Data(s) && Enabled(s, Publish(t)) && ReaderOk(s, t) && Listed(s.cache)
    requires Finished(s.cache, PublishState(s, t).cache, s.readers[t].k, s.readers[t].id)
    ensures Coherent(PublishState(s, t)) && Memory(PublishState(s, t))
  {
    var k, id := s.readers[t].k, s.readers[t].id;
    assert LoadOk(s, t);
    forall i | PendingFor(s.writers, k, i, id) ensures Pending(s.writers, k, i) {
      var w: nat, j: nat :| CoversAt(s.writers, w, j, k, i) && WillReach(s.writers[w], j, id);
    }
  }

  /** The loaded block becomes a cell; bytes it missed are pending and will be patched. */
  lemma PublishStep(s: State, t: nat)
    requires Inv(s) && Enabled(s, Publish(t))
    ensures ReaderOk(s, t) && Inv(PublishState(s, t))
  {
    assert ReaderOk(s, t);
    BuffersApart(s.cache);
    PublishCache(s, t);
    PublishCoherent(s, t);
    PublishReaders(s, t);
    PublishLocks(s, t);
  }

  lemma PublishLocks(s: State, t: nat)
    requires AllLocks(s) && AllWriters(s) && OneUpdaterPerBlock(s) && Listed(s.cache)
    requires Enabled(s, Publish(t)) && ReaderOk(s, t)
    ensures AllLocks(PublishState(s, t)) && AllWriters(PublishState(s, t)) && OneUpdaterPerBlock(PublishState(s, t))
  {
    WritersKept(s, PublishState(s, t));
    LocksReleased(s, PublishState(s, t), s.readers[t].id);
  }

  lemma PublishCache(s: State, t: nat)
    requires CacheInv(s.cache) && Enabled(s, Publish(t)) && ReaderOk(s, t)
    ensures CacheInv(PublishState(s, t).cache)
    ensures Finished(s.cache, PublishState(s, t).cache, s.readers[t].k, s.readers[t].id)
  {
    FinishInv(s.cache, s.readers[t].k, s.readers[t].id);
    BuffersApart(PublishState(s, t).cache);
  }

  // ----- Writer steps -----

  lemma WriteKeepsPending(s: State, w: nat, chunks: seq<Chunk>, k: Key, i: nat)
    requires Enabled(s, Write(w, chunks))
    ensures Pending(s.writers, k, i) ==> Pending(WriteState(s, w, chunks).writers, k, i)
    ensures forall id :: PendingFor(s.writers, k, i, id) ==> PendingFor(WriteState(s, w, chunks).writers, k, i, id)
  {
    var s' := WriteState(s, w, chunks);
    forall u: nat, j: nat | CoversAt(s.writers, u, j, k, i) ensures CoversAt(s'.writers, u, j, k, i) && u != w {
    }
  }

  lemma WriteReader(s: State, w: nat, chunks: seq<Chunk>, u: nat)
    requires Data(s) && Enabled(s, Write(w, chunks)) && u in s.readers
    ensures ReaderOk(WriteState(s, w, chunks), u) && LoadOk(WriteState(s, w, chunks), u)
  {
    assert ReaderOk(s, u) && LoadOk(s, u);
    var s' := WriteState(s, w, chunks);
    if s.readers[u].RHold? || s.readers[u].RLoaded? {
      forall i: nat | i < |s.disk[s.readers[u].k]|
        ensures PendingFor(s.writers, s.readers[u].k, i, s.readers[u].id) ==>
                PendingFor(s'.writers, s.readers[u].k, i, s.readers[u].id)
      {
        WriteKeepsPending(s, w, chunks, s.readers[u].k, i);
      }
    }
    ReaderKept(s, s', u);
  }

  lemma WriteApart(s: State, w: nat, chunks: seq<Chunk>, v: nat)
    requires Enabled(s, Write(w, chunks)) && v in s.writers && v != w
    ensures ApartKeys(Todo(s.writers[v]), chunks)
  {
    var todo := Todo(s.writers[v]);
    forall i, j | 0 <= i < |todo| && 0 <= j < |chunks| ensures todo[i].key != chunks[j].key {
      assert !Busy(s, chunks[j].key);
    }
  }

  lemma WriteWriters(s: State, w: nat, chunks: seq<Chunk>)
    requires AllWriters(s) && Enabled(s, Write(w, chunks))
    ensures AllWriters(WriteState(s, w, chunks))
  {
    var s' := WriteState(s, w, chunks);
    forall v | v in s'.writers ensures WriterOk(s', v) {
      assert WriterOk(s, v);
    }
  }

  lemma WriteExclusive(s: State, w: nat, chunks: seq<Chunk>)
    requires OneUpdaterPerBlock(s) && Enabled(s, Write(w, chunks))
    ensures OneUpdaterPerBlock(WriteState(s, w, chunks))
  {
    var s' := WriteState(s, w, chunks);
    forall v, v' | v in s'.writers && v' in s'.writers && v != v'
        ensures ApartKeys(Todo(s'.writers[v]), Todo(s'.writers[v'])) {
      if v == w {
        WriteApart(s, w, chunks, v');
      } else if v' == w {
        WriteApart(s, w, chunks, v);
      }
    }
  }

  /** The positioned write of an update begins: from now on its bytes are owed to the cache. */
  lemma WriteStep(s: State, w: nat, chunks: seq<Chunk>)
    requires Inv(s) && Enabled(s, Write(w, chunks))
    ensures Inv(WriteState(s, w, chunks))
  {
    BuffersApart(s.cache);
    var s' := WriteState(s, w, chunks);
    forall k, i ensures Pending(s.writers, k, i) ==> Pending(s'.writers, k, i) {
      if i >= 0 { WriteKeepsPending(s, w, chunks, k, i); }
    }
    forall u | u in s'.readers ensures ReaderOk(s', u) && LoadOk(s', u) {
      WriteReader(s, w, chunks, u);
    }
    WriteWriters(s, w, chunks);
    WriteExclusive(s, w, chunks);
    LocksKept(s, s');
  }

  // One byte of the positioned write, or its end

  /** The writer goes on with the same chunks, all of which will still reach every copy. */
  predicate GoesOn(s: State, s': State, w: nat)
    requires w in s'.writers
  {
    && w in s.writers && s.writers[w].WWrite? && s'.writers == s.writers[w := s'.writers[w]]
    && (s'.writers[w].WWrite? || s'.writers[w].WFind?) && Todo(s'.writers[w]) == s.writers[w].todo
  }

  lemma GoesOnPending(s: State, s': State, w: nat, k: Key, i: nat)
    requires w in s'.writers && GoesOn(s, s', w)
    ensures Pending(s.writers, k, i) ==> Pending(s'.writers, k, i)
    ensures forall id :: PendingFor(s.writers, k, i, id) ==> PendingFor(s'.writers, k, i, id)
  {
    forall u: nat, j: nat | CoversAt(s.writers, u, j, k, i) ensures CoversAt(s'.writers, u, j, k, i) {
    }
    forall id, u: nat, j: nat | CoversAt(s.writers, u, j, k, i) && WillReach(s.writers[u], j, id)
      ensures WillReach(s'.writers[u], j, id)
    {
    }
  }

  lemma GoesOnReader(s: State, s': State, w: nat, u: nat)
    requires Data(s) && w in s'.writers && GoesOn(s, s', w) && u in s.readers
    requires s' == s.(disk := s'.disk, writers := s'.writers)
    requires s'.disk.Keys == s.disk.Keys && forall k :: k in s.disk ==> |s'.disk[k]| == |s.disk[k]|
    requires forall k, i: nat :: k in s.disk && i < |s.disk[k]| && s'.disk[k][i] != s.disk[k][i] ==>
               forall id :: PendingFor(s'.writers, k, i, id)
    ensures ReaderOk(s', u) && LoadOk(s', u)
  {
    assert ReaderOk(s, u) && LoadOk(s, u);
    if s.readers[u].RHold? || s.readers[u].RLoaded? {
      forall i: nat | i < |s.disk[s.readers[u].k]|
        ensures PendingFor(s.writers, s.readers[u].k, i, s.readers[u].id) ==>
                PendingFor(s'.writers, s.readers[u].k, i, s.readers[u].id)
      {
        GoesOnPending(s, s', w, s.readers[u].k, i);
      }
    }
    ReaderKept(s, s', u);
  }

  /** The byte just written is pending, and will reach any insert in flight. */
  lemma ByteChanges(s: State, w: nat, j: nat, i: nat, k: Key, x: nat)
    requires Enabled(s, WriteByte(w, j, i)) && k in s.disk && x < |s.disk[k]|
    ensures var s' := WriteByteState(s, w, j, i);
            s'.disk[k][x] != s.disk[k][x] ==>
              Pending(s'.writers, k, x) && forall id :: PendingFor(s'.writers, k, x, id)
  {
    var s' := WriteByteState(s, w, j, i);
    if s'.disk[k][x] != s.disk[k][x] {
      assert CoversAt(s'.writers, w, j, k, x);
      forall id ensures PendingFor(s'.writers, k, x, id) {
        assert WillReach(s'.writers[w], j, id);
      }
    }
  }

  lemma ByteCoherent(s: State, w: nat, j: nat, i: nat)
    requires Data(s) && Enabled(s, WriteByte(w, j, i))
    ensures Coherent(WriteByteState(s, w, j, i)) && Memory(WriteByteState(s, w, j, i))
  {
    var s' := WriteByteState(s, w, j, i);
    forall k, x: nat | k in s.disk && x < |s.disk[k]|
      ensures s'.disk[k][x] == s.disk[k][x] || Pending(s'.writers, k, x)
      ensures Pending(s.writers, k, x) ==> Pending(s'.writers, k, x)
    {
      ByteChanges(s, w, j, i, k, x);
      GoesOnPending(s, s', w, k, x);
    }
  }

  lemma ByteWriters(s: State, w: nat, j: nat, i: nat)
    requires AllWriters(s) && OneUpdaterPerBlock(s) && Enabled(s, WriteByte(w, j, i))
    ensures AllWriters(WriteByteState(s, w, j, i))
  {
    var s' := WriteByteState(s, w, j, i);
    assert WriterOk(s, w);
    forall v | v in s'.writers ensures WriterOk(s', v) {
      assert WriterOk(s, v);
      if v != w {
        assert ApartKeys(Todo(s.writers[v]), Todo(s.writers[w]));
        forall m | 0 <= m < |Todo(s.writers[v])| ensures ChunkOk(s'.disk, s'.writers[v], m) {
          assert ChunkOk(s.disk, s.writers[v], m);
        }
      } else {
        forall m | 0 <= m < |Todo(s'.writers[w])| ensures ChunkOk(s'.disk, s'.writers[w], m) {
          assert ChunkOk(s.disk, s.writers[w], m);
        }
      }
    }
  }

  /** One byte of a positioned write arrives on disk. */
  lemma WriteByteStep(s: State, w: nat, j: nat, i: nat)
    requires Inv(s) && Enabled(s, WriteByte(w, j, i))
    ensures Inv(WriteByteState(s, w, j, i))
  {
    DataOf(s);
    hide CacheInv, AllWriters, AllLocks, AllReaders, AllLoads, Coherent, OneUpdaterPerBlock, Memory, Data;
    hide WriteByteState, Enabled;
    ByteCoherent(s, w, j, i);
    ByteReaders(s, w, j, i);
    ByteWriters(s, w, j, i);
    ByteRest(s, w, j, i);
  }

  lemma ByteReaders(s: State, w: nat, j: nat, i: nat)
    requires Data(s) && Enabled(s, WriteByte(w, j, i))
    ensures AllReaders(WriteByteState(s, w, j, i)) && AllLoads(WriteByteState(s, w, j, i))
  {
    var s' := WriteByteState(s, w, j, i);
    forall k, x: nat | k in s.disk && x < |s.disk[k]| && s'.disk[k][x] != s.disk[k][x]
      ensures forall id :: PendingFor(s'.writers, k, x, id)
    {
      ByteChanges(s, w, j, i, k, x);
    }
    hide Data;
    forall u | u in s'.readers ensures ReaderOk(s', u) && LoadOk(s', u) {
      GoesOnReader(s, s', w, u);
    }
  }

  lemma ByteRest(s: State, w: nat, j: nat, i: nat)
    requires CacheInv(s.cache) && OneUpdaterPerBlock(s) && AllLocks(s) && Enabled(s, WriteByte(w, j, i))
    ensures var s' := WriteByteState(s, w, j, i); CacheInv(s'.cache) && OneUpdaterPerBlock(s') && AllLocks(s')
  {
    hide CacheInv, OneUpdaterPerBlock;
    SameTodo(s, WriteByteState(s, w, j, i));
    LocksKept(s, WriteByteState(s, w, j, i));
  }

  /** All bytes are on disk. */
  lemma WrittenStep(s: State, w: nat)
    requires Inv(s) && Enabled(s, Written(w))
    ensures Inv(WrittenState(s, w))
  {
    DataOf(s);
    hide CacheInv, AllWriters, AllLocks, AllReaders, AllLoads, Coherent, OneUpdaterPerBlock, Data;
    WrittenData(s, w);
    WrittenWriters(s, w);
    WrittenRest(s, w);
  }

  lemma WrittenRest(s: State, w: nat)
    requires OneUpdaterPerBlock(s) && AllLocks(s) && Enabled(s, Written(w))
    ensures OneUpdaterPerBlock(WrittenState(s, w)) && AllLocks(WrittenState(s, w))
  {
    hide OneUpdaterPerBlock, Unwritten;
    SameTodo(s, WrittenState(s, w));
    LocksKept(s, WrittenState(s, w));
  }

  lemma WrittenData(s: State, w: nat)
    requires Data(s) && Enabled(s, Written(w))
    ensures var s' := WrittenState(s, w); Coherent(s') && AllReaders(s') && AllLoads(s')
  {
    hide Unwritten;
    WrittenCoherent(s, w);
    hide Coherent;
    forall u | u in s.readers ensures ReaderOk(WrittenState(s, w), u) && LoadOk(WrittenState(s, w), u) {
      GoesOnReader(s, WrittenState(s, w), w, u);
    }
  }

  lemma WrittenCoherent(s: State, w: nat)
    requires Coherent(s) && Enabled(s, Written(w))
    ensures Coherent(WrittenState(s, w))
  {
    hide Unwritten;
    forall k, x: nat | k in s.disk && x < |s.disk[k]|
      ensures Pending(s.writers, k, x) ==> Pending(WrittenState(s, w).writers, k, x)
    {
      GoesOnPending(s, WrittenState(s, w), w, k, x);
    }
  }

  lemma WrittenWriters(s: State, w: nat)
    requires AllWriters(s) && Enabled(s, Written(w))
    ensures AllWriters(WrittenState(s, w))
  {
    var s' := WrittenState(s, w);
    forall v | v in s'.writers ensures WriterOk(s', v) {
      assert WriterOk(s, v);
      if v == w {
        forall m | 0 <= m < |Todo(s'.writers[w])| ensures ChunkOk(s'.disk, s'.writers[w], m) {
          assert ChunkOk(s.disk, s.writers[w], m);
          AllWritten(s.disk, s.writers[w].todo, s.writers[w].done, m);
        }
      }
    }
  }

  lemma AllWritten(disk: map<Key, Bytes>, todo: seq<Chunk>, done: set<(nat, nat)>, m: nat)
    requires m < |todo| && PartOnDisk(disk, todo[m], m, done) && Unwritten(todo, done) == {}
    ensures ChunkOnDisk(disk, todo[m])
  {
    forall i: nat | i < |todo[m].data| ensures disk[todo[m].key][todo[m].off + i] == todo[m].data[i] {
      assert (m, i) !in Unwritten(todo, done);
    }
  }

  // The head chunk is done: its cell, if any, is patched and the update moves on

  predicate HeadDone(s: State, s': State, w: nat) {
    && w in s.writers && !s.writers[w].WWrite? && Todo(s.writers[w]) != []
    && s' == s.(mem := Patched(s, Todo(s.writers[w])[0]), writers := s.writers[w := After(Todo(s.writers[w]))],
       locks := s'.locks)
  }

  lemma AfterShifts(todo: seq<Chunk>)
    requires todo != []
    ensures Todo(After(todo)) == todo[1..]
  {
  }

  /** Whatever another chunk covered is still pending after the head is done. */
  lemma PendingShifts(s: State, s': State, w: nat, k: Key, i: nat)
    requires HeadDone(s, s', w) && Pending(s.writers, k, i) && !Covers(Todo(s.writers[w])[0], k, i)
    ensures Pending(s'.writers, k, i)
  {
    AfterShifts(Todo(s.writers[w]));
    var v: nat, j: nat :| CoversAt(s.writers, v, j, k, i);
    if v == w {
      assert CoversAt(s'.writers, w, j - 1, k, i);
    } else {
      assert CoversAt(s'.writers, v, j, k, i);
    }
  }

  /** A pending chunk that will reach an insert of another key still will. */
  lemma ReachShifts(s: State, s': State, w: nat, k: Key, i: nat, id: InfoId)
    requires HeadDone(s, s', w) && PendingFor(s.writers, k, i, id)
    requires Todo(s.writers[w])[0].key == k ==> !WillReach(s.writers[w], 0, id)
    ensures PendingFor(s'.writers, k, i, id)
  {
    AfterShifts(Todo(s.writers[w]));
    var v: nat, j: nat :| CoversAt(s.writers, v, j, k, i) && WillReach(s.writers[v], j, id);
    if v == w {
      assert CoversAt(s'.writers, w, j - 1, k, i) && WillReach(s'.writers[w], j - 1, id);
    } else {
      assert CoversAt(s'.writers, v, j, k, i) && WillReach(s'.writers[v], j, id);
    }
  }

  lemma HeadMemory(s: State, s': State, w: nat)
    requires Memory(s) && HeadDone(s, s', w)
    ensures Memory(s')
  {
  }

  lemma HeadOther(s: State, s': State, w: nat, x: Key, i: nat)
    requires Apart(s.cache) && Memory(s) && Memory(s') && HeadDone(s, s', w) && x in s.cache.cells && i < |s.disk[x]|
    requires !Covers(Todo(s.writers[w])[0], x, i)
    ensures s'.mem[s.cache.cells[x].buf][i] == s.mem[s.cache.cells[x].buf][i]
  {
    var c := Todo(s.writers[w])[0];
    assert x != c.key && c.key in s.cache.cells ==> s.cache.cells[x].buf != s.cache.cells[c.key].buf;
  }

  lemma HeadCovered(s: State, s': State, w: nat, x: Key, i: nat)
    requires Memory(s) && Memory(s') && HeadDone(s, s', w) && ChunkOnDisk(s.disk, Todo(s.writers[w])[0])
    requires x in s.cache.cells && i < |s.disk[x]| && Covers(Todo(s.writers[w])[0], x, i)
    ensures s'.mem[s.cache.cells[x].buf][i] == s.disk[x][i]
  {
    var c := Todo(s.writers[w])[0];
    assert s.disk[c.key][c.off + (i - c.off)] == c.data[i - c.off];
  }

  lemma HeadByte(s: State, s': State, w: nat, x: Key, i: nat)
    requires Apart(s.cache) && Memory(s) && Memory(s') && Coherent(s) && HeadDone(s, s', w) &&
             ChunkOnDisk(s.disk, Todo(s.writers[w])[0])
    requires x in s.cache.cells && i < |s.disk[x]|
    ensures s'.mem[s.cache.cells[x].buf][i] == s.disk[x][i] || Pending(s'.writers, x, i)
  {
    if Covers(Todo(s.writers[w])[0], x, i) {
      HeadCovered(s, s', w, x, i);
    } else {
      HeadOther(s, s', w, x, i);
      if Pending(s.writers, x, i) {
        PendingShifts(s, s', w, x, i);
      }
    }
  }

  lemma HeadCoherent(s: State, s': State, w: nat)
    requires Apart(s.cache) && Memory(s) && Coherent(s) && HeadDone(s, s', w) && WriterOk(s, w)
    ensures Coherent(s') && Memory(s')
  {
    HeadMemory(s, s', w);
    assert ChunkOk(s.disk, s.writers[w], 0);
    forall x, i: nat | x in s.cache.cells && i < |s.disk[x]|
      ensures s'.mem[s.cache.cells[x].buf][i] == s.disk[x][i] || Pending(s'.writers, x, i)
    {
      HeadByte(s, s', w, x, i);
    }
  }

  lemma HeadReaders(s: State, s': State, w: nat)
    requires Data(s) && HeadDone(s, s', w)
    requires forall t :: t in s.readers && (s.readers[t].RHold? || s.readers[t].RLoaded?) ==>
               Holds(s', Reader(t), s.readers[t].id) &&
               (Todo(s.writers[w])[0].key == s.readers[t].k ==> !WillReach(s.writers[w], 0, s.readers[t].id))
    ensures AllReaders(s') && AllLoads(s')
  {
    forall u | u in s'.readers ensures ReaderOk(s', u) && LoadOk(s', u) {
      assert ReaderOk(s, u) && LoadOk(s, u);
      if s.readers[u].RHold? || s.readers[u].RLoaded? {
        var k, id := s.readers[u].k, s.readers[u].id;
        forall i | PendingFor(s.writers, k, i, id) ensures PendingFor(s'.writers, k, i, id) {
          ReachShifts(s, s', w, k, i, id);
        }
        assert LoadFrame(s, s', u, k, id);
      }
      ReaderKept(s, s', u);
    }
  }

  lemma HeadWriters(s: State, s': State, w: nat)
    requires AllWriters(s) && OneUpdaterPerBlock(s) && HeadDone(s, s', w)
    requires forall v, id :: v != w && Holds(s, Writer(v), id) ==> Holds(s', Writer(v), id)
    ensures AllWriters(s') && OneUpdaterPerBlock(s')
  {
    AfterShifts(Todo(s.writers[w]));
    forall v | v in s'.writers ensures WriterOk(s', v) {
      assert WriterOk(s, v);
      forall m | 0 <= m < |Todo(s'.writers[v])| ensures ChunkOk(s'.disk, s'.writers[v], m) {
        assert ChunkOk(s.disk, s.writers[v], if v == w then m + 1 else m);
      }
    }
    forall v, v' | v in s'.writers && v' in s'.writers && v != v'
        ensures ApartKeys(Todo(s'.writers[v]), Todo(s'.writers[v'])) {
      assert ApartKeys(Todo(s.writers[v]), Todo(s.writers[v']));
    }
  }

  // Find

  lemma FindWaitsRest(s: State, w: nat)
    requires AllWriters(s) && OneUpdaterPerBlock(s) && AllLocks(s)
    requires Enabled(s, Find(w)) && s.writers[w].todo[0].key in s.cache.inserts
    ensures AllWriters(FindState(s, w)) && OneUpdaterPerBlock(FindState(s, w)) && AllLocks(FindState(s, w))
  {
    hide AllWriters, AllLocks, OneUpdaterPerBlock;
    SameTodo(s, FindState(s, w));
    FindWaitsWriters(s, w);
    LocksKept(s, FindState(s, w));
  }

  lemma FindWaitsWriters(s: State, w: nat)
    requires AllWriters(s) && Enabled(s, Find(w)) && s.writers[w].todo[0].key in s.cache.inserts
    ensures AllWriters(FindState(s, w))
  {
    forall v | v in s.writers ensures WriterOk(FindState(s, w), v) {
      assert WriterOk(s, v);
      forall m | 0 <= m < |Todo(s.writers[v])| ensures ChunkOk(s.disk, FindState(s, w).writers[v], m) {
        assert ChunkOk(s.disk, s.writers[v], m);
      }
    }
  }

  /** The chunk's key is in flight: the update joins the queue for that insert's mutex. */
  lemma FindWaits(s: State, w: nat)
    requires Inv(s) && Enabled(s, Find(w)) && s.writers[w].todo[0].key in s.cache.inserts
    ensures Inv(FindState(s, w))
  {
    hide CacheInv, AllWriters, AllLocks, AllReaders, AllLoads, OneUpdaterPerBlock, Data, Coherent, Memory;
    DataOf(s);
    FindWaitsReaders(s, w);
    FindWaitsRest(s, w);
    FindWaitsCoherent(s, w);
  }

  lemma FindWaitsCoherent(s: State, w: nat)
    requires Coherent(s) && Memory(s) && Enabled(s, Find(w)) && s.writers[w].todo[0].key in s.cache.inserts
    ensures Coherent(FindState(s, w)) && Memory(FindState(s, w))
  {
    var s' := FindState(s, w);
    forall k, i | Pending(s.writers, k, i) ensures Pending(s'.writers, k, i) {
      var v: nat, j: nat :| CoversAt(s.writers, v, j, k, i);
      assert CoversAt(s'.writers, v, j, k, i);
    }
  }

  lemma FindWaitsReaders(s: State, w: nat)
    requires Data(s) && Enabled(s, Find(w)) && s.writers[w].todo[0].key in s.cache.inserts
    ensures AllReaders(FindState(s, w)) && AllLoads(FindState(s, w))
  {
    var s' := FindState(s, w);
    forall u | u in s'.readers ensures ReaderOk(s', u) && LoadOk(s', u) {
      assert ReaderOk(s, u) && LoadOk(s, u);
      if s.readers[u].RHold? || s.readers[u].RLoaded? {
        var k, id := s.readers[u].k, s.readers[u].id;
        forall i | PendingFor(s.writers, k, i, id) ensures PendingFor(s'.writers, k, i, id) {
          var v: nat, j: nat :| CoversAt(s.writers, v, j, k, i) && WillReach(s.writers[v], j, id);
          assert CoversAt(s'.writers, v, j, k, i) && WillReach(s'.writers[v], j, id);
        }
        assert LoadFrame(s, s', u, k, id);
      }
      ReaderKept(s, s', u);
    }
  }

  lemma FindPatches(s: State, w: nat)
    requires Inv(s) && Enabled(s, Find(w)) && s.writers[w].todo[0].key !in s.cache.inserts
    ensures Inv(FindState(s, w))
  {
    DataOf(s);
    assert WriterOk(s, w);
    hide CacheInv, AllWriters, AllLocks, AllReaders, AllLoads, Coherent, OneUpdaterPerBlock, Memory, Data, WriterOk;
    FindPatchesData(s, w);
    FindPatchesRest(s, w);
  }

  lemma FindPatchesData(s: State, w: nat)
    requires Data(s) && Enabled(s, Find(w)) && s.writers[w].todo[0].key !in s.cache.inserts && WriterOk(s, w)
    ensures var s' := FindState(s, w); Coherent(s') && Memory(s') && AllReaders(s') && AllLoads(s')
  {
    var s' := FindState(s, w);
    HeadCoherent(s, s', w);
    forall t | t in s.readers && (s.readers[t].RHold? || s.readers[t].RLoaded?)
      ensures Holds(s', Reader(t), s.readers[t].id) && s.readers[t].k != s.writers[w].todo[0].key
    {
      assert ReaderOk(s, t);
    }
    hide AllLoads, Coherent, Memory, Apart;
    HeadReaders(s, s', w);
  }

  lemma FindPatchesRest(s: State, w: nat)
    requires AllWriters(s) && OneUpdaterPerBlock(s) && AllLocks(s)
    requires Enabled(s, Find(w)) && s.writers[w].todo[0].key !in s.cache.inserts
    ensures var s' := FindState(s, w); AllWriters(s') && OneUpdaterPerBlock(s') && AllLocks(s') && s'.cache == s.cache
  {
    hide AllWriters, AllLocks, OneUpdaterPerBlock;
    HeadWriters(s, FindState(s, w), w);
    LocksKept(s, FindState(s, w));
  }

  lemma FindStep(s: State, w: nat)
    requires Inv(s) && Enabled(s, Find(w))
    ensures Inv(FindState(s, w))
  {
    if s.writers[w].todo[0].key in s.cache.inserts {
      FindWaits(s, w);
    } else {
      FindPatches(s, w);
    }
  }

  // Lock by a writer

  lemma LockWReaders(s: State, w: nat)
    requires Data(s) && Enabled(s, LockW(w))
    ensures AllReaders(LockWState(s, w)) && AllLoads(LockWState(s, w))
  {
    var s' := LockWState(s, w);
    forall u | u in s'.readers ensures ReaderOk(s', u) && LoadOk(s', u) {
      assert ReaderOk(s, u) && LoadOk(s, u);
      if s.readers[u].RHold? || s.readers[u].RLoaded? {
        var k, id := s.readers[u].k, s.readers[u].id;
        forall i | PendingFor(s.writers, k, i, id) ensures PendingFor(s'.writers, k, i, id) {
          var v: nat, j: nat :| CoversAt(s.writers, v, j, k, i) && WillReach(s.writers[v], j, id);
          assert CoversAt(s'.writers, v, j, k, i) && WillReach(s'.writers[v], j, id);
        }
        assert LoadFrame(s, s', u, k, id);
      }
      ReaderKept(s, s', u);
    }
  }

  lemma LockWRest(s: State, w: nat)
    requires AllWriters(s) && OneUpdaterPerBlock(s) && AllLocks(s) && Enabled(s, LockW(w))
    ensures AllWriters(LockWState(s, w)) && OneUpdaterPerBlock(LockWState(s, w)) && AllLocks(LockWState(s, w))
  {
    hide AllWriters, AllLocks, OneUpdaterPerBlock;
    SameTodo(s, LockWState(s, w));
    LockWWriters(s, w);
    LockWLocks(s, w);
  }

  /** The chunks still to do are the same. */
  lemma SameTodo(s: State, s': State)
    requires OneUpdaterPerBlock(s) && s'.writers.Keys == s.writers.Keys
    requires forall v :: v in s.writers ==> Todo(s'.writers[v]) == Todo(s.writers[v])
    ensures OneUpdaterPerBlock(s')
  {
    hide Todo, ApartKeys;
    forall v, v' | v in s'.writers && v' in s'.writers && v != v'
        ensures ApartKeys(Todo(s'.writers[v]), Todo(s'.writers[v'])) {
      assert ApartKeys(Todo(s.writers[v]), Todo(s.writers[v']));
    }
  }

  lemma LockWWriters(s: State, w: nat)
    requires AllWriters(s) && Enabled(s, LockW(w))
    ensures AllWriters(LockWState(s, w))
  {
    forall v | v in s.writers ensures WriterOk(LockWState(s, w), v) {
      assert WriterOk(s, v);
      forall m | 0 <= m < |Todo(s.writers[v])| ensures ChunkOk(s.disk, LockWState(s, w).writers[v], m) {
        assert ChunkOk(s.disk, s.writers[v], m);
      }
    }
  }

  lemma LockWLocks(s: State, w: nat)
    requires AllLocks(s) && Enabled(s, LockW(w))
    ensures AllLocks(LockWState(s, w))
  {
    var s' := LockWState(s, w);
    forall id | id in s'.locks ensures LockOk(s', id) {
      assert id in s.locks ==> LockOk(s, id);
    }
  }

  lemma LockWStep(s: State, w: nat)
    requires Inv(s) && Enabled(s, LockW(w))
    ensures Inv(LockWState(s, w))
  {
    BuffersApart(s.cache);
    var s' := LockWState(s, w);
    LockWReaders(s, w);
    LockWRest(s, w);
    forall k, i | Pending(s.writers, k, i) ensures Pending(s'.writers, k, i) {
      var v: nat, j: nat :| CoversAt(s.writers, v, j, k, i);
      assert CoversAt(s'.writers, v, j, k, i);
    }
  }

  // Patch under the insert mutex

  /** No reader is loading under the mutex that the update holds. */
  lemma PatchReadersHold(s: State, w: nat)
    requires AllReaders(s) && Enabled(s, PatchCell(w)) && WriterOk(s, w)
    ensures forall t :: t in s.readers && (s.readers[t].RHold? || s.readers[t].RLoaded?) ==>
              Holds(PatchState(s, w), Reader(t), s.readers[t].id) && !WillReach(s.writers[w], 0, s.readers[t].id)
  {
    forall t | t in s.readers && (s.readers[t].RHold? || s.readers[t].RLoaded?)
      ensures Holds(PatchState(s, w), Reader(t), s.readers[t].id)
    {
      assert ReaderOk(s, t);
    }
  }

  lemma PatchStep(s: State, w: nat)
    requires Inv(s) && Enabled(s, PatchCell(w))
    ensures Inv(PatchState(s, w))
  {
    BuffersApart(s.cache);
    assert WriterOk(s, w) && Data(s);
    hide CacheInv, AllWriters, AllLocks, AllReaders, AllLoads, Coherent, OneUpdaterPerBlock, Memory, Data, Apart,
        WriterOk;
    PatchData(s, w);
    PatchRest(s, w);
  }

  lemma PatchData(s: State, w: nat)
    requires Data(s) && Enabled(s, PatchCell(w)) && WriterOk(s, w)
    ensures var s' := PatchState(s, w); Coherent(s') && Memory(s') && AllReaders(s') && AllLoads(s')
  {
    PatchReadersHold(s, w);
    hide AllReaders, AllLoads, Coherent, Memory, Apart;
    HeadCoherent(s, PatchState(s, w), w);
    HeadReaders(s, PatchState(s, w), w);
  }

  lemma PatchRest(s: State, w: nat)
    requires AllWriters(s) && OneUpdaterPerBlock(s) && AllLocks(s) && Enabled(s, PatchCell(w)) && WriterOk(s, w)
    ensures var s' := PatchState(s, w); AllWriters(s') && OneUpdaterPerBlock(s') && AllLocks(s')
  {
    hide AllWriters, AllLocks, OneUpdaterPerBlock;
    HeadWriters(s, PatchState(s, w), w);
    LocksReleased(s, PatchState(s, w), s.writers[w].id);
  }

  // ----- Whole runs -----

  /** Every step of every thread keeps the invariant. */
  lemma StepKeeps(s: State, step: Step)
    requires Inv(s) && Enabled(s, step)
    ensures Inv(Apply(s, step))
  {
    match step
    case Look(t, k, id, addr, junk) => LookStep(s, t, k, id, addr, junk);
    case Lock(t) => LockStep(s, t);
    case Load(t, i) => LoadStep(s, t, i);
    case Product(t) => ProductStep(s, t);
    case Publish(t) => PublishStep(s, t);
    case Write(w, chunks) => WriteStep(s, w, chunks);
    case WriteByte(w, j, i) => WriteByteStep(s, w, j, i);
    case Written(w) => WrittenStep(s, w);
    case Find(w) => FindStep(s, w);
    case LockW(w) => LockWStep(s, w);
    case PatchCell(w) => PatchStep(s, w);
    case Evict(k) => EvictStep(s, k);
    case Alter(maxSize, maxOverflow) => AlterStep(s, maxSize, maxOverflow);
  }

  ghost predicate IsStep(s: State, step: Step, s': State) {
    Inv(s) ==> Enabled(s, step) && s' == Apply(s, step)
  }

  ghost predicate IsRun(states: seq<State>, steps: seq<Step>) {
    && |states| == |steps| + 1 && Inv(states[0])
    && forall i :: 0 <= i < |steps| ==> IsStep(states[i], steps[i], states[i + 1])
  }

  /** The invariant holds in every state of every run. */
  lemma {:induction false} RunKeeps(states: seq<State>, steps: seq<Step>, n: nat)
    requires IsRun(states, steps) && n <= |steps|
    ensures Inv(states[n])
    decreases n
  {
    hide Inv;
    if n > 0 {
      RunKeeps(states, steps, n - 1);
      var s, step, s' := states[n - 1], steps[n - 1], states[n];
      assert IsStep(s, step, s');
      KeepsAcross(s, step, s');
    }
  }

  lemma KeepsAcross(s: State, step: Step, s': State)
    requires Inv(s) && IsStep(s, step, s')
    ensures Inv(s')
  {
    StepKeeps(s, step);
  }

  /** An empty cache with idle threads satisfies the invariant. */
  lemma StartKeeps(maxSize: nat, maxOverflow: nat, maxCells: int, cellSize: nat, disk: map<Key, Bytes>,
      readers: set<nat>, writers: set<nat>)
    requires forall k :: k in disk ==> |disk[k]| <= cellSize
    ensures Inv(State(Cache(map[], [], 0, maxSize, maxOverflow, map[], map[], Pool([], 0, maxCells, {})), cellSize,
            map[], disk,
                      map t | t in readers :: RIdle, map w | w in writers :: WIdle, map[]))
  {
  }

  /**
    In every state of every interleaving a cached block agrees with the disk block on each byte
    that no unfinished update covers; with no update under way it agrees on all of them.
   */
  lemma CachedBlocksAgree(states: seq<State>, steps: seq<Step>, n: nat, k: Key)
    requires IsRun(states, steps) && n <= |steps| && k in states[n].cache.cells
    ensures var s := states[n];
            && k in s.disk && s.cache.cells[k].buf in s.mem && |s.disk[k]| <= |s.mem[s.cache.cells[k].buf]|
            && (forall i :: 0 <= i < |s.disk[k]| && !Pending(s.writers, k, i) ==>
               s.mem[s.cache.cells[k].buf][i] == s.disk[k][i])
            && (!Busy(s, k) ==> s.mem[s.cache.cells[k].buf][..|s.disk[k]|] == s.disk[k])
  {
    RunKeeps(states, steps, n);
    var s := states[n];
    if !Busy(s, k) {
      forall i: nat | i < |s.disk[k]| ensures !Pending(s.writers, k, i) {
        NotBusyNotPending(s, k, i);
      }
    }
  }

  lemma NotBusyNotPending(s: State, k: Key, i: nat)
    requires !Busy(s, k)
    ensures !Pending(s.writers, k, i)
  {
    forall w: nat, j: nat | w in s.writers && j < |Todo(s.writers[w])| ensures Todo(s.writers[w])[j].key != k {
    }
  }

  // ----- Locks -----

  /** A step that finishes work already begun. */
  predicate Internal(step: Step) {
    match step
    case Look(_, _, _, _, _) => false
    case Write(_, _) => false
    case Evict(_) => false
    case Alter(_, _) => false
    case _ => true
  }

  predicate Working(s: State) {
    (exists t :: t in s.readers && !s.readers[t].RIdle?) || (exists w :: w in s.writers && !s.writers[w].WIdle?)
  }

  /** The holder of an insert mutex is never blocked: it takes no further insert mutex. */
  lemma HolderMoves(s: State, id: InfoId) returns (step: Step)
    requires Inv(s) && id in s.locks
    ensures Internal(step) && Enabled(s, step)
  {
    assert LockOk(s, id);
    match s.locks[id]
    case Writer(w) =>
      assert WriterOk(s, w);
      step := PatchCell(w);
    case Reader(t) =>
      assert ReaderOk(s, t);
      if s.readers[t].RLoaded? {
        step := Publish(t);
      } else if i :| 0 <= i < |s.disk[s.readers[t].k]| && i !in s.readers[t].got {
        step := Load(t, i);
      } else {
        step := Product(t);
      }
  }

  /** No deadlock: as long as some thread is inside an operation, some such thread can move. */
  lemma NoDeadlock(s: State) returns (step: Step)
    requires Inv(s) && Working(s)
    ensures Internal(step) && Enabled(s, step)
  {
    if id :| id in s.locks {
      step := HolderMoves(s, id);
    } else if t :| t in s.readers && !s.readers[t].RIdle? {
      assert ReaderOk(s, t);
      step := Lock(t);
    } else {
      var w :| w in s.writers && !s.writers[w].WIdle?;
      assert WriterOk(s, w);
      if s.writers[w].WWrite? {
        if x :| x in Unwritten(s.writers[w].todo, s.writers[w].done) {
          assert ChunkOk(s.disk, s.writers[w], x.0);
          step := WriteByte(w, x.0, x.1);
        } else {
          step := Written(w);
        }
      } else {
        step := if s.writers[w].WFind? then Find(w) else LockW(w);
      }
    }
  }

  function Missing(block: Bytes, got: set<nat>): set<nat> {
    set i: nat | i < |block| && i !in got
  }

  predicate Known(s: State, th: Thread) {
    match th
    case Reader(t) => t in s.readers && (s.readers[t].RHold? ==> s.readers[t].k in s.disk)
    case Writer(w) => w in s.writers
  }

  /** What a thread still has to do before it is idle. */
  function Work(s: State, th: Thread): nat
    requires Known(s, th)
  {
    match th
    case Reader(t) =>
      (match s.readers[t]
       case RIdle => 0
       case RLoaded(_, _) => 1
       case RHold(k, _, got) => 2 + |Missing(s.disk[k], got)|
       case RWant(_, _) => 3 + s.cellSize)
    case Writer(w) =>
      (match s.writers[w]
       case WIdle => 0
       case WWrite(todo, done) => 3 * |todo| + 1 + |Unwritten(todo, done)|
       case WFind(todo) => 3 * |todo|
       case WWait(todo, _) => if todo == [] then 0 else 3 * |todo| - 1
       case WHold(todo, _) => if todo == [] then 0 else 3 * |todo| - 2)
  }

  function Mover(step: Step): Thread
    requires Internal(step)
  {
    match step
    case Lock(t) => Reader(t)
    case Load(t, _) => Reader(t)
    case Product(t) => Reader(t)
    case Publish(t) => Reader(t)
    case WriteByte(w, _, _) => Writer(w)
    case Written(w) => Writer(w)
    case Find(w) => Writer(w)
    case LockW(w) => Writer(w)
    case PatchCell(w) => Writer(w)
  }

  lemma {:induction false} MissingAll(block: Bytes)
    ensures |Missing(block, {})| == |block|
  {
    if block == [] {
      assert Missing(block, {}) == {};
    } else {
      var n := |block| - 1;
      MissingAll(block[..n]);
      assert Missing(block, {}) == Missing(block[..n], {}) + {n};
    }
  }

  lemma ReaderFinishes(s: State, t: nat, step: Step)
    requires AllReaders(s) && Memory(s) && Listed(s.cache) && Internal(step) && Mover(step) == Reader(t) &&
             Enabled(s, step)
    ensures t in Apply(s, step).readers && Apply(s, step).disk == s.disk && ReaderOk(s, t)
    ensures Work(Apply(s, step), Reader(t)) < Work(s, Reader(t))
  {
    assert ReaderOk(s, t);
    match step
    case Lock(_) => MissingAll(s.disk[s.readers[t].k]);
    case Load(_, i) =>
      var k, got := s.readers[t].k, s.readers[t].got;
      assert Missing(s.disk[k], got) == Missing(s.disk[k], got + {i}) + {i};
    case _ =>
  }

  lemma WriterFinishes(s: State, w: nat, step: Step)
    requires AllReaders(s) && AllWriters(s) && Listed(s.cache) && Internal(step) && Mover(step) == Writer(w) &&
             Enabled(s, step)
    ensures w in Apply(s, step).writers && Work(Apply(s, step), Writer(w)) < Work(s, Writer(w))
  {
    assert WriterOk(s, w);
    if step.WriteByte? {
      hide AllReaders, AllWriters, Listed, WriterOk;
      OneByteLess(s.writers[w].todo, s.writers[w].done, step.j, step.i);
      hide Unwritten;
    } else {
      hide Unwritten, AllReaders, AllWriters, Listed;
      AfterShifts(Todo(s.writers[w]));
    }
  }

  lemma OneByteLess(todo: seq<Chunk>, done: set<(nat, nat)>, j: nat, i: nat)
    requires (j, i) in Unwritten(todo, done)
    ensures |Unwritten(todo, done + {(j, i)})| == |Unwritten(todo, done)| - 1
  {
    assert Unwritten(todo, done) == Unwritten(todo, done + {(j, i)}) + {(j, i)};
  }

  lemma SameMissing(a: Bytes, b: Bytes, got: set<nat>)
    requires |a| == |b|
    ensures Missing(a, got) == Missing(b, got)
  {
  }

  lemma OthersWait(s: State, step: Step, th: Thread)
    requires AllReaders(s) && Listed(s.cache) && Internal(step) && Enabled(s, step) && th != Mover(step) && Known(s, th)
    ensures Known(Apply(s, step), th) && Work(Apply(s, step), th) == Work(s, th)
  {
    hide Enabled, Apply, AllReaders, Listed, Internal, Mover, Missing;
    OthersSame(s, step, th);
    if th.Reader? && s.readers[th.t].RHold? {
      SameMissing(s.disk[s.readers[th.t].k], Apply(s, step).disk[s.readers[th.t].k], s.readers[th.t].got);
    }
  }

  lemma OthersSame(s: State, step: Step, th: Thread)
    requires AllReaders(s) && Listed(s.cache) && Internal(step) && Enabled(s, step) && th != Mover(step)
    ensures var s' := Apply(s, step);
            && s'.cellSize == s.cellSize
            && (forall k :: k in s.disk ==> k in s'.disk && |s'.disk[k]| == |s.disk[k]|)
            && (th.Reader? && th.t in s.readers ==> th.t in s'.readers && s'.readers[th.t] == s.readers[th.t])
            && (th.Writer? && th.w in s.writers ==> th.w in s'.writers && s'.writers[th.w] == s.writers[th.w])
  {
  }

  predicate AllKnown(s: State, threads: seq<Thread>) {
    forall i :: 0 <= i < |threads| ==> Known(s, threads[i])
  }

  function TotalWork(s: State, threads: seq<Thread>): nat
    requires AllKnown(s, threads)
    decreases |threads|
  {
    if threads == [] then 0
    else
      assert forall i :: 0 <= i < |threads| - 1 ==> threads[1..][i] == threads[i + 1];
      Work(s, threads[0]) + TotalWork(s, threads[1..])
  }

  /** An internal step of one of these threads leaves them less to do. */
  lemma OneStepLess(s: State, step: Step, th: Thread)
    requires Inv(s) && Internal(step) && Enabled(s, step) && Known(s, th)
    ensures Known(Apply(s, step), th)
    ensures if th == Mover(step) then Work(Apply(s, step), th) < Work(s, th)
            else Work(Apply(s, step), th) == Work(s, th)
  {
    if th != Mover(step) {
      OthersWait(s, step, th);
    } else if th.Reader? {
      StepKeeps(s, step);
      ReaderFinishes(s, th.t, step);
      assert ReaderOk(Apply(s, step), th.t);
    } else {
      WriterFinishes(s, th.w, step);
    }
  }

  lemma {:induction false} StepShrinks(s: State, step: Step, threads: seq<Thread>)
    requires Inv(s) && Internal(step) && Enabled(s, step) && AllKnown(s, threads)
    ensures AllKnown(Apply(s, step), threads)
    ensures TotalWork(Apply(s, step), threads) <= TotalWork(s, threads) - if Mover(step) in threads then 1 else 0
    decreases |threads|
  {
    assert AllReaders(s) && Listed(s.cache);
    hide Inv, Enabled, Apply, Known, Work;
    forall i | 0 <= i < |threads| ensures Known(Apply(s, step), threads[i]) {
      OneStepLess(s, step, threads[i]);
    }
    if threads != [] {
      assert forall i :: 0 <= i < |threads| - 1 ==> threads[1..][i] == threads[i + 1];
      OneStepLess(s, step, threads[0]);
      StepShrinks(s, step, threads[1..]);
      assert Mover(step) in threads ==> Mover(step) == threads[0] || Mover(step) in threads[1..];
    }
  }

  /** `threads` names every thread of the state. */
  ghost predicate Names(threads: seq<Thread>, s: State) {
    && (forall t :: t in s.readers <==> Reader(t) in threads)
    && (forall w :: w in s.writers <==> Writer(w) in threads)
  }

  lemma NamesKnown(s: State, threads: seq<Thread>)
    requires AllReaders(s) && Names(threads, s)
    ensures AllKnown(s, threads)
  {
    forall i | 0 <= i < |threads| ensures Known(s, threads[i]) {
      assert threads[i] in threads;
      if threads[i].Reader? { assert ReaderOk(s, threads[i].t); }
    }
  }

  lemma MoverNamed(s: State, step: Step, threads: seq<Thread>)
    requires AllReaders(s) && Listed(s.cache) && Internal(step) && Enabled(s, step) && Names(threads, s)
    ensures Mover(step) in threads && Names(threads, Apply(s, step))
  {
    assert Apply(s, step).readers.Keys == s.readers.Keys && Apply(s, step).writers.Keys == s.writers.Keys;
  }

  /**
    Threads that start nothing new all become idle: a run of internal steps is never longer than the
    work of all threads, and whenever it cannot be made longer, every thread is idle.
   */
  lemma {:induction false} WorkEnds(states: seq<State>, steps: seq<Step>, threads: seq<Thread>)
    requires IsRun(states, steps) && Names(threads, states[0])
    requires forall i :: 0 <= i < |steps| ==> Internal(steps[i])
    ensures AllKnown(states[0], threads) && |steps| <= TotalWork(states[0], threads)
    ensures Working(states[|steps|]) ==> exists step :: Internal(step) && Enabled(states[|steps|], step)
    decreases |steps|, 1
  {
    var s := states[0];
    NamesKnown(s, threads);
    if steps == [] {
      if Working(s) { var step := NoDeadlock(s); }
    } else {
      assert IsStep(s, steps[0], states[1]);
      WorkEndsFrom(states, steps, threads);
    }
  }

  lemma WorkEndsFrom(states: seq<State>, steps: seq<Step>, threads: seq<Thread>)
    requires IsRun(states, steps) && Names(threads, states[0]) && AllKnown(states[0], threads) && steps != []
    requires forall i :: 0 <= i < |steps| ==> Internal(steps[i])
    ensures |steps| <= TotalWork(states[0], threads)
    ensures Working(states[|steps|]) ==> exists step :: Internal(step) && Enabled(states[|steps|], step)
    decreases |steps|, 0
  {
    hide Working, TotalWork;
    FirstStep(states, steps, threads);
    WorkEnds(states[1..], steps[1..], threads);
  }

  lemma FirstStep(states: seq<State>, steps: seq<Step>, threads: seq<Thread>)
    requires IsRun(states, steps) && steps != [] && Internal(steps[0])
    requires Names(threads, states[0]) && AllKnown(states[0], threads)
    ensures Names(threads, states[1]) && AllKnown(states[1], threads) && IsRun(states[1..], steps[1..])
    ensures TotalWork(states[1], threads) < TotalWork(states[0], threads)
  {
    var s, step := states[0], steps[0];
    assert IsStep(s, step, states[1]);
    StepShrinks(s, step, threads);
    MoverNamed(s, step, threads);
    hide Names, TotalWork, AllKnown, Internal;
    RunTail(states, steps);
  }

  lemma RunTail(states: seq<State>, steps: seq<Step>)
    requires IsRun(states, steps) && steps != []
    ensures IsRun(states[1..], steps[1..])
  {
    RunKeeps(states, steps, 1);
    hide Inv, IsStep;
    forall i | 0 <= i < |steps| - 1 ensures IsStep(states[1..][i], steps[1..][i], states[1..][i + 1]) {
      assert IsStep(states[i + 1], steps[i + 1], states[i + 2]);
    }
  }
}
