/**
  What readers and writers do to disk and cache, told from the steps of a run alone: which writes were
  begun, which of their bytes went to disk, and what is then found there and in the cached blocks.
 */
module CacheHistory {
  import opened LruCache
  import opened FileBytes
  import opened CacheProtocol

  /** The chunks of the write that `w` began last in the first `n` steps, or was at when they started. */
  function Given(start: seq<Chunk>, steps: seq<Step>, n: nat, w: nat): seq<Chunk>
    requires n <= |steps|
  {
    if n == 0 then start
    else if steps[n - 1].Write? && steps[n - 1].w == w then steps[n - 1].chunks
    else Given(start, steps, n - 1, w)
  }

  /** The bytes of that write that have gone to disk since. */
  function Gone(start: set<(nat, nat)>, steps: seq<Step>, n: nat, w: nat): set<(nat, nat)>
    requires n <= |steps|
  {
    if n == 0 then start
    else if steps[n - 1].Write? && steps[n - 1].w == w then {}
    else if steps[n - 1].WriteByte? && steps[n - 1].w == w then
      Gone(start, steps, n - 1, w) + {(steps[n - 1].j, steps[n - 1].i)}
    else Gone(start, steps, n - 1, w)
  }

  function StartOf(s: State, w: nat): seq<Chunk> {
    if w in s.writers then Todo(s.writers[w]) else []
  }

  function GoneAt(s: State, w: nat): set<(nat, nat)> {
    if w in s.writers && s.writers[w].WWrite? then s.writers[w].done else {}
  }

  /** Step `m` writes byte `x` of block `k`. */
  predicate Hits(s: State, steps: seq<Step>, m: nat, k: Key, x: int)
    requires m < |steps|
  {
    match steps[m]
    case WriteByte(w, j, i) =>
      var chunks := Given(StartOf(s, w), steps, m, w);
      j < |chunks| && i < |chunks[j].data| && chunks[j].key == k && chunks[j].off + i == x
    case _ => false
  }

  function HitBy(s: State, steps: seq<Step>, m: nat, k: Key, x: int): Byte
    requires m < |steps| && Hits(s, steps, m, k, x)
  {
    Given(StartOf(s, steps[m].w), steps, m, steps[m].w)[steps[m].j].data[steps[m].i]
  }

  /** The byte written there last, or the one that was there at the start. */
  function DiskByte(s: State, steps: seq<Step>, n: nat, k: Key, x: nat): Byte
    requires n <= |steps| && k in s.disk && x < |s.disk[k]|
  {
    if n == 0 then s.disk[k][x]
    else if Hits(s, steps, n - 1, k, x) then HitBy(s, steps, n - 1, k, x)
    else DiskByte(s, steps, n - 1, k, x)
  }

  /** The disk is as large as at the start and holds in every place the byte written there last. */
  ghost predicate DiskTold(s: State, steps: seq<Step>, n: nat, s': State)
    requires n <= |steps|
  {
    && s'.disk.Keys == s.disk.Keys
    && (forall k :: k in s.disk ==> |s'.disk[k]| == |s.disk[k]|)
    && (forall k, x: nat :: k in s.disk && x < |s.disk[k]| ==> s'.disk[k][x] == DiskByte(s, steps, n, k, x))
  }

  /** A writer knows its chunks and what of them has gone to disk. */
  predicate WriterTold(s: State, steps: seq<Step>, n: nat, s': State, w: nat)
    requires n <= |steps| && w in s'.writers
  {
    if s'.writers[w].WWrite? then
      s'.writers[w].todo == Given(StartOf(s, w), steps, n, w) && s'.writers[w].done == Gone(GoneAt(s, w), steps, n, w)
    else
      Began(steps, n, w) || (w in s.writers && s.writers[w].WWrite?) ==>
        Unwritten(Given(StartOf(s, w), steps, n, w), Gone(GoneAt(s, w), steps, n, w)) == {}
  }

  predicate Began(steps: seq<Step>, n: nat, w: nat)
    requires n <= |steps|
  {
    exists m :: 0 <= m < n && steps[m].Write? && steps[m].w == w
  }

  ghost predicate Told(s: State, steps: seq<Step>, n: nat, s': State)
    requires n <= |steps|
  {
    && s'.writers.Keys == s.writers.Keys
    && DiskTold(s, steps, n, s')
    && forall w :: w in s'.writers ==> WriterTold(s, steps, n, s', w)
  }

  lemma {:induction false} HistoryTold(states: seq<State>, steps: seq<Step>, n: nat)
    requires IsRun(states, steps) && n <= |steps|
    ensures Inv(states[n]) && Told(states[0], steps, n, states[n])
    decreases n
  {
    hide Inv, Told;
    RunKeeps(states, steps, n);
    if n == 0 {
      StartTold(states[0], steps);
    } else {
      HistoryTold(states, steps, n - 1);
      assert IsStep(states[n - 1], steps[n - 1], states[n]);
      Moves(states[n - 1], steps[n - 1]);
      ToldNext(states[0], steps, n, states[n - 1], states[n]);
    }
  }

  lemma StartTold(s: State, steps: seq<Step>)
    ensures Told(s, steps, 0, s)
  {
  }

  /** What a step does to the disk: one byte of one chunk, if any. */
  predicate DiskMoves(s: State, step: Step, disk: map<Key, Bytes>) {
    match step
    case WriteByte(w, j, i) =>
      && w in s.writers && s.writers[w].WWrite? && j < |s.writers[w].todo|
      && var c := s.writers[w].todo[j];
      && i < |c.data| && c.key in s.disk && c.off + i < |s.disk[c.key]|
      && disk == s.disk[c.key := s.disk[c.key][c.off + i := c.data[i]]]
    case _ => disk == s.disk
  }

  /** What a step does to the writers. */
  predicate WriterMoves(s: State, step: Step, writers: map<nat, WriterPc>) {
    match step
    case Write(w, chunks) => writers == s.writers[w := WWrite(chunks, {})]
    case WriteByte(w, j, i) =>
      w in s.writers && s.writers[w].WWrite? &&
      writers == s.writers[w := WWrite(s.writers[w].todo, s.writers[w].done + {(j, i)})]
    case Written(w) =>
      && w in s.writers && s.writers[w].WWrite? && Unwritten(s.writers[w].todo, s.writers[w].done) == {}
      && w in writers && !writers[w].WWrite? && writers == s.writers[w := writers[w]]
    case _ =>
      writers.Keys == s.writers.Keys &&
      forall w :: w in writers ==> writers[w] == s.writers[w] || (!writers[w].WWrite? && !s.writers[w].WWrite?)
  }

  lemma Moves(s: State, step: Step)
    requires Inv(s) && Enabled(s, step)
    ensures AllReaders(s) && Listed(s.cache)
    ensures DiskMoves(s, step, Apply(s, step).disk) && WriterMoves(s, step, Apply(s, step).writers)
    ensures Apply(s, step).writers.Keys == s.writers.Keys
  {
    assert AllReaders(s) && Listed(s.cache);
    hide Inv;
    MovesDisk(s, step);
    MovesWriters(s, step);
    hide Apply, Enabled, DiskMoves;
  }

  lemma MovesDisk(s: State, step: Step)
    requires AllReaders(s) && Listed(s.cache) && Enabled(s, step)
    ensures DiskMoves(s, step, Apply(s, step).disk)
  {
    hide AllReaders, Listed, Lookup, Finish, EvictKey, Resize, Patched;
  }

  lemma MovesWriters(s: State, step: Step)
    requires AllReaders(s) && Listed(s.cache) && Enabled(s, step)
    ensures WriterMoves(s, step, Apply(s, step).writers)
  {
    hide AllReaders, Listed, Lookup, Finish, EvictKey, Resize, Patched, Unwritten;
  }

  lemma ToldNext(s: State, steps: seq<Step>, n: nat, mid: State, s': State)
    requires 0 < n <= |steps| && Told(s, steps, n - 1, mid)
    requires DiskMoves(mid, steps[n - 1], s'.disk) && WriterMoves(mid, steps[n - 1], s'.writers)
    requires s'.writers.Keys == mid.writers.Keys
    ensures Told(s, steps, n, s')
  {
    hide DiskTold, WriterTold;
    forall w | w in mid.writers ensures WriterTold(s, steps, n - 1, mid, w) {
    }
    DiskNext(s, steps, n, mid, s');
    forall w | w in s'.writers ensures WriterTold(s, steps, n, s', w) {
      WriterNext(s, steps, n, mid, s', w);
    }
  }

  lemma DiskNext(s: State, steps: seq<Step>, n: nat, mid: State, s': State)
    requires 0 < n <= |steps| && DiskTold(s, steps, n - 1, mid) && DiskMoves(mid, steps[n - 1], s'.disk)
    requires forall w :: w in mid.writers ==> WriterTold(s, steps, n - 1, mid, w)
    ensures DiskTold(s, steps, n, s')
  {
    if steps[n - 1].WriteByte? { assert WriterTold(s, steps, n - 1, mid, steps[n - 1].w); }
    hide WriterTold, Gone;
  }

  lemma WriterNext(s: State, steps: seq<Step>, n: nat, mid: State, s': State, w: nat)
    requires 0 < n <= |steps| && w in mid.writers && w in s'.writers
    requires WriterTold(s, steps, n - 1, mid, w) && WriterMoves(mid, steps[n - 1], s'.writers)
    ensures WriterTold(s, steps, n, s', w)
  {
    hide Unwritten;
    assert Began(steps, n, w) <==> Began(steps, n - 1, w) || (steps[n - 1].Write? && steps[n - 1].w == w);
    hide Began;
  }

  // ----- The steps read off -----

  /** The last write that `w` began in the first `n` steps is step `m`. */
  predicate LastWrite(steps: seq<Step>, n: nat, m: nat, w: nat) {
    && m < n <= |steps| && steps[m].Write? && steps[m].w == w
    && forall q :: m < q < n ==> !(steps[q].Write? && steps[q].w == w)
  }

  lemma {:induction false} GivenIs(start: seq<Chunk>, steps: seq<Step>, n: nat, m: nat, w: nat)
    requires LastWrite(steps, n, m, w)
    ensures Given(start, steps, n, w) == steps[m].chunks
    decreases n
  {
    if m < n - 1 { GivenIs(start, steps, n - 1, m, w); }
  }

  lemma {:induction false} GoneIs(start: set<(nat, nat)>, steps: seq<Step>, n: nat, m: nat, w: nat, j: nat, i: nat)
    requires LastWrite(steps, n, m, w) && (j, i) in Gone(start, steps, n, w)
    ensures exists q :: m < q < n && steps[q] == WriteByte(w, j, i)
    decreases n
  {
    if m < n - 1 && steps[n - 1] != WriteByte(w, j, i) { GoneIs(start, steps, n - 1, m, w, j, i); }
  }

  /** The last step that hits a byte decides it. */
  lemma {:induction false} LastHitIs(s: State, steps: seq<Step>, n: nat, m: nat, k: Key, x: nat)
    requires m < n <= |steps| && k in s.disk && x < |s.disk[k]| && Hits(s, steps, m, k, x)
    requires forall q :: m < q < n ==> !Hits(s, steps, q, k, x)
    ensures DiskByte(s, steps, n, k, x) == HitBy(s, steps, m, k, x)
    decreases n
  {
    if m < n - 1 { LastHitIs(s, steps, n - 1, m, k, x); }
  }

  lemma {:induction false} NoHit(s: State, steps: seq<Step>, n: nat, k: Key, x: nat)
    requires n <= |steps| && k in s.disk && x < |s.disk[k]| && forall q :: 0 <= q < n ==> !Hits(s, steps, q, k, x)
    ensures DiskByte(s, steps, n, k, x) == s.disk[k][x]
    decreases n
  {
    if n > 0 { NoHit(s, steps, n - 1, k, x); }
  }

  // ----- Results -----

  /** A writer that is past its write has sent every byte of every chunk to disk. */
  lemma AllBytesWritten(states: seq<State>, steps: seq<Step>, n: nat, m: nat, w: nat)
    requires IsRun(states, steps) && LastWrite(steps, n, m, w)
    requires w in states[n].writers && !states[n].writers[w].WWrite?
    ensures forall j, i :: 0 <= j < |steps[m].chunks| && 0 <= i < |steps[m].chunks[j].data| ==>
              exists q :: m < q < n && steps[q] == WriteByte(w, j, i)
  {
    assert |states| == |steps| + 1;
    hide IsRun;
    HistoryTold(states, steps, n);
    assert WriterTold(states[0], steps, n, states[n], w) && Began(steps, n, w);
    hide Told, Inv;
    var chunks := steps[m].chunks;
    GivenIs(StartOf(states[0], w), steps, n, m, w);
    forall j, i | 0 <= j < |chunks| && 0 <= i < |chunks[j].data|
      ensures exists q :: m < q < n && steps[q] == WriteByte(w, j, i)
    {
      assert (j, i) !in Unwritten(chunks, Gone(GoneAt(states[0], w), steps, n, w));
      GoneIs(GoneAt(states[0], w), steps, n, m, w, j, i);
    }
  }

  /** The cached block holds the bytes written last, but for those of unfinished updates. */
  ghost predicate BlockTold(s: State, steps: seq<Step>, n: nat, s': State, k: Key)
    requires n <= |steps|
  {
    && k in s.disk && k in s'.cache.cells && s'.cache.cells[k].buf in s'.mem
    && |s.disk[k]| <= |s'.mem[s'.cache.cells[k].buf]|
    && forall x: nat :: x < |s.disk[k]| && !Pending(s'.writers, k, x) ==>
         s'.mem[s'.cache.cells[k].buf][x] == DiskByte(s, steps, n, k, x)
  }

  /** The main result: a cached block holds the bytes written last, but for those of unfinished updates. */
  lemma CachedBytesTold(states: seq<State>, steps: seq<Step>, n: nat, k: Key)
    requires IsRun(states, steps) && n <= |steps| && k in states[n].cache.cells
    ensures BlockTold(states[0], steps, n, states[n], k)
    ensures (forall w :: w in states[n].writers ==> states[n].writers[w].WIdle?) ==>
            forall x: nat :: x < |states[0].disk[k]| ==>
              states[n].mem[states[n].cache.cells[k].buf][x] == DiskByte(states[0], steps, n, k, x)
  {
    assert |states| == |steps| + 1;
    CachedBlocksAgree(states, steps, n, k);
    HistoryTold(states, steps, n);
    hide IsRun, Inv, BlockTold, DiskTold, WriterTold, Pending, Busy;
    BlockFrom(states[0], steps, n, states[n], k);
    if forall w :: w in states[n].writers ==> states[n].writers[w].WIdle? {
      IdleBlock(states[0], steps, n, states[n], k);
    }
  }

  lemma BlockFrom(s: State, steps: seq<Step>, n: nat, s': State, k: Key)
    requires n <= |steps| && DiskTold(s, steps, n, s') && k in s'.cache.cells && k in s'.disk
    requires s'.cache.cells[k].buf in s'.mem && |s'.disk[k]| <= |s'.mem[s'.cache.cells[k].buf]|
    requires forall i :: 0 <= i < |s'.disk[k]| && !Pending(s'.writers, k, i) ==>
               s'.mem[s'.cache.cells[k].buf][i] == s'.disk[k][i]
    ensures BlockTold(s, steps, n, s', k)
  {
    hide Pending, DiskByte;
  }

  lemma IdleBlock(s: State, steps: seq<Step>, n: nat, s': State, k: Key)
    requires n <= |steps| && BlockTold(s, steps, n, s', k) && forall w :: w in s'.writers ==> s'.writers[w].WIdle?
    ensures forall x: nat :: x < |s.disk[k]| ==>
              s'.mem[s'.cache.cells[k].buf][x] == DiskByte(s, steps, n, k, x)
  {
    hide DiskByte;
  }

  /** A reader that publishes leaves its block cached, with the bytes written last. */
  lemma PublishCaches(states: seq<State>, steps: seq<Step>, n: nat, t: nat)
    requires IsRun(states, steps) && 0 < n <= |steps| && steps[n - 1] == Publish(t)
    ensures t in states[n - 1].readers && states[n - 1].readers[t].RLoaded?
    ensures var k, s, s' := states[n - 1].readers[t].k, states[n - 1], states[n];
            && t in s'.readers && s'.readers[t].RIdle? && k !in s'.cache.inserts
            && (s.cache.maxSize > 0 ==>
                 k in s'.cache.cells && s'.cache.queue != [] && s'.cache.queue[|s'.cache.queue| - 1] == k &&
                 BlockTold(states[0], steps, n, s', k))
  {
    RunKeeps(states, steps, n - 1);
    assert |states| == |steps| + 1 && IsStep(states[n - 1], steps[n - 1], states[n]);
    hide IsRun, Inv, BlockTold;
    PublishMoves(states[n - 1], t);
    hide Apply, Enabled;
    if states[n - 1].cache.maxSize > 0 { CachedBytesTold(states, steps, n, states[n - 1].readers[t].k); }
  }

  lemma PublishMoves(s: State, t: nat)
    requires Inv(s) && Enabled(s, Publish(t))
    ensures AllReaders(s) && Listed(s.cache)
    ensures var k, s' := s.readers[t].k, Apply(s, Publish(t));
            && t in s'.readers && s'.readers[t].RIdle? && k !in s'.cache.inserts
            && (s.cache.maxSize > 0 ==>
                 k in s'.cache.cells && s'.cache.queue != [] && s'.cache.queue[|s'.cache.queue| - 1] == k)
  {
    assert AllReaders(s) && CacheInv(s.cache) && Listed(s.cache);
    hide Inv, CacheInv, Published, Listed, AllReaders;
    FinishMoves(s.cache, s, t);
    PublishIs(s, t);
    hide Apply, PublishState, Enabled;
  }

  lemma PublishIs(s: State, t: nat)
    requires Listed(s.cache) && Enabled(s, Publish(t)) && AllReaders(s)
    ensures Apply(s, Publish(t)) == PublishState(s, t)
    ensures PublishState(s, t).cache == Finish(s.cache, s.readers[t].k, s.readers[t].id)
    ensures PublishState(s, t).readers == s.readers[t := RIdle]
  {
    hide Listed, Finish;
  }

  lemma FinishMoves(c: Cache, s: State, t: nat)
    requires c == s.cache && CacheInv(c) && AllReaders(s) && t in s.readers && s.readers[t].RLoaded?
    ensures Listed(c)
    ensures var RLoaded(k, id) := s.readers[t];
            var c' := Finish(c, k, id);
            && k !in c'.inserts
            && (c.maxSize > 0 ==> k in c'.cells && c'.queue != [] && c'.queue[|c'.queue| - 1] == k)
  {
    assert ReaderOk(s, t) && Listed(c) && c.curSize == |c.queue|;
    hide CacheInv, Published, Listed, AllReaders, Finish;
    var RLoaded(k, id) := s.readers[t];
    FinishKeeps(c, k, id);
    if c.maxSize > 0 { PublishedLast(c, Finish(c, k, id), k, c.infos[id].buf); }
  }

  lemma PublishedLast(c: Cache, c': Cache, k: Key, b: Buf)
    requires Published(c, c', k, b) && c.curSize == |c.queue| && c.maxSize > 0
    ensures k in c'.cells && c'.queue != [] && c'.queue[|c'.queue| - 1] == k
  {
    var n := if c.curSize + 1 >= c.maxSize + c.maxOverflow then c.curSize + 1 - c.maxSize else 0;
    assert n <= |c.queue| && (c.queue + [k])[n..][|c.queue| - n] == k;
    assert k in c'.queue;
  }

  /** A hit leaves the reader done with the key's own cell; a miss sends it to the key's insert. */
  lemma LookMoves(s: State, t: nat, k: Key, id: InfoId, addr: Buf, junk: Bytes)
    requires Inv(s) && Enabled(s, Look(t, k, id, addr, junk))
    ensures AllReaders(s) && Listed(s.cache)
    ensures var s' := Apply(s, Look(t, k, id, addr, junk));
            if k in s.cache.cells then
              s'.readers == s.readers && k in s'.cache.cells && s'.cache.cells[k].buf == s.cache.cells[k].buf
            else
              && t in s'.readers && k in s'.cache.inserts && s'.readers[t] == RWant(k, s'.cache.inserts[k])
              && s'.cache.inserts == (if k in s.cache.inserts then s.cache.inserts else s.cache.inserts[k := id])
  {
    LookupKeeps(s.cache, k, id, addr);
    hide Coherent, AllLoads, AllWriters, AllLocks, Memory;
  }

  /** A reader that is idle may look up any block. */
  lemma MayLook(s: State, t: nat, k: Key, id: InfoId, addr: Buf, junk: Bytes)
    requires t in s.readers && s.readers[t].RIdle? && k in s.disk
    requires id !in s.cache.infos && addr !in s.cache.pool.alive && |junk| == s.cellSize
    ensures Enabled(s, Look(t, k, id, addr, junk))
  {
  }

  /** A writer that is idle may begin with blocks that no other is at. */
  lemma MayWrite(s: State, w: nat, chunks: seq<Chunk>)
    requires w in s.writers && s.writers[w].WIdle? && chunks != [] && DistinctKeys(chunks)
    requires forall j :: 0 <= j < |chunks| ==> Fits(s.disk, chunks[j])
    requires forall v :: v in s.writers ==> ApartKeys(chunks, Todo(s.writers[v]))
    ensures Enabled(s, Write(w, chunks))
  {
  }
}
