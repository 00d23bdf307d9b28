/**
  `Block::Read` and `Block::Update` over a file, a full-block watermark and a block cache that
  may evict anything at any time.  Reads return exactly the file's bytes in every run of
  appends, updates of persisted records, reads and evictions.
 */
module BlockRead {
  import CacheProtocol
  import opened FileBytes

  const MAX_BLOCK_SIZE := 65536

  function Patch(bytes: Bytes, off: nat, data: Bytes): Bytes
    requires off + |data| <= |bytes|
  {
    CacheProtocol.Patch(bytes, off, data)
  }

  // ----- Block arithmetic -----

  lemma DivModParts(start: nat, p: nat)
    requires p > 0
    ensures start == start / p * p + start % p && start % p < p && start / p >= 0
  {
  }

  lemma MulMono(a: nat, b: nat, p: nat)
    requires a <= b
    ensures a * p <= b * p
  {
  }

  lemma MulStep(a: nat, b: nat, p: nat)
    requires a < b
    ensures a * p + p <= b * p
  {
    MulMono(a + 1, b, p);
  }

  /** A block below the watermark `n / p` ends at or before `n`. */
  lemma BlockEnds(bid: nat, n: nat, p: nat)
    requires p > 0 && bid < n / p
    ensures bid * p + p <= n
  {
    DivModParts(n, p);
    MulStep(bid, n / p, p);
  }

  lemma DivMono(m: nat, n: nat, p: nat)
    requires p > 0 && m <= n
    ensures m / p <= n / p
  {
    DivModParts(m, p);
    DivModParts(n, p);
    if m / p > n / p {
      MulStep(n / p, m / p, p);
    }
  }

  /** A position lies in exactly one block. */
  lemma PositionInBlock(bid: nat, off: nat, p: nat)
    requires p > 0 && off < p
    ensures (bid * p + off) / p == bid && (bid * p + off) % p == off
  {
    var n := bid * p + off;
    DivModParts(n, p);
    if n / p < bid {
      MulStep(n / p, bid, p);
    } else if n / p > bid {
      MulStep(bid, n / p, p);
    }
  }

  lemma SliceOfSlice(bytes: Bytes, a: nat, b: nat, off: nat, len: nat)
    requires a <= b <= |bytes| && off + len <= b - a
    ensures bytes[a..b][off..off + len] == bytes[a + off..a + off + len]
  {
    var x, y := bytes[a..b][off..off + len], bytes[a + off..a + off + len];
    assert |x| == |y| && forall i :: 0 <= i < len ==> x[i] == y[i];
  }

  /** A block of whole records fits the cell, so the load function's length check passes. */
  lemma BlockSizeFits(itemLength: nat)
    requires 0 < itemLength <= MAX_BLOCK_SIZE
    ensures 0 < MAX_BLOCK_SIZE / itemLength * itemLength <=
            MAX_BLOCK_SIZE < 2 * (MAX_BLOCK_SIZE / itemLength * itemLength)
  {
    DivModParts(MAX_BLOCK_SIZE, itemLength);
    if MAX_BLOCK_SIZE / itemLength == 0 {
      assert false;
    }
    MulMono(1, MAX_BLOCK_SIZE / itemLength, itemLength);
  }

  // Named so that proofs which do not need the arithmetic can hide it.

  function BlockOf(pos: nat, p: nat): nat
    requires p > 0
  {
    pos / p
  }

  function OffsetIn(pos: nat, p: nat): (off: nat)
    requires p > 0
    ensures off < p
  {
    pos % p
  }

  function BlockPos(bid: nat, p: nat): nat {
    bid * p
  }

  /** Bytes persisted, and the number of whole blocks among them. */
  function BytesOf(size: nat, itemLength: nat): nat {
    size * itemLength
  }

  function FullBlocks(size: nat, itemLength: nat, p: nat): nat
    requires p > 0
  {
    BytesOf(size, itemLength) / p
  }

  lemma Parts(pos: nat, p: nat)
    requires p > 0
    ensures pos == BlockPos(BlockOf(pos, p), p) + OffsetIn(pos, p)
  {
    DivModParts(pos, p);
  }

  lemma FullBlockEnds(bid: nat, size: nat, itemLength: nat, p: nat)
    requires p > 0 && bid < FullBlocks(size, itemLength, p)
    ensures BlockPos(bid, p) + p <= BytesOf(size, itemLength)
  {
    BlockEnds(bid, size * itemLength, p);
  }

  lemma BlocksApart(a: nat, b: nat, p: nat)
    requires a < b
    ensures BlockPos(a, p) + p <= BlockPos(b, p)
  {
    MulStep(a, b, p);
  }

  lemma SizesGrow(m: nat, n: nat, itemLength: nat, p: nat)
    requires p > 0 && m <= n
    ensures BytesOf(m, itemLength) <= BytesOf(n, itemLength)
    ensures FullBlocks(m, itemLength, p) <= FullBlocks(n, itemLength, p)
  {
    MulMono(m, n, itemLength);
    DivMono(m * itemLength, n * itemLength, p);
  }

  /** A position below the start of block `n` is in an earlier block. */
  lemma BelowBlock(pos: nat, n: nat, p: nat)
    requires p > 0 && pos < BlockPos(n, p)
    ensures BlockOf(pos, p) < n
  {
    DivModParts(pos, p);
    if pos / p >= n {
      MulMono(n, pos / p, p);
      assert false;
    }
  }

  lemma BlockInside(bid: nat, n: nat, p: nat)
    requires p > 0 && BlockPos(bid, p) + p <= BlockPos(n, p)
    ensures bid < n
  {
    if bid >= n {
      MulMono(n, bid, p);
      assert false;
    }
  }

  function Min(a: nat, b: nat): nat {
    if a < b then a else b
  }

  /** The part of a range that `Read` and `Update` handle in one turn of their loops. */
  function ChunkLen(nBytes: nat, start: nat, p: nat): (len: nat)
    requires p > 0
    ensures len <= nBytes && OffsetIn(start, p) + len <= p
    ensures nBytes > 0 ==> len > 0
  {
    Min(Min(nBytes, p), p - OffsetIn(start, p))
  }

  class Block {
    const perBlockSize: nat
    const itemLength: nat
    const maxSize: nat
    const segId: nat
    const segBlockCapacity: nat
    const hasCache: bool

    var body: Bytes             // the file after its header
    var curSize: nat            // records persisted
    var lastBidInDisk: nat
    var cache: map<nat, Bytes>  // the shared block cache, by cache block id

    /** `GetCacheBlockId`. */
    function CacheId(bid: nat): nat {
      segId * segBlockCapacity + bid
    }

    predicate Sized()
      reads this
    {
      && 0 < itemLength <= MAX_BLOCK_SIZE && perBlockSize == MAX_BLOCK_SIZE / itemLength * itemLength &&
         perBlockSize > 0
      && |body| == BytesOf(maxSize, itemLength) < 0x1_0000_0000 && curSize <= maxSize
      && lastBidInDisk <= FullBlocks(curSize, itemLength, perBlockSize)
      && BytesOf(maxSize, itemLength) <= BlockPos(segBlockCapacity, perBlockSize)
    }

    /** The cached copy of block `bid` is what the file holds, and the block is below the watermark. */
    ghost predicate CellOk(bid: nat)
      reads this
      requires CacheId(bid) in cache && perBlockSize > 0
    {
      && bid < FullBlocks(curSize, itemLength, perBlockSize)
      && BlockPos(bid, perBlockSize) + perBlockSize <= |body|
      && cache[CacheId(bid)] == body[BlockPos(bid, perBlockSize)..BlockPos(bid, perBlockSize) + perBlockSize]
    }

    ghost predicate Valid()
      reads this
    {
      && Sized() && (!hasCache ==> cache == map[])
      && forall bid: nat :: bid < segBlockCapacity && CacheId(bid) in cache ==> CellOk(bid)
    }

    /** The cache ids of this segment's blocks; all others belong to other segments. */
    predicate Own(key: nat) {
      CacheId(0) <= key < CacheId(segBlockCapacity)
    }

    /** Of other segments, cells may have been evicted but none is new or changed. */
    ghost predicate OthersKept(before: map<nat, Bytes>)
      reads this
    {
      forall key :: key in cache && !Own(key) ==> key in before && cache[key] == before[key]
    }

    /** A new segment beside whatever blocks of other segments are cached. */
    constructor (itemLength: nat, maxSize: nat, segId: nat, segBlockCapacity: nat, hasCache: bool,
        cache: map<nat, Bytes>)
      requires 0 < itemLength <= MAX_BLOCK_SIZE && maxSize * itemLength < 0x1_0000_0000
      requires maxSize * itemLength <= segBlockCapacity * (MAX_BLOCK_SIZE / itemLength * itemLength)
      requires !hasCache ==> cache == map[]
      requires forall key :: key in cache ==>
                 key < segId * segBlockCapacity || key >= segId * segBlockCapacity + segBlockCapacity
      ensures Valid() && this.cache == cache && curSize == 0 && body == Zeros(maxSize * itemLength)
      ensures this.segId == segId && this.itemLength == itemLength && this.maxSize == maxSize
    {
      BlockSizeFits(itemLength);
      this.perBlockSize := MAX_BLOCK_SIZE / itemLength * itemLength;
      this.itemLength, this.maxSize, this.segId, this.segBlockCapacity := itemLength, maxSize, segId, segBlockCapacity;
      this.hasCache, this.cache := hasCache, cache;
      body, curSize, lastBidInDisk := Zeros(maxSize * itemLength), 0, 0;
    }

    /** Other segments load, patch and evict: as long as own cells are at most evicted this one stays valid. */
    method OthersMove(next: map<nat, Bytes>)
      requires Valid() && hasCache
      requires forall key :: key in next && Own(key) ==> key in cache && next[key] == cache[key]
      modifies `cache
      ensures Valid() && cache == next
    {
      hide BlockOf, OffsetIn, BlockPos, BytesOf, FullBlocks;
      cache := next;
      forall bid: nat | bid < segBlockCapacity && CacheId(bid) in cache ensures CellOk(bid) {
        assert Own(CacheId(bid)) && old(CellOk(bid));
      }
    }

    /** Every block that the segment has is one of the ids set aside for it. */
    lemma BlocksBelow(pos: nat)
      requires Sized() && pos < |body|
      ensures BlockOf(pos, perBlockSize) < segBlockCapacity
    {
      BelowBlock(pos, segBlockCapacity, perBlockSize);
    }

    lemma FullBelow(bid: nat)
      requires Sized() && bid < FullBlocks(curSize, itemLength, perBlockSize)
      ensures bid < segBlockCapacity
    {
      Persisted();
      FullBlockEnds(bid, curSize, itemLength, perBlockSize);
      BlockInside(bid, segBlockCapacity, perBlockSize);
    }

    lemma Persisted()
      requires Sized()
      ensures BytesOf(curSize, itemLength) <= |body|
    {
      MulMono(curSize, maxSize, itemLength);
    }

    /** One load or hit; afterwards the cache may have evicted any set of blocks. */
    method SetOrGet(bid: nat) returns (res: bool, block: Bytes)
      requires Valid() && hasCache && bid < FullBlocks(curSize, itemLength, perBlockSize)
      modifies `cache
      ensures Valid() && OthersKept(old(cache)) && BlockPos(bid, perBlockSize) + perBlockSize <= |body|
      ensures res ==> block == body[BlockPos(bid, perBlockSize)..BlockPos(bid, perBlockSize) + perBlockSize]
    {
      hide BlockOf, OffsetIn, BlockPos, BytesOf, FullBlocks;
      Persisted();
      FullBlockEnds(bid, curSize, itemLength, perBlockSize);
      FullBelow(bid);
      if CacheId(bid) in cache {
        assert CellOk(bid);
        block := cache[CacheId(bid)];
        return true, block;
      }
      res := perBlockSize <= MAX_BLOCK_SIZE;
      if !res {
        return false, [];
      }
      block := body[BlockPos(bid, perBlockSize)..BlockPos(bid, perBlockSize) + perBlockSize];
      var before := cache;
      cache := cache[CacheId(bid) := block];
      var kept: set<nat> := *;
      cache := map k | k in cache && k in kept :: cache[k];
      forall b: nat | b < segBlockCapacity && CacheId(b) in cache ensures CellOk(b) {
        if b != bid {
          assert CacheId(b) in before;
        }
      }
    }

    /** Exactly the file's bytes, whichever blocks come from the cache. */
    method Read(nBytes: nat, start: nat) returns (value: Bytes)
      requires Valid() && start + nBytes <= |body|
      modifies `cache, `lastBidInDisk
      ensures Valid() && OthersKept(old(cache)) && value == body[start..start + nBytes]
    {
      hide BlockOf, OffsetIn, BlockPos, BytesOf, FullBlocks;
      if !hasCache {
        return body[start..start + nBytes];
      }
      var at, left := start, nBytes;
      value := [];
      while left > 0
        invariant Valid() && OthersKept(old(cache)) && start <= at && at + left == start + nBytes &&
                  value == body[start..at]
        decreases left
      {
        var len := ChunkLen(left, at, perBlockSize);
        var chunk := ReadChunk(len, at);
        assert body[start..at] + body[at..at + len] == body[start..at + len];
        value := value + chunk;
        at, left := at + len, left - len;
      }
    }

    /** One turn of the loop of `Read`: a piece of a single block. */
    method ReadChunk(len: nat, start: nat) returns (chunk: Bytes)
      requires Valid() && hasCache && start + len <= |body| && OffsetIn(start, perBlockSize) + len <= perBlockSize
      modifies `cache, `lastBidInDisk
      ensures Valid() && OthersKept(old(cache)) && chunk == body[start..start + len]
    {
      hide BlockOf, OffsetIn, BlockPos, BytesOf, FullBlocks;
      var blockId, blockOffset := BlockOf(start, perBlockSize), OffsetIn(start, perBlockSize);
      Parts(start, perBlockSize);
      if lastBidInDisk <= blockId {
        lastBidInDisk := FullBlocks(curSize, itemLength, perBlockSize);
      }
      if lastBidInDisk <= blockId {
        chunk := ReadContent(len, BlockPos(blockId, perBlockSize) + blockOffset);
      } else {
        var res, block := SetOrGet(blockId);
        if !res {
          chunk := ReadContent(len, BlockPos(blockId, perBlockSize) + blockOffset);
        } else {
          chunk := block[blockOffset..blockOffset + len];
          SliceOfSlice(body, BlockPos(blockId, perBlockSize), BlockPos(blockId, perBlockSize) + perBlockSize,
              blockOffset, len);
        }
      }
    }

    /** A positioned read past the cache. */
    method ReadContent(len: nat, start: nat) returns (value: Bytes)
      requires start + len <= |body|
      ensures value == body[start..start + len]
    {
      value := body[start..start + len];
    }

    // ----- Updating persisted records -----

    /**
      Cell `bid` while an update of `[start, end)` that replaced `was` by `body` has patched the
      cache up to `at`: new bytes below `at`, old ones from there on.
     */
    ghost predicate CellPatchedTo(bid: nat, was: Bytes, at: nat)
      reads this
      requires CacheId(bid) in cache && perBlockSize > 0 && |was| == |body|
    {
      && bid < FullBlocks(curSize, itemLength, perBlockSize)
      && BlockPos(bid, perBlockSize) + perBlockSize <= |body| && |cache[CacheId(bid)]| == perBlockSize
      && forall i :: 0 <= i < perBlockSize ==>
           cache[CacheId(bid)][i] == if BlockPos(bid, perBlockSize) + i < at
               then body[BlockPos(bid, perBlockSize) + i] else was[BlockPos(bid, perBlockSize) + i]
    }

    /**
      The new bytes reach the file and every cached copy; nothing else changes.  `sent` records
      what `LRUCache::Update` was called with.
     */
    method Update(value: Bytes, start: nat) returns (ghost sent: seq<CacheProtocol.Chunk>)
      requires Valid() && start + |value| <= |body|
      modifies `body, `cache
      ensures hasCache ==> sent == ChunksFrom(value, start, perBlockSize)
      ensures Valid() && |old(body)| == |body| && start + |value| <= |body|
      ensures body == Patch(old(body), start, value) && cache.Keys == old(cache.Keys) && OthersKept(old(cache))
    {
      hide BlockOf, OffsetIn, BlockPos, BytesOf, FullBlocks;
      Persisted();
      ghost var was := body;
      body := body[..start] + value + body[start + |value|..];
      forall bid: nat | bid < segBlockCapacity && CacheId(bid) in cache ensures CellPatchedTo(bid, was, start) {
        assert old(CellOk(bid));
      }
      sent := [];
      if !hasCache {
        return;
      }
      sent := PatchCache(value, start, was);
      forall bid: nat | bid < segBlockCapacity && CacheId(bid) in cache ensures CellOk(bid) {
        assert CellPatchedTo(bid, was, start + |value|);
      }
    }

    lemma FromNothing(value: Bytes, start: nat)
      requires perBlockSize > 0
      ensures value[0..] == value && value[|value|..] == []
      ensures ChunksFrom([], start + |value|, perBlockSize) == []
    {
    }

    lemma SentNext(value: Bytes, start: nat, done: nat, len: nat, sent: seq<CacheProtocol.Chunk>)
      requires perBlockSize > 0 && done < |value| && len == ChunkLen(|value| - done, start + done, perBlockSize)
      requires sent + ChunksFrom(value[done..], start + done, perBlockSize) == ChunksFrom(value, start, perBlockSize)
      ensures sent + [HeadChunk(value[done..], start + done, perBlockSize)] +
              ChunksFrom(value[done + len..], start + (done + len), perBlockSize)
              == ChunksFrom(value, start, perBlockSize)
    {
      NextChunk(value[done..], start + done, perBlockSize);
      assert value[done..][len..] == value[done + len..];
    }

    /** The loop of `Update`. */
    method PatchCache(value: Bytes, start: nat, ghost was: Bytes) returns (ghost sent: seq<CacheProtocol.Chunk>)
      requires Sized() && |was| == |body| && start + |value| <= |body| && value == body[start..start + |value|]
      requires forall i :: start + |value| <= i < |body| ==> body[i] == was[i]
      requires forall bid: nat :: bid < segBlockCapacity && CacheId(bid) in cache ==> CellPatchedTo(bid, was, start)
      modifies `cache
      ensures cache.Keys == old(cache.Keys) && OthersKept(old(cache)) && sent == ChunksFrom(value, start, perBlockSize)
      ensures forall bid: nat :: bid < segBlockCapacity && CacheId(bid) in cache ==>
              CellPatchedTo(bid, was, start + |value|)
    {
      hide BlockOf, OffsetIn, BlockPos, BytesOf, FullBlocks, ChunkLen, ChunksFrom, HeadChunk;
      FromNothing(value, start);
      sent := [];
      var done := 0;
      while done < |value|
        invariant done <= |value| && cache.Keys == old(cache.Keys) && OthersKept(old(cache))
        invariant sent + ChunksFrom(value[done..], start + done, perBlockSize) == ChunksFrom(value, start, perBlockSize)
        invariant forall bid: nat :: bid < segBlockCapacity && CacheId(bid) in cache ==>
                  CellPatchedTo(bid, was, start + done)
        decreases |value| - done
      {
        var len := ChunkLen(|value| - done, start + done, perBlockSize);
        SentNext(value, start, done, len, sent);
        sent := sent + [HeadChunk(value[done..], start + done, perBlockSize)];
        SliceOfSlice(body, start, start + |value|, done, len);
        PatchChunk(value[done..done + len], start + done, was);
        done := done + len;
      }
    }

    /** One turn of the loop of `Update`: `LRUCache::Update` on the block that `at` lies in. */
    method PatchChunk(data: Bytes, at: nat, ghost was: Bytes)
      requires Sized() && |was| == |body| && data != [] && at + |data| <= |body| && data == body[at..at + |data|]
      requires OffsetIn(at, perBlockSize) + |data| <= perBlockSize
      requires forall bid: nat :: bid < segBlockCapacity && CacheId(bid) in cache ==> CellPatchedTo(bid, was, at)
      modifies `cache
      ensures cache.Keys == old(cache.Keys) && OthersKept(old(cache))
      ensures forall bid: nat :: bid < segBlockCapacity && CacheId(bid) in cache ==>
              CellPatchedTo(bid, was, at + |data|)
    {
      hide BlockOf, OffsetIn, BlockPos, BytesOf, FullBlocks;
      var blockId, off := BlockOf(at, perBlockSize), OffsetIn(at, perBlockSize);
      Parts(at, perBlockSize);
      BlocksBelow(at);
      var id := CacheId(blockId);
      if id in cache {
        assert CellPatchedTo(blockId, was, at);
        cache := cache[id := Patch(cache[id], off, data)];
      }
      forall bid: nat | bid < segBlockCapacity && CacheId(bid) in cache ensures CellPatchedTo(bid, was, at + |data|) {
        assert old(CellPatchedTo(bid, was, at));
        if bid < blockId {
          BlocksApart(bid, blockId, perBlockSize);
        } else if blockId < bid {
          BlocksApart(blockId, bid, perBlockSize);
        }
      }
    }

    // ----- Appends by the background writer -----

    /** A write at or past the persisted length touches no block below the watermark. */
    method WriteBehind(data: Bytes, start: nat)
      requires Valid() && BytesOf(curSize, itemLength) <= start && start + |data| <= |body|
      modifies `body
      ensures Valid() && body == Patch(old(body), start, data)
    {
      hide BlockOf, OffsetIn, BlockPos, BytesOf, FullBlocks;
      body := body[..start] + data + body[start + |data|..];
      forall bid: nat | bid < segBlockCapacity && CacheId(bid) in cache ensures CellOk(bid) {
        assert old(CellOk(bid));
        FullBlockEnds(bid, curSize, itemLength, perBlockSize);
      }
    }

    /** `UpdateSize`: the watermark can only rise. */
    method UpdateSize(num: nat)
      requires Valid() && curSize + num <= maxSize
      modifies `curSize
      ensures Valid() && curSize == old(curSize) + num
    {
      hide BlockOf, OffsetIn, BlockPos, BytesOf, FullBlocks;
      SizesGrow(curSize, curSize + num, itemLength, perBlockSize);
      curSize := curSize + num;
      forall bid: nat | bid < segBlockCapacity && CacheId(bid) in cache ensures CellOk(bid) {
        assert old(CellOk(bid));
      }
    }

    /**
      A cut lowers the watermark but drops nothing from the cache and does not take back what reads
      have noted.  The segment stays valid exactly when no block that is full no more was noted or cached.
     */
    method CutTo(size: nat)
      requires Valid() && size <= curSize
      modifies `curSize
      ensures curSize == size
      ensures Valid() <==>
                && lastBidInDisk <= FullBlocks(size, itemLength, perBlockSize)
                && forall bid: nat :: bid < segBlockCapacity && CacheId(bid) in cache ==>
                     bid < FullBlocks(size, itemLength, perBlockSize)
    {
      hide BlockOf, OffsetIn, BlockPos, BytesOf, FullBlocks;
      curSize := size;
      forall bid: nat | bid < segBlockCapacity && CacheId(bid) in cache
        ensures CellOk(bid) <==> bid < FullBlocks(size, itemLength, perBlockSize)
      {
        assert old(CellOk(bid));
      }
    }
  }

  // ----- The update as chunks -----

  /** The pieces that the loop of `Update` passes to the cache, one a block, from byte `off` of block `bid`. */
  function Chunks(value: Bytes, bid: nat, off: nat, p: nat): (cs: seq<CacheProtocol.Chunk>)
    requires off < p
    ensures forall j :: 0 <= j < |cs| ==> cs[j].key >= bid
    decreases |value|
  {
    if value == [] then []
    else
      var len := Min(|value|, p - off);
      [CacheProtocol.Chunk(bid, off, value[..len])] + Chunks(value[len..], bid + 1, 0, p)
  }

  function ChunksFrom(value: Bytes, start: nat, p: nat): seq<CacheProtocol.Chunk>
    requires p > 0
  {
    Chunks(value, BlockOf(start, p), OffsetIn(start, p), p)
  }

  function HeadChunk(value: Bytes, start: nat, p: nat): CacheProtocol.Chunk
    requires p > 0
  {
    CacheProtocol.Chunk(BlockOf(start, p), OffsetIn(start, p), value[..ChunkLen(|value|, start, p)])
  }

  lemma NextChunk(value: Bytes, start: nat, p: nat)
    requires p > 0 && value != []
    ensures var len := ChunkLen(|value|, start, p);
            ChunksFrom(value, start, p) == [HeadChunk(value, start, p)] + ChunksFrom(value[len..], start + len, p)
  {
    var len := ChunkLen(|value|, start, p);
    var bid, off := start / p, start % p;
    DivModParts(start, p);
    assert Chunks(value, bid, off, p) == [HeadChunk(value, start, p)] + Chunks(value[len..], bid + 1, 0, p);
    if len < |value| {
      NextStart(bid, off, len, p);
      PositionInBlock(bid + 1, 0, p);
      assert (start + len) / p == bid + 1 && (start + len) % p == 0;
    } else {
      assert value[len..] == [];
    }
  }

  /** No two pieces of one update fall in the same block. */
  lemma {:induction false} ChunksDistinct(value: Bytes, bid: nat, off: nat, p: nat)
    requires off < p
    ensures CacheProtocol.DistinctKeys(Chunks(value, bid, off, p))
    decreases |value|
  {
    if value != [] {
      ChunksDistinct(value[Min(|value|, p - off)..], bid + 1, 0, p);
    }
  }

  /**
    What the pieces of an update say of position `pos`, byte `r` of block `q`: it is covered
    exactly when it is in the updated range, and then by the byte that the update writes there.
   */
  ghost predicate Mirrors(cs: seq<CacheProtocol.Chunk>, value: Bytes, start: nat, q: nat, r: nat, pos: nat) {
    && (start <= pos < start + |value| ==> exists j :: 0 <= j < |cs| && CacheProtocol.Covers(cs[j], q, r))
    && (forall j :: 0 <= j < |cs| && CacheProtocol.Covers(cs[j], q, r) ==>
          start <= pos < start + |value| && cs[j].data[r - cs[j].off] == value[pos - start])
  }

  lemma MirrorsCons(head: CacheProtocol.Chunk, rest: seq<CacheProtocol.Chunk>, value: Bytes, len: nat, start: nat,
      q: nat, r: nat, pos: nat)
    requires len <= |value| && head.data == value[..len]
    requires CacheProtocol.Covers(head, q, r) <==> start <= pos < start + len
    requires start <= pos < start + len ==> r - head.off == pos - start
    requires Mirrors(rest, value[len..], start + len, q, r, pos)
    ensures Mirrors([head] + rest, value, start, q, r, pos)
  {
    var all := [head] + rest;
    if start <= pos < start + len {
      assert CacheProtocol.Covers(all[0], q, r);
    } else if start + len <= pos < start + |value| {
      var j :| 0 <= j < |rest| && CacheProtocol.Covers(rest[j], q, r);
      assert all[j + 1] == rest[j];
    }
    forall j | 0 <= j < |all| && CacheProtocol.Covers(all[j], q, r)
      ensures start <= pos < start + |value| && all[j].data[r - all[j].off] == value[pos - start]
    {
      if j > 0 {
        assert all[j] == rest[j - 1];
      }
    }
  }

  /** Byte `r` of block `q` against the range from `off` to `off + len` of block `bid`. */
  lemma HeadRange(bid: nat, off: nat, len: nat, p: nat, q: nat, r: nat, start: int, pos: int)
    requires off + len <= p && r < p && start == bid * p + off && pos == q * p + r
    ensures q == bid && off <= r < off + len <==> start <= pos < start + len
    ensures q == bid ==> r - off == pos - start
  {
    if q < bid {
      MulStep(q, bid, p);
    } else if q > bid {
      MulStep(bid, q, p);
    }
  }

  lemma NextStart(bid: nat, off: nat, len: nat, p: nat)
    requires off + len == p
    ensures (bid + 1) * p + 0 == bid * p + off + len
  {
  }

  /** `Update` hands the cache exactly the bytes it wrote to the file. */
  lemma {:induction false} ChunksMirrorUpdate(value: Bytes, bid: nat, off: nat, p: nat, q: nat, r: nat, start: nat,
      pos: nat)
    requires off < p && r < p && start == bid * p + off && pos == q * p + r
    ensures Mirrors(Chunks(value, bid, off, p), value, start, q, r, pos)
    decreases |value|
  {
    if value != [] {
      var len := Min(|value|, p - off);
      HeadRange(bid, off, len, p, q, r, start, pos);
      var rest := Chunks(value[len..], bid + 1, 0, p);
      if len < |value| {
        NextStart(bid, off, len, p);
        ChunksMirrorUpdate(value[len..], bid + 1, 0, p, q, r, start + len, pos);
      }
      MirrorsCons(CacheProtocol.Chunk(bid, off, value[..len]), rest, value, len, start, q, r, pos);
    }
  }
}
