# Verification of AwaDB's storage, index and ingestion core

This project models the stateful core of AwaDB's C++ engine, and its word stemmer, in Dafny and
proves properties of the models.  `dafny verify dfyconfig.toml` checks everything.

Where the source changes state step by step the model is a class whose methods are proved against
functions on values, and the laws are lemmas about those functions.  Where threads interleave, the
model is a state machine whose steps are single critical sections or single reads and writes.

| file | what it models |
|---|---|
| RealtimeIndex, RealtimeMemory | buckets of slots, packed reverse table, tombstones, dead counters, compaction and growth; refines a map from live vector to (bucket, code) |
| InvertedListIO | saving the index as bytes and loading it into a fresh one |
| LruCache, LruCacheMemory | the cache's critical sections with its buffer pool, as functions and as a class |
| CacheProtocol, CacheHistory | every interleaving of readers and updating writers over cache mutex and insert mutexes; what disk and cache then hold, told from the steps alone |
| BlockRead | block-wise reads and updates over file, watermark and cache |
| FileBytes, JoinedWrites, AsyncWriter | positioned writes, when several may be made as one, and the background writer that joins them |
| StringBlocks, StringPlaces | the string file of a segment, its blocks and their cache; where strings end up past 2^32 bytes or over an old index |
| StorageManagers | segments of records as one sequence |
| Migration, MigrationHistory, MigrateQueue | online migration as a protocol between engine and caller; what it converges to, told from the steps alone; its file queue |
| Retrieval | posting lists and the leapfrog intersection |
| BatchIngest, BatchFold, GammaEngines, LongIds | batch ingestion against one-by-one ingestion; what that comes to; the engine's fields; the numbers of LONG ids |
| ScoreFusion | fusing the scores of several vector fields |
| MultiStringCodec | the column of string lists |
| Stemmer, StemmerRules, StemmerWords | the Porter stemmer's buffer machine against functions on words; these suffix by suffix for every stem; example words |
| Wrappers | optional values and distinctness, shared by the others |

## What turned out false of the code

For each, the exact condition is proved and the code is modelled as it is.

- Realtime update: a move refused at the bucket limit has already tombstoned the old slot, and a
  move of a vector whose document was deleted in the meantime counts the slot as dead twice.  The
  index stays valid if and only if nothing moves, or the move is taken and the document is live.
- Deletion sets the bitmap first and counts the document's slots afterwards.  A compaction in between
  removes the slots, which are counted all the same: the dead counters stay exact if and only if the
  document has no vector in the compacted bucket.  Vectors of the document added in between are
  counted twice: the counters stay exact if and only if none of those added belongs to it.
- Migration: a docid is queued before `max_docid_` is raised.  A caller that picks it up in between
  drops it, and it is not queued again until the document changes.  A drained migration has
  converged if and only if no docid was left dropped; docids already past `AddDocid` when the
  migration begins in the middle of a batch are dropped as well.
- Loading inverted lists counts tombstones but not slots that are dead through the bitmap.  The
  counters are exact if and only if there is no such slot.
- Batch ingestion tells keys apart by their text, the table by a 64-bit number.  The batch equals
  one-by-one ingestion if and only if no two keys with one number are held back together.  Ids of
  type LONG have one number exactly when their first eight bytes agree; string ids go through a
  digest, which is any function here.
- Background writes are joined by file alone.  That is right, whatever they and the file hold, if
  and only if each starts where the one before it ends.
- `StorageManager::Update` of a record still in the writer's queue is overwritten by the queue.
- `StorageManager::Truncate` to more than the current size succeeds and makes `size_` wrong, and a
  cut through a segment with writes still queued, or past one, lets the writer count slots that are
  gone.  The store stays valid if and only if neither is the case.
- After `Truncate` cached blocks stay cached.  A cut segment stays valid for reads if and only if no
  block that is full no more was cached or noted as full before.
- A segment created again after truncation reads the old block index of its strings.  Unless that
  ends at 0 or just below 2^32, records are wrong until the first string that opens a block, and
  right from then on.
- The size of a string goes through sixteen bits unchecked (the test in `Table::CheckStrLen` compares
  the cut value), and the string offset of a segment through 32 bits.  As long as no text starts at or
  past 2^32 bytes of strings appended, a value reads back if and only if it is shorter than 65536
  bytes.  The text that starts past that is written over earlier strings, and each of them still
  reads back if and only if it has the same bytes there.  Strings of given sizes up to 65535 bytes,
  put into a new segment, all read back whatever they are if and only if none starts past the limit.
- A one-word query lists its first document twice.
- The list column loses a list of empty strings, and an empty list adds no row, so later rows move up.
- An in-place string update refuses a text longer than the block size even when the old one was as long.

## What the statements assume

- Realtime index: a deleted docid is never revived, in whole runs bitmap bit and index counts of
  a deletion are one step, an updated vector's slot has not been compacted away, and bucket sizes
  stay far below 32 bits.
- Cache and blocks: load functions succeed, one update of a block runs at a time, at most one writer
  holds a given byte, and the blocks of a segment fit the cache ids set aside for it.
- Migration: one thread changes documents, keys of a batch are new, and the vector store accepts
  every vector; docids are below 2^31 and file offsets do not wrap.
- Records: `Truncate` is stated of a store without a cache, and so of one that has cached no block of
  what is cut; what cached blocks do to it is stated of a segment (`CutTo`).
- Retrieval: docids increase, a document's words are distinct, docids are below 2^31, and a query
  has at least one word.
- Batches: a document that is new is complete and its vectors are accepted, and keys are not empty.
- Reals stand for floating point in scores and growth coefficients.

## Model

| member | source | states |
|---|---|---|
| RealtimeIndex.ScanMatchesView | awadb/db_engine/realtime/realtime_mem_data.cc:98-112 | A vector is in the map exactly when some untombstoned, undeleted slot holds it; that slot is the only one, and its bucket and code are those of the map. |
| RealtimeIndex.ExtendIdsKeeps | awadb/db_engine/realtime/realtime_mem_data.cc:203-218 | Doubling the reverse table keeps the invariant and the map. |
| RealtimeIndex.ExtendBucketKeeps | awadb/db_engine/realtime/realtime_mem_data.cc:152-188 | Reallocating a bucket keeps the invariant and the map. |
| RealtimeIndex.AddAllKeeps | awadb/db_engine/realtime/realtime_mem_data.cc:264-303 | Adding distinct, never indexed vectors keeps the invariant; the map gains exactly those whose document is not deleted. |
| RealtimeIndex.OverwriteKeeps | awadb/db_engine/realtime/realtime_mem_data.cc:313-318 | Updating within a bucket changes one code of the map and nothing else. |
| RealtimeIndex.MoveKeeps | awadb/db_engine/realtime/realtime_mem_data.cc:320-326 | Moving a vector to another bucket rebinds it and nothing else; tombstone, dead count and new slot agree again. |
| RealtimeIndex.RefusedMoveBreaks | awadb/db_engine/realtime/realtime_mem_data.cc:320-326 | Tombstoning without the append, which is what a refused move leaves, always breaks the invariant. |
| RealtimeIndex.DeadMoveMiscounts | awadb/db_engine/realtime/realtime_mem_data.cc:320-326 | Moving a vector whose document was deleted keeps the map and everything a search needs, but leaves the old bucket's dead counter one too high. |
| RealtimeIndex.ARefusedMove | awadb/db_engine/realtime/realtime_mem_data.cc:320-326 | A concrete index of two buckets with one vector each: after a refused move no scan finds the vector, although its document is not deleted. |
| RealtimeIndex.DeleteDocKeeps | awadb/db_engine/realtime/realtime_mem_data.cc:190-199 | Bitmap bit and index counts taken together remove exactly the document's vectors and keep every dead counter exact. |
| RealtimeIndex.CompactAmidDeleteMiscounts | awadb/db_engine/search/gamma_engine.cc:1129-1146 | When a compaction comes between the two steps of a deletion, map and soundness are right, and the compacted bucket's dead counter is too high by the number of vectors that the document had there: the index is valid if and only if it had none. |
| RealtimeIndex.AddAmidDeleteMiscounts | awadb/db_engine/search/gamma_engine.cc:1129-1146 | When vectors are added between the two steps of a deletion, map and soundness are right, and their bucket's dead counter is too high by the number of them that belong to the document: the index is valid if and only if none does. |
| RealtimeIndex.LiveIdxIsOrderedAndExact | awadb/db_engine/realtime/realtime_mem_data.cc:98-112 | Compaction keeps every live slot, no other, in the old order; what goes is as many as the dead count. |
| RealtimeIndex.CompactKeeps | awadb/db_engine/realtime/realtime_mem_data.cc:119-150 | Compaction keeps the invariant and the map although reverse entries of dead vectors go stale. |
| RealtimeIndex.AddAllCounts | awadb/db_engine/realtime/realtime_mem_data.cc:264-303 | Slots in the buckets plus slots compacted away grow by the number of vectors added. |
| RealtimeIndex.MoveCounts | awadb/db_engine/realtime/realtime_mem_data.cc:320-326 | The same total grows by one for a move. |
| RealtimeIndex.CompactCounts | awadb/db_engine/realtime/realtime_mem_data.cc:139-142 | Compaction leaves that total alone: it removes exactly the dead count. |
| RealtimeIndex.StepRefines | awadb/db_engine/realtime/realtime_mem_data.cc:98-327 | One operation of the index is one operation of the map; compaction and both extensions are none. |
| RealtimeIndex.RunRefines | awadb/db_engine/realtime/realtime_mem_data.cc:98-335 | Every run of adds, updates, deletions, compactions and extensions keeps the invariant, means the run on the map, and accounts for every slot ever added. |
| RealtimeMemory.PackIsShiftOr | awadb/db_engine/realtime/realtime_mem_data.cc:106 | Shift and disjunction on 64-bit words pack bucket and position without loss and stay non-negative. |
| RealtimeMemory.DecodePack | awadb/db_engine/realtime/realtime_mem_data.cc:308-311 | Unpacking an entry of the reverse table gives back bucket and position. |
| RealtimeMemory.ExtendSize | awadb/db_engine/realtime/realtime_mem_data.cc:156-162 | The growth loop ends for every capacity of at least one, reaches the needed size and overshoots by at most a factor of three, through the wrap of the 8-bit counter. |
| RealtimeMemory.RealTimeMemData.constructor | awadb/db_engine/realtime/realtime_mem_data.cc:57-96 | A new index is valid, empty and means the empty map. |
| RealtimeMemory.RealTimeMemData.ExtendBucketIfNeed | awadb/db_engine/realtime/realtime_mem_data.cc:383-420 | Refuses exactly when there is no room and the doubled capacity reaches the limit; a refusal changes nothing, otherwise there is room and the contents stay. |
| RealtimeMemory.RealTimeMemData.ExtendBucketMem | awadb/db_engine/realtime/realtime_mem_data.cc:426-474 | New, larger buffers with the same contents. |
| RealtimeMemory.RealTimeMemData.GrowIDs | awadb/db_engine/realtime/realtime_mem_data.cc:288-290 | The doubling loop ends with an entry for the vector, the old entries unchanged. |
| RealtimeMemory.RealTimeMemData.AddKeys | awadb/db_engine/realtime/realtime_mem_data.cc:264-303 | The buffers end as the specified state; from a valid index the map gains exactly the undeleted keys, and a refusal or a length mismatch leaves contents and map alone. |
| RealtimeMemory.RealTimeMemData.Update | awadb/db_engine/realtime/realtime_mem_data.cc:305-327 | Rebinds a live vector and nothing else; the index stays valid if and only if nothing moves, or the target bucket takes the slot and the document is not deleted.  A refused move has tombstoned the slot; a move after a deletion changes neither map nor soundness. |
| RealtimeMemory.RealTimeMemData.Delete | awadb/db_engine/realtime/realtime_mem_data.cc:329-335 | Exactly one count per indexed vector, in the bucket its entry names. |
| RealtimeMemory.RealTimeMemData.DeleteDocument | awadb/db_engine/search/gamma_engine.cc:1129-1150 | Deleting a live document keeps the index valid and removes exactly its vectors from the map. |
| RealtimeMemory.CompactOne | awadb/db_engine/realtime/realtime_mem_data.cc:98-112 | One slot: copied and repointed when live, skipped otherwise. |
| RealtimeMemory.RealTimeMemData.CompactBucket | awadb/db_engine/realtime/realtime_mem_data.cc:119-150 | Buffers, length, reverse entries and counters end as the specified compaction; map and total stay. |
| RealtimeMemory.RealTimeMemData.CompactIfNeed | awadb/db_engine/realtime/realtime_mem_data.cc:354-377 | Afterwards no non-empty bucket is thirty per cent dead; a bucket that was is rebuilt from its live slots in order, any other has its buffers, contents and counters as before; the map is as before. |
| InvertedListIO.ValueOfWord | awadb/db_engine/index/gamma_index_io.cc:109-142 | A number that fits its width survives being written as little-endian bytes. |
| InvertedListIO.WriteInvertedLists | awadb/db_engine/index/gamma_index_io.cc:109-142 | The saved bytes are the header, the sizes and each bucket's codes and stored ids, and depend on the bucket contents alone. |
| InvertedListIO.ReadInvertedLists | awadb/db_engine/index/gamma_index_io.cc:144-195 | Loading a saved file into a fresh index: 101 exactly for another shape, nothing changed; 300 exactly when some bucket cannot grow; otherwise the buckets and, with the same bitmap, the map are back. |
| InvertedListIO.LoadRestores | awadb/db_engine/index/gamma_index_io.cc:173-187 | The reverse table is rebuilt, the map is the saved one, and the dead counters are exact if and only if no untombstoned slot was dead through the bitmap. |
| InvertedListIO.ADeletedDocumentUncounted | awadb/db_engine/index/gamma_index_io.cc:173-187 | A concrete index of one deleted document: loaded again it is sound but its dead counter is wrong. |
| InvertedListIO.PointOneSlot | awadb/db_engine/index/gamma_index_io.cc:174-184 | After each slot the table points at exactly the untombstoned slots gone through. |
| LruCache.TouchKeeps | awadb/db_engine/storage/lru_cache.h:606-624 | A hit keeps the invariant and every cell's buffer: up to 250 hits only count, then the count restarts and the key moves behind all others, which keep their order. |
| LruCache.EvictNKeeps | awadb/db_engine/storage/lru_cache.h:684-703 | Evicting removes exactly the keys at the head of the queue. |
| LruCache.EvictOverflowKeeps | awadb/db_engine/storage/lru_cache.h:677-707 | After the overflow check the size is within both limits, and only the oldest cells are gone. |
| LruCache.ResizeKeeps | awadb/db_engine/storage/lru_cache.h:579-593 | The new limits hold; exactly the oldest cells over them go, and in-flight entries and the other cells stay. |
| LruCache.EvictKeyKeeps | awadb/db_engine/storage/lru_cache.h:534-551 | Exactly that key leaves queue and cells, the others in their order, and its buffer leaves the buffers in use. |
| LruCache.LookupKeeps | awadb/db_engine/storage/lru_cache.h:446-463 | A hit gives the buffer of the key's own cell; a miss gives the insert in flight for the key, or a new one, whose buffer nobody else has. |
| LruCache.FinishKeeps | awadb/db_engine/storage/lru_cache.h:480-495 | The key leaves flight, and its buffer becomes the youngest cell; the oldest cells make room exactly when both limits are reached. |
| LruCacheMemory.MemoryPool.GetBuffer | awadb/db_engine/storage/lru_cache.h:202-217 | Hands out one buffer that nobody uses; the buffers in use gain exactly it, and memory is allocated only when none is free. |
| LruCacheMemory.MemoryPool.ReclaimBuffer | awadb/db_engine/storage/lru_cache.h:219-234 | The buffers in use lose exactly that one; only over the limit is one deleted, the one that has been free longest; a pool within its limit stays within it. |
| LruCacheMemory.MemoryPool.SetMaxBufferNum | awadb/db_engine/storage/lru_cache.h:236-262 | The free list is trimmed as specified; the cap is lowered by the number deleted. |
| LruCacheMemory.LRUCache.SetOrGetFirst | awadb/db_engine/storage/lru_cache.h:446-463 | A hit returns the buffer of the key's own cell; a miss the insert in flight for the key, or a new one whose buffer belongs to it alone; queue and counts move as for a hit, and nothing else changes. |
| LruCacheMemory.LRUCache.SetOrGetSecond | awadb/db_engine/storage/lru_cache.h:480-495 | The current insert of the key puts its buffer into the youngest cell and leaves flight; any other gives a buffer back and changes no cell. |
| LruCacheMemory.LRUCache.EvictOverflow | awadb/db_engine/storage/lru_cache.h:677-707 | The loop evicts down to the limit, never past the end of the queue. |
| LruCacheMemory.LRUCache.Evict | awadb/db_engine/storage/lru_cache.h:534-551 | Removes the key and nothing else; unknown keys change nothing. |
| LruCacheMemory.LRUCache.AlterCacheSize | awadb/db_engine/storage/lru_cache.h:579-593 | The limits that the byte budget gives hold at once, with exactly the oldest cells gone. |
| CacheProtocol.StepKeeps | awadb/db_engine/storage/lru_cache.h:444-577 | Every atomic step of any reader or writer keeps the invariant of the two-level lock protocol. |
| CacheProtocol.RunKeeps | awadb/db_engine/storage/lru_cache.h:444-577 | So does every run of any number of readers and writers. |
| CacheProtocol.StartKeeps | awadb/db_engine/storage/lru_cache.h:376-412 | An empty cache with idle threads satisfies it. |
| CacheProtocol.CachedBlocksAgree | awadb/db_engine/storage/lru_cache.h:444-577 | In every reachable state, also in the middle of positioned writes, a cached block equals the disk block except in bytes of updates that have begun and not yet finished with the cache, and equals it entirely when no update of it is in flight. |
| CacheHistory.HistoryTold | awadb/db_engine/storage/lru_cache.h:444-577 | After any run the disk holds, byte by byte, what the steps say was written there last, and each writer has begun and sent to disk what the steps say. |
| CacheHistory.CachedBytesTold | awadb/db_engine/storage/lru_cache.h:444-577 | A cached block holds the bytes that, by the list of steps alone, were written last, but for those of unfinished updates; all of them when every writer is idle. |
| CacheHistory.LastHitIs | awadb/db_engine/storage/block.cc:103 | What was written last: the byte of the last step that writes there. |
| CacheHistory.AllBytesWritten | awadb/db_engine/storage/block.cc:102-107 | A writer past its write has sent every byte of every chunk to disk since it began. |
| CacheHistory.PublishCaches | awadb/db_engine/storage/lru_cache.h:480-495 | A reader that publishes leaves its block cached as the youngest cell, unless the cache has no room at all, with the bytes written last but for those of unfinished updates. |
| CacheHistory.LookMoves | awadb/db_engine/storage/lru_cache.h:446-463 | A reader that hits is done, with the key's own cell; one that misses goes on to the insert in flight for its key. |
| CacheProtocol.WriteStep | awadb/db_engine/storage/block.cc:102-103 | When a positioned write begins, all its bytes are owed to every copy of their blocks. |
| CacheProtocol.WriteByteStep | awadb/db_engine/storage/block.cc:103 | Each byte of a positioned write may reach the disk at any time and in any order, between the bytes of loads; the invariant holds throughout. |
| CacheProtocol.WrittenStep | awadb/db_engine/storage/block.cc:103-107 | Once all bytes are on disk the update goes on to the cache. |
| CacheProtocol.PublishStep | awadb/db_engine/storage/lru_cache.h:480-495 | Publishing a block whose load raced with a write keeps the invariant. |
| CacheProtocol.HolderMoves | awadb/db_engine/storage/lru_cache.h:466-495 | The holder of an insert mutex never waits for another one. |
| CacheProtocol.NoDeadlock | awadb/db_engine/storage/lru_cache.h:444-577 | As long as some thread is inside an operation, some such thread can move. |
| CacheProtocol.ReaderFinishes | awadb/db_engine/storage/lru_cache.h:465-495 | A reader's own steps shrink a measure, so it needs finitely many. |
| CacheProtocol.WriterFinishes | awadb/db_engine/storage/block.cc:107-125 | So do a writer's. |
| CacheProtocol.OthersWait | awadb/db_engine/storage/lru_cache.h:444-577 | A step inside one thread's operation leaves the work of every other thread as it is. |
| CacheProtocol.WorkEnds | awadb/db_engine/storage/lru_cache.h:444-577 | A run in which threads start nothing new is no longer than the sum of their work; whenever it cannot go on, every thread is idle. |
| BlockRead.BlockSizeFits | awadb/db_engine/storage/segment.cc:90-92 | A block is a whole number of records and fits a cache buffer, for every record length up to 65536. |
| BlockRead.Block.constructor | awadb/db_engine/storage/segment.cc:86-96 | A new segment is valid beside any cached blocks of other segments. |
| BlockRead.Block.OthersMove | awadb/db_engine/storage/storage_manager.cc:219-221 | Whatever other segments load, patch or evict in the shared cache, this one stays valid. |
| BlockRead.Block.Read | awadb/db_engine/storage/block.cc:55-100 | Returns exactly the file's bytes from start on, across block boundaries, whatever is cached of this and other segments; cells of other segments are at most evicted. |
| BlockRead.Block.Update | awadb/db_engine/storage/block.cc:102-127 | An update anywhere in the file changes those bytes of the file and of cached blocks alike; blocks below the watermark still equal the file and cells of other segments are untouched. |
| BlockRead.ChunksDistinct | awadb/db_engine/storage/block.cc:109-125 | The pieces of one update lie in different blocks. |
| BlockRead.ChunksMirrorUpdate | awadb/db_engine/storage/block.cc:107-125 | The pieces handed to the cache are together exactly the bytes written to the file. |
| BlockRead.Block.WriteBehind | awadb/db_engine/storage/block.cc:72-75 | A background append touches no block that may be cached. |
| BlockRead.Block.UpdateSize | awadb/db_engine/storage/async_writer.cc:45-49 | Raising the persisted count keeps every cached block equal to the file. |
| BlockRead.Block.CutTo | awadb/db_engine/storage/segment.cc:148-152 | After a cut of the persisted records the segment's reads stay valid if and only if no block that is full no more was cached or noted as full by an earlier read. |
| FileBytes.JoinableIffContiguous | awadb/db_engine/storage/async_writer.cc:89-102 | Two given neighbours may be joined, whatever the file holds, if and only if the second starts where the first ends. |
| JoinedWrites.JoinableRunIffContiguous | awadb/db_engine/storage/async_writer.cc:89-102 | A run of non-empty writes of given places and sizes may be made as one, whatever they and the file hold, if and only if each starts where the one before it ends. |
| AsyncWriter.JoinKeeps | awadb/db_engine/storage/async_writer.cc:99-102 | One joined write leaves file and persisted count as the two writes do. |
| AsyncWriter.CountedRecordsAreFinal | awadb/db_engine/storage/async_writer.cc:45-49 | At every step each record below the persisted count is in the file with its final bytes. |
| AsyncWriter.AsyncWriter.AsyncWrite | awadb/db_engine/storage/async_writer.cc:117-127 | Handing over a record that continues its file keeps what is pending in line with the records promised so far. |
| AsyncWriter.AsyncWriter.Pwrite | awadb/db_engine/storage/async_writer.cc:67-68 | One positioned write keeps the disk plus what is pending equivalent to the writes one by one. |
| AsyncWriter.AsyncWriter.UpdateSize | awadb/db_engine/storage/async_writer.cc:45-49 | The count moves only over data already in place. |
| AsyncWriter.AsyncWriter.HandleBatch | awadb/db_engine/storage/async_writer.cc:57-111 | One round takes at most a thousand writes and leaves them all on disk; with the queue empty the disk is that of SyncWrite on each item in order. |
| AsyncWriter.AsyncWriter.Drain | awadb/db_engine/storage/async_writer.cc:56-112 | Rounds until the queue is empty end with exactly that disk: every file holds, behind its header, all that was handed over for it, and counts it. |
| StringBlocks.OpenedBlocks | awadb/db_engine/storage/string_block.cc:87-99 | The 16-bit in-block position is never cut off; no block outgrows 65535 bytes; neighbouring blocks together span a block size. |
| StringBlocks.AppendMirrors | awadb/db_engine/storage/string_block.cc:87-99 | Block index and record are, in 32 and 16 bits, what they would be if offsets did not wrap, wherever the text lands. |
| StringBlocks.CachedBlocksFit | awadb/db_engine/storage/string_block.cc:152-156 | After any run, no cached block of the segment is longer than a cache buffer. |
| StringBlocks.BlocksBounded | awadb/db_engine/table/field_column_data.cc:263-265 | As long as no text starts past 2^32 a segment opens fewer than 400000 blocks. |
| StringBlocks.CacheIdsDistinct | awadb/db_engine/storage/block.cc:134-136 | Blocks of all segments have different cache ids as long as these fit in 32 bits. |
| StringBlocks.PutKeeps | awadb/db_engine/storage/string_block.cc:82-102 | A new string that starts below 2^32 bytes of strings, or is empty, is added and no other changes, cached blocks included. |
| StringBlocks.OverwriteKeeps | awadb/db_engine/storage/string_block.cc:104-120 | Updating in place with a text that is not longer changes that string and no other, in the file and in the cache. |
| StringBlocks.SetKeeps | awadb/db_engine/storage/storage_manager.cc:360-366 | An update in place, or appended below 2^32 bytes of strings, makes the string read as the new text and changes no other. |
| StringBlocks.RefusedUpdates | awadb/db_engine/storage/string_block.cc:108-113 | A text that is not longer is refused its place exactly when the string is alone in its block and the text exceeds the block size. |
| StringBlocks.RefusedInPlace | awadb/db_engine/storage/string_block.cc:108-113 | A concrete store: 65535 bytes set again over themselves, in blocks of 65530, are refused their place and move. |
| StringBlocks.ReadsBack | awadb/db_engine/storage/string_block.cc:122-170 | A record reads back its text, from the file or from a cached block. |
| StringBlocks.RunReadsBack | awadb/db_engine/storage/string_block.cc:82-170 | After any run of puts, updates, growth, cache loads and evictions in which no text starts at or past 2^32 bytes of strings appended, whatever other segments do in the cache, a record reads back the value last stored there if and only if that is shorter than 65536 bytes; of a longer one its first bytes, as many as its size modulo 65536. |
| StringBlocks.TotalWithinLimit | awadb/db_engine/storage/segment.cc:316-340 | No text starts past the limit when the sizes of all strings appended, by puts and by updates that move, total at most 2^32. |
| StringBlocks.LongValueLost | awadb/db_engine/table/field_column_data.cc:309 | A value of 65536 bytes reads back empty. |
| StringBlocks.ApplyLeavesOthers | awadb/db_engine/storage/block.cc:134-136 | What a segment does with strings leaves the cached blocks of other segments alone, unless by evicting them. |
| StringPlaces.PastTheLimit | awadb/db_engine/storage/segment.cc:316-340 | Once strings total 2^32 bytes or more the next text is written from the total modulo 2^32 on; an earlier string still reads back if and only if it has the same bytes wherever that text overwrites it. |
| StringPlaces.PutsReadBackIff | awadb/db_engine/storage/segment.cc:316-340 | Whatever strings of given sizes up to 65535 bytes are put into a new segment, all of them read back if and only if none that is not empty starts at or past 2^32 bytes. |
| StringPlaces.FirstStringOverwritten | awadb/db_engine/storage/segment.cc:337 | A concrete run: 65537 strings of 65535 bytes and one of one byte, then one byte more, which overwrites the first byte of the first string. |
| StringPlaces.StaleIndexMisplaces | awadb/db_engine/storage/segment.cc:226-239 | Of a segment created over an old block index, which string records name the wrong place and by how much: exactly those before the first string that opens a block, all by the same multiple of 65536, which is none in 32 bits exactly when the index ends at 0 or less than 65536 before the limit. |
| StringBlocks.ExtendCapacity | awadb/db_engine/storage/segment.cc:319-323 | The growth loop by 1.3, truncated, ends with room for the string. |
| StringBlocks.StringBlock.WriteString | awadb/db_engine/storage/string_block.cc:82-102 | The text is at the 32-bit start; block list, block id and 16-bit position are those of the first block that has room. |
| StringBlocks.StringBlock.Put | awadb/db_engine/table/field_column_data.cc:308-320 | Takes a value of any length in any state; as long as its text starts below the limit or is empty, the strings held gain what is stored of it and no other changes. |
| StringBlocks.StringBlock.UpdateString | awadb/db_engine/storage/string_block.cc:104-120 | -1 exactly when the text does not fit the block, nothing changed; otherwise file and cached block are patched. |
| StringBlocks.StringBlock.Set | awadb/db_engine/storage/storage_manager.cc:342-369 | Takes a value of any length in any state; in place, or appended below the limit, the strings held change at that index only, to what is stored of it, and the record returned leads to it. |
| StringBlocks.StringBlock.Read | awadb/db_engine/storage/string_block.cc:122-195 | In a valid segment, the text of the record, with its block brought into the cache unless it is the last or too long; in any other state, whatever those bytes are. |
| StorageManagers.Segment.GetValues | awadb/db_engine/storage/segment.cc:347-370 | Waits until the slots are on disk and returns the records of the segment. |
| StorageManagers.Segment.Update | awadb/db_engine/storage/segment.cc:388-392 | The record takes the new value if and only if it had reached the file. |
| StorageManagers.UpdateOvertakes | awadb/db_engine/storage/segment.cc:388-392 | A concrete segment: an update of a record still queued is lost, the same update after the record was read is not. |
| StorageManagers.Segment.SetBaseSize | awadb/db_engine/storage/segment.cc:148-157 | Cuts to a prefix, a larger size changing nothing, and keeps the segment valid, if and only if nothing is queued or nothing is cut off; otherwise the writer will count slots past the end. |
| StorageManagers.Locate | awadb/db_engine/storage/storage_manager.cc:378-390 | Division and remainder by the segment size lead to the record. |
| StorageManagers.CutKeeps | awadb/db_engine/storage/storage_manager.cc:421-456 | What the cut leaves is shaped again and holds the prefix. |
| StorageManagers.StorageManager.Add | awadb/db_engine/storage/storage_manager.cc:253-274 | Appends one record to the sequence; every segment but the last is full and the last is not; a wrong length is refused and changes nothing. |
| StorageManagers.StorageManager.Get | awadb/db_engine/storage/storage_manager.cc:371-393 | The record of that number; exactly the numbers out of range are refused. |
| StorageManagers.StorageManager.GetHeaders | awadb/db_engine/storage/storage_manager.cc:285-323 | The slices laid end to end are the records asked for, and the lengths are theirs. |
| StorageManagers.StorageManager.Update | awadb/db_engine/storage/storage_manager.cc:325-340 | Changes exactly that record if it is persisted, and nothing otherwise; the errors are exactly a bad number or length. |
| StorageManagers.StorageManager.Persist | awadb/db_engine/storage/async_writer.cc:51-115 | The background writer never changes the sequence of records. |
| StorageManagers.StorageManager.Truncate | awadb/db_engine/storage/storage_manager.cc:416-462 | The invariant holds afterwards if and only if the size is at most the number of records and no write is queued for what is dropped or for the segment that is cut; then exactly the prefix is left.  A larger size only makes the size wrong; too many segments asked for is refused. |
| Migration.StepKeeps | awadb/db_engine/search/gamma_engine.cc:1097-1150 | Every step of adds, updates, deletes and of a migration call keeps, for each key, what draining the migration will leave there. |
| Migration.RunKeeps | awadb/db_engine/search/gamma_engine.cc:1789-1821 | So does every interleaving. |
| Migration.BeginEstablishes | awadb/db_engine/search/gamma_engine.cc:1789-1799 | BeginMigrate establishes it whatever the changing thread is doing; docids of a batch already past AddDocid count as refused. |
| Migration.DrainedAgrees | awadb/db_engine/search/gamma_engine.cc:1789-1821 | Drained and at rest, replica and source documents agree if and only if no docid was left refused, and each document agrees exactly when its docid was not. |
| MigrationHistory.Convergence | awadb/db_engine/search/gamma_engine.cc:1789-1821 | After any interleaving, once both cursors are drained and no operation is under way, the replica holds under each key the version last written to its document, by the list of steps alone, and nothing else, if and only if no docid was left refused; those refused are what is missing. |
| MigrationHistory.HistoryTold | awadb/db_engine/search/gamma_engine.cc:1097-1150 | After any run documents and bitmap are what the steps say: keys as added, vectors and scalar fields as last written or else as added, the docids marked. |
| MigrationHistory.LastVecIs | awadb/db_engine/search/gamma_engine.cc:1097-1103 | The vectors last written are those of the last step that writes any to that docid. |
| MigrationHistory.LastFieldsIs | awadb/db_engine/search/gamma_engine.cc:1104-1121 | So for scalar fields, which go to the docid whose vectors were written before. |
| MigrationHistory.UpdateRuns | awadb/db_engine/search/gamma_engine.cc:1097-1124 | A published document can be updated at rest, and then holds the new vectors and fields. |
| Migration.RefusedWhileAdding | awadb/db_engine/search/gamma_engine.cc:1804-1809 | A docid is refused only between being queued and max_docid_ moving past it. |
| Migration.ConvergesUnlessRefused | awadb/db_engine/search/gamma_engine.cc:1801-1821 | A run without such a refusal, begun with no docid of a batch past AddDocid, converges. |
| Migration.BegunInABatch | awadb/db_engine/search/gamma_engine.cc:1789-1799 | A migration begun in the middle of a batch loses each docid that was past AddDocid by then, until its document is updated or deleted again. |
| Migration.ARefusalLoses | awadb/db_engine/search/gamma_engine.cc:887-888 | A concrete run: adding one document to an empty source while it is migrated loses the document for good. |
| Migration.ClaimShrinks | awadb/db_engine/storage/migrate_data.cc:94-113 | Every call with work left shrinks the work, also one that returns nothing. |
| Migration.DrainsAlone | awadb/db_engine/storage/migrate_data.cc:94-134 | Left alone, the calls drain both cursors within a computed number of steps. |
| MigrateQueue.SignBitIsFlag | awadb/db_engine/storage/migrate_data.cc:88-126 | Bit 31 marks a deletion and both masks recover docid and mark. |
| MigrateQueue.DecodeEncode | awadb/db_engine/storage/migrate_data.cc:119-131 | An entry survives the file. |
| MigrateQueue.MigrateData.Init | awadb/db_engine/storage/migrate_data.cc:16-35 | A new queue is empty with its cursor at the start; -1 exactly when the file cannot be opened. |
| MigrateQueue.MigrateData.BeginMigrate | awadb/db_engine/storage/migrate_data.cc:46-59 | The scan starts at 0 with the given limit; the queue stays; false exactly when there is no file. |
| MigrateQueue.MigrateData.TerminateMigrate | awadb/db_engine/storage/migrate_data.cc:61-75 | Afterwards no migration is under way. |
| MigrateQueue.MigrateData.AddDocid | awadb/db_engine/storage/migrate_data.cc:77-83 | The queue gains that docid; false exactly when there is no file. |
| MigrateQueue.MigrateData.DeleteDocid | awadb/db_engine/storage/migrate_data.cc:85-92 | The queue gains a deletion of that docid. |
| MigrateQueue.MigrateData.GetMigrateDocid | awadb/db_engine/storage/migrate_data.cc:94-134 | Result and cursors are those of the protocol's steps, the persisted header never runs ahead, and work left strictly shrinks. |
| Retrieval.DocDetail.Add | awadb/db_engine/search/awadb_retrieval.cc:21-42 | Appends one entry, whatever reallocation it takes; the count keeps eight bits. |
| Retrieval.DocDetail.Seek | awadb/db_engine/search/awadb_retrieval.cc:44-57 | The first id at or past the cursor that is not below the docid, the cursor just behind it; -1 exactly when there is none. |
| Retrieval.AwadbRetrieval.AddDoc | awadb/db_engine/search/awadb_retrieval.cc:72-95 | With increasing docids and distinct words every word's list is exactly the documents that have it, in order, and beside each docid stands the word's count there. |
| Retrieval.PostingIsExact | awadb/db_engine/search/awadb_retrieval.cc:72-95 | Such a list is strictly increasing and has exactly those documents. |
| Retrieval.FrequenciesMatch | awadb/db_engine/search/awadb_retrieval.cc:21-42 | Entry by entry the counts belong to the documents of the docids, cut to eight bits. |
| Retrieval.AwadbRetrieval.LargestFirst | awadb/db_engine/search/awadb_retrieval.cc:102-116 | -1 exactly for a query with an unknown word; otherwise the first list whose first docid is largest. |
| Retrieval.SeekOther | awadb/db_engine/search/awadb_retrieval.cc:127-134 | A seek in another list confirms the candidate or replaces it without skipping a common docid. |
| Retrieval.SeekRepeated | awadb/db_engine/search/awadb_retrieval.cc:136-142 | A candidate that comes up again after being put out is never put out twice when there are two words or more. |
| Retrieval.AwadbRetrieval.Align | awadb/db_engine/search/awadb_retrieval.cc:125-135 | The inner loop ends, at a docid common to all lists or with the whole answer. |
| Retrieval.AwadbRetrieval.Retrieve | awadb/db_engine/search/awadb_retrieval.cc:98-145 | Ends, and appends for two or more words exactly the common docids in ascending order, for one word the list with its first docid twice; the result is -1 or the number of docids. |
| Retrieval.AnswerIsDocuments | awadb/db_engine/search/awadb_retrieval.cc:98-145 | Over the documents added, the answer to two or more words is exactly the documents with all of them, in order, without repetition. |
| BatchIngest.BatchIsFold | awadb/db_engine/search/gamma_engine.cc:907-991 | A batch gives the table, documents and migration notices of AddOrUpdate on each document in order if and only if no two different keys with one number are held back together; on a table free of deleted documents the bitmap agrees too. |
| BatchFold.IngestFolds | awadb/db_engine/search/gamma_engine.cc:831-905 | Documents added one by one come to that: docids, contents and notices, told without the steps. |
| BatchIngest.StaysInStep | awadb/db_engine/search/gamma_engine.cc:950-987 | At every document batch and one-by-one agree until the first clash, after which the batch has more documents. |
| BatchIngest.NoClash | awadb/db_engine/search/gamma_engine.cc:907-991 | Keys with different numbers never clash. |
| LongIds.AClash | awadb/db_engine/table/table.cc:304-311 | A concrete batch of two new LONG ids, document1 and document2: it stores both, one by one the second updates the first. |
| LongIds.SameNumberIff | awadb/db_engine/table/table.cc:304-305 | LONG ids have one number if and only if they agree in their first eight bytes. |
| GammaEngines.GammaEngine.AddOrUpdate | awadb/db_engine/search/gamma_engine.cc:831-905 | A known key: its document alone takes the new content in, and it alone is notified.  A new key: documents, table and notices gain exactly that one entry, at the next docid. |
| GammaEngines.GammaEngine.BatchAdd | awadb/db_engine/search/gamma_engine.cc:915-948 | The contents held back are appended in order and their docids notified. |
| GammaEngines.GammaEngine.AddOrUpdateDocs | awadb/db_engine/search/gamma_engine.cc:907-991 | The documents one by one if and only if there is no clash; then each key's document is the merge, in order, of what it held and all contents for its key, all others are untouched, new keys get the next docids in the order they come up, and each document is notified once. |
| BatchIngest.DeleteLive | awadb/db_engine/search/gamma_engine.cc:1129-1148 | Deletion by key keeps the table free of deleted documents. |
| GammaEngines.GammaEngine.Delete | awadb/db_engine/search/gamma_engine.cc:1129-1151 | 0, 1 and 2 exactly as the key is deleted, unknown, or deleted by query before; only the first changes anything. |
| ScoreFusion.VectorResult.LogicOp | awadb/db_engine/common/common_query_data.h:126-171 | Adding a field adds to every document's sum its distance here times the boost, where absent boost times limit for OR over L2 and else nothing; the maps stay equal to the plain sums, counts and places, whichever field found a document first. |
| ScoreFusion.HitKeeps | awadb/db_engine/common/common_query_data.h:146-169 | A hit trades what its document was charged in this field for distance times boost and changes no other sum; an empty place changes nothing. |
| ScoreFusion.FuseRequest | awadb/db_engine/vector/vector_manager.cc:539-564 | Afterwards exactly the documents found have a score, the sum over the fields of distance times boost where present and, for OR over L2, boost times limit where absent, read off the result arrays; the places noted are where each was found. |
| ScoreFusion.TwoFields | awadb/db_engine/common/common_query_data.h:126-171 | Concrete scores of one and of two fields in all modes. |
| ScoreFusion.AndIsEveryField | awadb/db_engine/vector/vector_manager.cc:573-575 | Under AND the documents counted once per field are exactly those in every field. |
| ScoreFusion.ScorePermutes | awadb/db_engine/vector/vector_manager.cc:544-564 | Scores and counts are the same for any order of the fields. |
| MultiStringCodec.EncodingFits | awadb/db_engine/table/field_column_data.cc:607-622 | The encoded length of 1 to 255 strings of at most 255 bytes fits 16 bits. |
| MultiStringCodec.StringAt | awadb/db_engine/table/field_column_data.cc:658-664 | Each string is found at the offset that the lengths before it add up to. |
| MultiStringCodec.EncodingInjective | awadb/db_engine/table/field_column_data.cc:590-634 | Different lists have different encodings. |
| MultiStringCodec.MultiStrColumn.Put | awadb/db_engine/table/field_column_data.cc:590-634 | -1 for too many strings, -2 for one too long; exactly an acceptable non-empty list adds a row. |
| MultiStringCodec.MultiStrColumn.Get | awadb/db_engine/table/field_column_data.cc:637-667 | Gives back the list that was put unless all its strings are empty, in which case exactly -2 or -3; -1 for an unknown row. |
| Stemmer.PorterStemmer.m | awadb/words_stem_en.py:69-104 | The number of vowel-to-consonant boundaries between k0 and j. |
| Stemmer.PorterStemmer.vowelinstem | awadb/words_stem_en.py:106-111 | Whether a vowel lies between k0 and j. |
| Stemmer.PorterStemmer.ends | awadb/words_stem_en.py:141-151 | Whether the word ends with the suffix, setting j just before it exactly then. |
| Stemmer.PorterStemmer.setto | awadb/words_stem_en.py:153-157 | The word becomes the stem up to j followed by the text. |
| Stemmer.PorterStemmer.r | awadb/words_stem_en.py:159-162 | The suffix is replaced exactly when the stem has a boundary. |
| Stemmer.Dispatch | awadb/words_stem_en.py:216-272 | Switching on a letter finds the first matching rule of the whole table; for a word without that letter any letter read in its place gives the same result. |
| Stemmer.PorterStemmer.step1ab | awadb/words_stem_en.py:164-209 | The step on words that Plurals, Eed, Ed and Ing describe, whatever the indices. |
| Stemmer.PorterStemmer.step1c | awadb/words_stem_en.py:211-214 | The step on words that FinalY describes. |
| Stemmer.PorterStemmer.step2 | awadb/words_stem_en.py:216-272 | The step on words that Rows2A to Rows2T describe, also when the letter before the last is read outside the word. |
| Stemmer.PorterStemmer.step3 | awadb/words_stem_en.py:275-294 | The step on words that Rows3 describes. |
| Stemmer.PorterStemmer.step4 | awadb/words_stem_en.py:296-376 | The step on words that Rows4AtoL to Rows4StoZ describe; -ion read outside the word changes nothing. |
| Stemmer.PorterStemmer.step5 | awadb/words_stem_en.py:378-388 | The step on words that FinalE and FinalLl describe. |
| Stemmer.Step1Size | awadb/words_stem_en.py:164-214 | The first steps leave at least one letter and lengthen nothing. |
| Stemmer.Stem | awadb/words_stem_en.py:390-417 | A stem of a non-empty word is non-empty and not longer than the word. |
| Stemmer.PorterStemmer.stem | awadb/words_stem_en.py:390-417 | The buffer machine computes the stem of every part of every text; parts of at most two letters give the text back. |
| StemmerRules.OtherLetters | awadb/words_stem_en.py:54-67 | Letters but y are consonants exactly when they are none of a, e, i, o, u. |
| StemmerRules.YRun | awadb/words_stem_en.py:54-67 | Of several y in a row every second one is a vowel, beginning as what precedes them says. |
| StemmerRules.MeasureIsCount | awadb/words_stem_en.py:69-104 | The measure is the number of places where a consonant follows a vowel. |
| StemmerRules.Plurals | awadb/words_stem_en.py:185-191 | For every stem, -sses becomes -ss, -ies -i, -ss stays and any other -s goes. |
| StemmerRules.Eed | awadb/words_stem_en.py:192-194 | -eed becomes -ee exactly behind a stem with a boundary. |
| StemmerRules.Ed | awadb/words_stem_en.py:195-209 | -ed goes exactly behind a vowel; the stem then gets an e after -at, -bl, -iz or when it is short, and loses one of two equal consonants other than l, s, z. |
| StemmerRules.Ing | awadb/words_stem_en.py:195-209 | The same for -ing. |
| StemmerRules.FinalY | awadb/words_stem_en.py:211-214 | A final y becomes i exactly when a vowel precedes it. |
| StemmerRules.Rows2A | awadb/words_stem_en.py:222-226 | For every stem with a boundary -ational becomes -ate and otherwise -tional -tion; without one they stay. |
| StemmerRules.Rows2CEG | awadb/words_stem_en.py:227-234 | So for -enci, -anci, -izer and -logi. |
| StemmerRules.Rows2L | awadb/words_stem_en.py:235-248 | So for -bli, -alli, -entli, -eli and -ousli. |
| StemmerRules.Rows2O | awadb/words_stem_en.py:249-255 | So for -ization, -ation behind anything but -iz, and -ator. |
| StemmerRules.Rows2S | awadb/words_stem_en.py:256-264 | So for -alism, -iveness, -fulness and -ousness. |
| StemmerRules.Rows2T | awadb/words_stem_en.py:265-271 | So for -aliti, -iviti and -biliti. |
| StemmerRules.NoRow2 | awadb/words_stem_en.py:216-272 | A word with none of these suffixes stays. |
| StemmerRules.Rows3 | awadb/words_stem_en.py:275-294 | The seven suffixes of the third step, likewise. |
| StemmerRules.NoRow3 | awadb/words_stem_en.py:275-294 | A word with none of them stays. |
| StemmerRules.Rows4AtoL | awadb/words_stem_en.py:296-325 | For every stem -al, -ance, -ence, -er, -ic, -able and -ible go exactly behind two boundaries. |
| StemmerRules.Rows4N | awadb/words_stem_en.py:326-337 | So for -ant, -ement, -ment and -ent, the longest that fits. |
| StemmerRules.Rows4O | awadb/words_stem_en.py:338-345 | So for -ou, and for -ion behind an s or a t; behind any other letter -ion stays. |
| StemmerRules.Rows4StoZ | awadb/words_stem_en.py:346-376 | So for -ism, -ate, -iti, -ous, -ive and -ize. |
| StemmerRules.NoRow4 | awadb/words_stem_en.py:296-376 | A word with none of these suffixes stays. |
| StemmerRules.FinalE | awadb/words_stem_en.py:378-388 | A final e goes behind two boundaries of the whole word, or one if the rest is not short, and with it, behind two, one of a double l. |
| StemmerRules.FinalLl | awadb/words_stem_en.py:378-388 | A double l becomes one exactly behind two boundaries. |
| StemmerWords.PluralWords | awadb/words_stem_en.py:167-171 | The examples caresses, ponies, ties, caress and cats. |
| StemmerWords.EedWords | awadb/words_stem_en.py:173-174 | The examples feed and agreed. |
| StemmerWords.DoubledWords | awadb/words_stem_en.py:177-181 | The examples matting, milling and messing, and hopping. |
| StemmerWords.OtherWords | awadb/words_stem_en.py:175-179 | The examples disabled, mating and meeting; sky and sing stay. |
| StemmerWords.ShortWords | awadb/words_stem_en.py:123-139 | hoping and loving get their e back, boxing, sowing and paying none. |
| StemmerWords.YWords | awadb/words_stem_en.py:211-214 | happy becomes happi and sky stays. |
| StemmerWords.WholeWords | awadb/words_stem_en.py:390-417 | Seven whole stems, each changed by a different step. |

## Left out

- ReadInvertedLists: reads files written by WriteInvertedLists; malformed input and `indexed_vec_count`, which is lowered once per slot, are not modelled.
- ExtendSize: the coefficient is any real between 1.1 and 3.0 that is at least 2.0 when the 8-bit counter is 0, not the arctangent itself.
- CachedBlocksAgree: speaks of cells, not of the buffer pointers `SetOrGet` hands out, which may be reused after an eviction.
- LookupKeeps: `Get`, `Set`, `Get2` and `Set2` of the cache, and a load function that fails, are not modelled.
- PastTheLimit: of a string whose block is not cached; a cached copy hides the overwriting until it is evicted.
- PutsReadBackIff: the file grows by its writes alone; growth by `ftruncate` ahead of them is in RunReadsBack.
- ReadAt: a read past the end of the file gives fewer bytes, where the source leaves the rest of its buffer as it was.
- RunReadsBack: one thread works on a segment's strings at a time; concurrent readers are covered by CacheProtocol only for blocks of records.
- GetMigrateDocid: the bitmap tests of the scan are one step; deletions only ever set bits, so the last test decides.
- AddDoc: allocation failure is not modelled, and neither is a document added twice.
- AddOrUpdateDocs: the overload that also feeds the word index, empty keys, incomplete new documents and result codes are not modelled.
- LogicOp: rounding of floats, and the division by the total boost for inner products, are not modelled.
- RealTimeMemData.Update: of a vector whose slot was compacted away after its document was deleted, which the caller's bitmap test keeps out but for a race, is not modelled.
- NoDeadlock: the cache mutex is no lock of its own; its sections take no further lock and are single steps, so waiting for it is not represented.
- AlterCacheSize: writes its two limits before it takes the lock; here that and the eviction are one step.
- BeginMigrate: opening the queue and reading `max_docid_` are one step.
- Truncate: the cache is not part of it (see `CutTo`); of segments dropped with writes queued it is only said that the store is no longer valid, not what the writer then does.
- HandleBatch: the 1 MB buffer is a sequence; writes of 1 MB or more, for which the source has no check, are excluded.
- Real file I/O, short writes, crashes, logging, timers, delayed frees and memory trimming: files are byte sequences and frees do nothing.
- `AsyncWriter::Sync` as a barrier: it waits for an empty queue, not for the batch already taken.
- Readers of a bucket during compaction, which swaps buffers before it lowers the length.
- `DelDocByQuery`: it neither notifies a migration nor removes keys; the batch's clearing of bitmap bits is modelled, the query path is not.
- `VectorBlock` compression, `CacheList`, `CacheQueue`, `SimpleCache`, `DocidFieldsMgr`, `sort_by_docid` and `VectorResult::seek`.
- Distance computation, index training, network services and the Python and Go clients.
