# WindowsBlockCache in Dafny

A Dafny model of the core of WindowsBlockCache, with proofs about it. WindowsBlockCache is a user-space block cache that sits in front of
file I/O. Each open handle owns:

- a `FileContext`, holding a cursor, an `MRUCache` of up to 1024 blocks of 4096 bytes, and a set of dirty blocks;
- the entry points `mru_open`, `mru_close`, `mru_lseek`, `mru_read`, `mru_write` and `mru_fsync`.

Reads and writes are cut into block-sized chunks, and each chunk goes through the cache. A miss pulls the block from the backing file. Writes only
mark blocks dirty. `fsync` and `close` write the dirty blocks that are still cached back to the file.

The cache evicts the **most** recently used entry, and an eviction does not write a
dirty block back.

The modules:

- `Common`: the constants `BLOCK_SIZE` = 4096 and `CACHE_CAPACITY` = 1024, the `off_t` range (32 bits: the code builds only on Windows, where `off_t` is a `long` and `_lseek` takes a `long`), `byte`, `uint64`, and `Option` (for nullable pointers).
- `MruCache`: `MRUCache` as an immutable value.
  - `order` is `mru_list`, front first.
  - `index` is the key set of `cache_map`.
  - `data` is `data_map`.
  - `get` and `put` are pure functions; `Valid` is the class invariant.
- `MruCacheLemmas`:
  - read-after-write, size accounting and MRU eviction;
  - the capacity-2 example;
  - agreement of any run of calls with the latest values put.
- `BlockStore`: the backing file.
  - It holds the file's bytes and an explicit fault description: independent sets of blocks that fail to read and blocks that fail to write (a block can be written and still fail to read back), a failing `fstat`, a failing durability barrier.
  - A block read is zero-padded past the end of the file.
- `Chunking`: the `block_num` / `block_offset` / `bytes_to_copy` arithmetic of the loops, and the proof that the chunks tile the transfer.
- `FileContext`: the context and its three loops.
  - The loops of `mru_read`, `mru_write` and `mru_fsync` are tail-recursive functions over one-iteration step functions.
  - A failing iteration returns the state reached so far, as the source does when it returns -1 mid-loop.
- `FileContextLemmas`:
  - frames and failure conditions of the loops;
  - what a read returns and what a write leaves in the cache;
  - the write-then-read round trip;
  - durability through fsync and a fresh context;
  - a lost write.
- `HandleTable`: `g_file_map` and `next_handle` become the explicit state `Sys`.
  - The files are a map from path to store.
  - Each entry point is a function from state to state and return value.
- `HandleTableLemmas`:
  - handle allocation (3, 4, 5, …, never reused);
  - `close` hiding a failed flush;
  - the two round trips through the entry points.
- `ChunkLoops`: the `while (count > 0)` loops of `mru_read` and `mru_write` as methods with a cursor, a remaining count and the bytes
  produced, proved to compute what the recursive loop functions of `FileContext` compute.

Where the code and its description differ, the model follows the code:

- A read past the end of the file does not return 0 bytes. The block buffer is zero-initialised and a short `pread` is not an error, so the read returns
  `count` bytes, zero past the end (`BlockStore.ReadBlock`, `FileContextLemmas.ReadUncachedRange`).
- `close` does not propagate a failing flush. `mru_close` ignores the result of `mru_fsync` and always returns 0
  (`HandleTable.Close`, `HandleTableLemmas.CloseHidesFlushFailure`).
- Writing N bytes and reading them back is not always a round trip. `put` can evict a dirty block, which is then never written back. The round trip
  holds when the cache has room for the blocks the write visits (`HandleTableLemmas.WriteSeekRead`). It fails in general: a two-byte write straddling a
  block boundary into a full cache evicts its own first block. Reading back then returns the file's old byte (`FileContextLemmas.StraddlingReadBack`),
  and a flush reports success without writing that byte (`FileContextLemmas.DirtyEvictionLoss`). This is modelled as written, not corrected.

## Model

| member | source | states |
|---|---|---|
| `MruCache.Empty` | src/block_cache/mru_policy.cpp:7-8 | A new cache is valid and empty, with the given capacity and block size. |
| `MruCache.Without` | src/block_cache/mru_policy.cpp:16 | Dropping a key from the list removes exactly that key and keeps the list duplicate-free. It shortens the list by one when the key was there. |
| `MruCache.EraseIsWithout` | src/block_cache/mru_policy.cpp:16 | Erasing the element an iterator points at equals removing that element's key from a duplicate-free list. |
| `MruCache.Promote` | src/block_cache/mru_policy.cpp:16-18 | Erase-then-push-front puts the key first and keeps the same keys, with no duplicates and the same length. |
| `MruCache.PromoteErasesAtIterator` | src/block_cache/mru_policy.cpp:16-18 | Promotion is the list with the key's one occurrence cut out and the key pushed on the front. |
| `MruCache.Stored` | src/block_cache/mru_policy.cpp:52-58 | An inserted block is `blockSize` bytes: the caller's first `blockSize` bytes, or all zero for a null buffer. |
| `MruCache.Get` | src/block_cache/mru_policy.cpp:10-26 | A hit happens exactly when the key is present. A miss changes nothing. A hit moves the key to the front, keeps every entry and yields the key's block. |
| `MruCache.EvictFront` | src/block_cache/mru_policy.cpp:42-47 | Eviction drops the front key from the list and from both maps, and nothing else. |
| `MruCache.Insert` | src/block_cache/mru_policy.cpp:49-58 | A new key goes on the front of the list and into both maps, with its stored block. |
| `MruCache.Put` | src/block_cache/mru_policy.cpp:28-59 | The cache stays valid. The key ends up at the front with the new block, or with its old block for a null buffer. No other key gains or changes data. Only the front key can disappear, and only when a new key goes into a full cache. The size grows exactly when a new key goes in below capacity. |
| `MruCacheLemmas.EntriesBounded` | include/block_cache/mru_policy.hpp:66-71 | The list, `cache_map` and `data_map` have equal sizes, never above the capacity. |
| `MruCacheLemmas.GetAfterPut` | src/block_cache/mru_policy.cpp:10-59 | After `put(k, d)`, `get(k)` hits and returns the caller's block, or for a null buffer the old or zero block. |
| `MruCacheLemmas.PutSize` | src/block_cache/mru_policy.cpp:28-59 | An update keeps the size. An insertion below capacity adds one entry. An insertion at capacity stays at capacity. |
| `MruCacheLemmas.EvictsMostRecentlyPut` | include/block_cache/mru_policy.hpp:11-19 | In a full cache, putting a new key right after putting `j` evicts `j` and keeps every other key. |
| `MruCacheLemmas.EvictsMostRecentlyGot` | src/block_cache/mru_policy.cpp:10-59 | In a full cache, putting a new key right after a `get(j)` hit evicts `j` and keeps every other key. |
| `MruCacheLemmas.CapacityTwoExample` | src/block_cache/mru_policy.cpp:42-50 | With capacity 2, `put 1, 2, 3` leaves keys {1, 3} in the order [3, 1], with block 1 intact. |
| `MruCacheLemmas.Run` | src/block_cache/mru_policy.cpp:10-59 | Any run of `get` calls and of `put` calls with a non-null buffer (the only kind the file handler issues) keeps the cache valid, with the same capacity and block size. |
| `MruCacheLemmas.RunAgreesWith` | src/block_cache/mru_policy.cpp:10-59 | Every entry after a run holds the block last put for its key, if the reference map agreed with the cache before the run. |
| `MruCacheLemmas.GetReturnsLatestPut` | src/block_cache/mru_policy.cpp:10-59 | After any run of `get` calls and non-null `put` calls, a `get` either misses or returns the block most recently put for that key. |
| `BlockStore.ReadBlock` | src/block_cache/file_handler.cpp:95-100 | A block read fails exactly for a block with a read fault. Otherwise it yields 4096 bytes: the file's bytes, and zero past the end. |
| `BlockStore.WriteBlock` | src/block_cache/file_handler.cpp:163-168 | A block write fails exactly for a block with a write fault, whatever its read faults. Otherwise the block's bytes become the written ones, every other byte is kept, and the file grows to cover the block. |
| `BlockStore.ReadAfterWrite` | src/block_cache/file_handler.cpp:163-168 | Reading a block just written yields the written block, unless the block has a read fault. |
| `BlockStore.ReadOtherAfterWrite` | src/block_cache/file_handler.cpp:163-168 | Writing one block leaves every other block reading as before. |
| `Chunking.ChunkAt` | src/block_cache/file_handler.cpp:91-93 | A loop step's chunk starts at the cursor, is non-empty, stays inside one block and takes at most `count` bytes. When it takes fewer, it reaches the block's end. |
| `Chunking.ChunkInBlock` | src/block_cache/file_handler.cpp:91-93 | Every byte of a chunk has the chunk's block number, at the chunk's offset plus its index. |
| `Chunking.EndBlock` | src/block_cache/file_handler.cpp:90-111 | The visited block range is empty exactly for an empty transfer, and never starts after it ends. |
| `Chunking.ChunkSpan` | src/block_cache/file_handler.cpp:90-111 | One step visits the first block of the range. The rest of the loop starts at the next block and ends where the whole loop ends. |
| `Chunking.InBlockRange` | src/block_cache/file_handler.cpp:90-111 | Every byte of a transfer lies in a block of its visited range. |
| `Chunking.ChunksCover` | src/block_cache/file_handler.cpp:90-111 | The chunks start at the cursor, end at cursor + count and add up to count; there are none exactly for an empty transfer. |
| `Chunking.ChunksWithinBlocks` | src/block_cache/file_handler.cpp:90-111 | Every chunk is non-empty and stays inside its block. |
| `Chunking.ChunksContiguous` | src/block_cache/file_handler.cpp:90-111 | Each chunk starts where the previous one ends: no gap and no overlap. |
| `Chunking.ChunksIncreasing` | src/block_cache/file_handler.cpp:90-111 | Each chunk lies in a strictly later block than the previous one, so no block is visited twice. |
| `Chunking.ChunksTile` | src/block_cache/file_handler.cpp:90-111 | The chunks tile the transfer exactly once, without gap, overlap or repeated block. |
| `Chunking.TouchedRange` | src/block_cache/file_handler.cpp:128-149 | The blocks a transfer visits are exactly those from the first byte's block to the last byte's block. |
| `Chunking.TouchedChunkBlocks` | src/block_cache/file_handler.cpp:90-111 | The blocks a transfer visits are exactly the blocks of the chunks of its decomposition. |
| `Chunking.TouchedSplit` | src/block_cache/file_handler.cpp:128-149 | Each step adds exactly one new block to the visited set. |
| `FileContext.NewContext` | include/block_cache/file_handler.hpp:34-42 | A fresh context has cursor 0, an empty valid cache of 1024 blocks of 4096 bytes, and no dirty blocks. |
| `FileContext.FetchForRead` | src/block_cache/file_handler.cpp:95-104 | It fails exactly on a miss on a block with a read fault. A hit returns the cached block and changes no entry. A miss caches the file's block. No entry of another block is added or altered; a miss into a full cache can evict the front entry, whichever block it holds. |
| `FileContext.FetchForWrite` | src/block_cache/file_handler.cpp:133-139 | It fails exactly on a miss on a block with a read fault. A hit yields the cached block, a miss the file's block, and no entry changes. |
| `FileContext.Splice` | src/block_cache/file_handler.cpp:141 | The copy replaces exactly the chunk's bytes of the block and keeps the rest. |
| `FileContext.ReadStep` | src/block_cache/file_handler.cpp:91-110 | One read iteration fails exactly on a miss on a block with a read fault. Otherwise it advances the cursor by the chunk, returns the chunk's bytes, and caches the block. A hit does the source's second `get`, which promotes the block again and has no other effect. It adds or alters no entry of another block; a miss into a full cache can evict the front entry, whichever block it holds, dirty or not. |
| `FileContext.ReadLoop` | src/block_cache/file_handler.cpp:87-113 | A completed read advances the cursor by `count` and returns `count` bytes. A failed one stops short, having returned exactly the bytes it passed. The dirty set is untouched. |
| `FileContext.WriteStep` | src/block_cache/file_handler.cpp:129-148 | One write iteration fails exactly on a miss on a block with a read fault. Otherwise it advances the cursor by the chunk, caches the block and marks it dirty. It adds or alters no entry of another block; a miss into a full cache can evict the front entry, whichever block it holds, dirty or not. |
| `FileContext.WriteLoop` | src/block_cache/file_handler.cpp:125-151 | A completed write advances the cursor by the data's length. A failed one stops short of it. |
| `FileContext.FlushLoop` | src/block_cache/file_handler.cpp:161-170 | The write-back loop keeps every cache entry, and only promotes. |
| `FileContext.FlushLoopOk` | src/block_cache/file_handler.cpp:161-170 | The write-back completes exactly when no pending block that is still cached has a write fault. |
| `FileContext.FlushLoopWritesBack` | src/block_cache/file_handler.cpp:161-170 | A completed write-back leaves each pending cached block's cached bytes in the file. Evicted and clean blocks keep the file's bytes. |
| `FileContext.Fsync` | src/block_cache/file_handler.cpp:154-178 | With a cached dirty block that has a write fault it returns -1 and keeps the dirty set. Otherwise it clears the dirty set, writes back every cached dirty block, and returns 0 exactly when the barrier succeeds. |
| `FileContextLemmas.ReadStepBytes` | src/block_cache/file_handler.cpp:95-106 | One read iteration copies out the bytes the context sees: cached on a hit, from the file on a miss. |
| `FileContextLemmas.ReadStepKeys` | src/block_cache/file_handler.cpp:95-104 | A hitting iteration changes no entry. A missing one adds only its own block. |
| `FileContextLemmas.WriteStepBytes` | src/block_cache/file_handler.cpp:133-142 | After one write iteration, the block holds the caller's bytes over the chunk and the previously visible bytes elsewhere. |
| `FileContextLemmas.WriteStepRoom` | src/block_cache/file_handler.cpp:133-142 | An iteration that needs no eviction keeps every key. The cache grows by one exactly when the block was not cached. |
| `FileContextLemmas.ReadLoopFrame` | src/block_cache/file_handler.cpp:87-113 | A read adds or alters no entry outside the blocks it visits, though its misses can evict entries of other blocks. It completes when none of them has a read fault. |
| `FileContextLemmas.WriteLoopCacheFrame` | src/block_cache/file_handler.cpp:125-151 | A write adds or alters no entry outside the blocks it visits, though its misses can evict entries of other blocks, dirty ones included. |
| `FileContextLemmas.WriteLoopDirty` | src/block_cache/file_handler.cpp:125-151 | A write marks dirty only blocks it visits, and all of them when it completes. It completes when none of them has a read fault. |
| `FileContextLemmas.ReadCachedKeeps` | src/block_cache/file_handler.cpp:87-113 | A read whose blocks are all cached completes and changes no entry. |
| `FileContextLemmas.ReadCachedAt` | src/block_cache/file_handler.cpp:87-113 | Byte `i` of a read whose blocks are all cached is the cached byte. |
| `FileContextLemmas.ReadCachedRange` | src/block_cache/file_handler.cpp:87-113 | A read whose blocks are all cached is served from the cache: it completes, returns the cached bytes and changes no entry. |
| `FileContextLemmas.ReadUncachedAt` | src/block_cache/file_handler.cpp:87-113 | Byte `i` of a read with no cached block is the file's byte, as far as the read gets. |
| `FileContextLemmas.ReadUncachedRange` | src/block_cache/file_handler.cpp:87-113 | A read with no cached block and no read fault completes and returns the file's bytes, zero past the end of the file. |
| `FileContextLemmas.WriteLoopWrittenAt` | src/block_cache/file_handler.cpp:125-151 | After a completed write, written byte `i` holds the caller's byte `i` while its block is cached. |
| `FileContextLemmas.WriteLoopWritten` | src/block_cache/file_handler.cpp:125-151 | After a completed write, every written byte whose block is cached holds the caller's byte. |
| `FileContextLemmas.WriteLoopRoom` | src/block_cache/file_handler.cpp:125-151 | A write into a cache with room for all its blocks evicts nothing. When it completes, it caches every block it visited. |
| `FileContextLemmas.WriteThenRead` | src/block_cache/file_handler.cpp:78-152 | Reading back at the write's start returns exactly the bytes written, provided the write completed and its blocks are still cached. |
| `FileContextLemmas.WriteSyncReopenRead` | src/block_cache/file_handler.cpp:154-178 | A fresh context reading at the write's start returns the written bytes, provided the write completed, none of the blocks it visited was evicted before the flush, the flush completed, and none of those blocks fails to read. |
| `FileContextLemmas.WriteStepEvicts` | src/block_cache/file_handler.cpp:133-142 | A write iteration on an uncached block into a full cache evicts the front entry and puts its own block first. |
| `FileContextLemmas.StraddlingChunks` | src/block_cache/file_handler.cpp:129-131 | A two-byte transfer starting at a block's last byte is two one-byte chunks in consecutive blocks. The rows below use this straddling setup: a write of two bytes at a block's last byte, into a full cache that holds neither of the two blocks. |
| `FileContextLemmas.StraddleFirstStep` | src/block_cache/file_handler.cpp:129-148 | In the straddling setup, with the first block free of read faults, the write's first iteration puts the first block at the front of the full cache and leaves the second uncached. |
| `FileContextLemmas.StraddleSecondStep` | src/block_cache/file_handler.cpp:129-148 | In the straddling setup after the first iteration (the first block at the front of the full cache), with the second block free of read faults, the second iteration caches the second block by evicting the first. |
| `FileContextLemmas.StraddlingWriteEvicts` | src/block_cache/file_handler.cpp:125-151 | In the straddling setup, with neither block having a read fault, the write completes and marks both blocks dirty, but only the second block stays cached, holding the second byte. |
| `FileContextLemmas.StraddlingReadBack` | src/block_cache/file_handler.cpp:78-152 | In the straddling setup, with neither block having a read fault, reading back the first byte of the write returns the file's old byte. |
| `FileContextLemmas.DirtyEvictionLoss` | src/block_cache/file_handler.cpp:154-178 | In the straddling setup, on a file with no read fault, no write fault and a barrier that succeeds, fsync after the write returns 0 and leaves the first written byte in the file unchanged. The second is written. |
| `HandleTable.Init` | src/block_cache/file_handler.cpp:4-5 | The table starts empty, with the next handle 3. |
| `HandleTable.Open` | src/block_cache/file_handler.cpp:28-40 | Open returns -1, changing nothing, exactly for a null path or a path with no file. Otherwise it returns `next_handle`, which was not in use, registers a fresh context under it and increments the counter. It keeps every other handle. |
| `HandleTable.Sync` | src/block_cache/file_handler.cpp:154-178 | An unknown handle gives -1. Otherwise, when no cached dirty block has a write fault, those blocks reach its file, the dirty set clears, and the result is 0 or, if only the barrier fails, -1. On a block write fault the result is -1 and the dirty set is kept. Only that handle and that file change. |
| `HandleTable.Close` | src/block_cache/file_handler.cpp:42-53 | An unknown handle gives -1. Otherwise close flushes the file, removes the handle and returns 0 whatever the flush returned. |
| `HandleTable.Lseek` | src/block_cache/file_handler.cpp:55-76 | An unknown handle, an unknown `whence` or a failing `fstat` give -1 with nothing changed. Otherwise the cursor becomes the SET/CUR/END target, unchecked, and is returned. |
| `HandleTable.Read` | src/block_cache/file_handler.cpp:78-114 | A null buffer or unknown handle gives -1 with nothing changed. Otherwise the result is `count` exactly when the loop completes and -1 when it fails, and only this handle changes. |
| `HandleTable.Write` | src/block_cache/file_handler.cpp:116-152 | A null buffer or unknown handle gives -1 with nothing changed. Otherwise the result is `count` exactly when the loop completes and -1 when it fails; files and other handles are unchanged. |
| `HandleTableLemmas.OpenAll` | src/block_cache/file_handler.cpp:28-40 | Opening a run of files hands out consecutive handles from `next_handle`, each with a fresh context. Earlier handles are untouched. |
| `HandleTableLemmas.FirstHandles` | src/block_cache/file_handler.cpp:4-40 | In a fresh process the first three opens return 3, 4 and 5, each with a fresh 1024-block context. |
| `HandleTableLemmas.ClosedHandleNotReused` | src/block_cache/file_handler.cpp:37-51 | After a handle is closed, the next open returns a larger handle. |
| `HandleTableLemmas.CloseHidesFlushFailure` | src/block_cache/file_handler.cpp:42-53 | When the flush fails, close still returns 0 and drops the handle. |
| `HandleTableLemmas.SizeBySeeking` | apps/loader.cpp:16-18 | `lseek(h, 0, SEEK_CUR)` returns the cursor, `lseek(h, 0, SEEK_END)` returns the file's size (or -1 when `fstat` fails), and seeking back to the saved cursor restores the whole state. |
| `HandleTableLemmas.WriteSeekRead` | src/block_cache/file_handler.cpp:55-152 | Write, seek back with SEEK_SET, then read returns the written bytes, if the cache has room for the write's blocks and none of those blocks fails to read. |
| `HandleTableLemmas.WriteCloseReopenRead` | src/block_cache/file_handler.cpp:28-178 | Write, close, reopen, seek, then read returns the written bytes, provided the cache had room for every block the write visits and the file has no read or write fault. The reopened handle is the next one. |
| `ChunkLoops.ReadChunks` | src/block_cache/file_handler.cpp:87-113 | The chunk-by-chunk loop of `mru_read` returns exactly what `FileContext.ReadLoop` returns: all `count` bytes with the cursor `count` on, or, on a failed block, the bytes of the completed chunks with the cursor moved by their number. The chunks its iterations work on are exactly `Chunking.Chunks` of the transfer, so the tiling lemmas describe this loop; a failed read stops at the start of the next chunk of that decomposition, whose block has a read fault. |
| `ChunkLoops.WriteChunks` | src/block_cache/file_handler.cpp:125-151 | The chunk-by-chunk loop of `mru_write` leaves exactly the state `FileContext.WriteLoop` leaves: the cursor moved by the data's length, or, on a failed block, stopped short of it. Its iterations work on exactly the chunks of `Chunking.Chunks`, or on a proper prefix of them that ends before the chunk whose block has a read fault. |

## Left out

- The benchmark program `apps/loader.cpp` is not modelled: it is a client of the entry points. Only its file-size idiom (seek to the end and back) is stated, as `HandleTableLemmas.SizeBySeeking`.
- The `pread`/`pwrite` shims (`file_handler.cpp:9-26`) are not modelled. `BlockStore.ReadBlock`/`WriteBlock` act on an abstract store, so the shims' save and restore of the OS file position is not visible.
- The OS calls `open(O_RDWR | O_DIRECT)`, `close`, `fstat` and `fsync`/`_commit` are replaced by the store and its fault flags. An `open` failure is modelled only as a path with no backing file. A failing descriptor `close` is ignored by the source.
- The backing file is a raw byte store, as a binary-mode descriptor gives. `open` in the source passes no `_O_BINARY`, so the Windows C runtime opens the file in text mode. There `_write` expands each LF into CR LF and `_read` collapses CR LF and stops at 0x1A, which shifts bytes across block boundaries. That text-mode translation is not modelled, and the durability round trips (`FileContextLemmas.WriteSyncReopenRead`, `HandleTableLemmas.WriteCloseReopenRead`) hold only for a binary-mode descriptor.
- A short `pwrite` is not modelled: every block write that does not fail writes the whole block.
- The two mutexes are not modelled: every entry point is atomic, so concurrent interleavings are not modelled.
- `fsync` visits `dirty_blocks` in `unordered_map` order, which is unspecified. It is a parameter: any duplicate-free enumeration of the dirty set.
- HandleTable.Read: requires a non-negative cursor. `mru_lseek` can set a negative cursor, and the division and remainder of a negative `off_t` then produce wrapped `uint64_t` block numbers and `size_t` offsets; that is not modelled.
- HandleTable.Write: requires a non-negative cursor, for the same reason.
- HandleTable.Read: requires cursor + count to fit in `off_t`, which is a 32-bit `long` on Windows (`OFF_T_MAX` = 2^31 - 1). A longer transfer overflows the signed cursor at `ctx->offset += bytes_to_copy`, which is undefined behaviour; in practice the cursor wraps negative and the next `_lseek` fails, and that outcome is not modelled.
- HandleTable.Write: requires cursor + count to fit in `off_t`, for the same reason.
- HandleTable.Open: requires `next_handle` below `INT_MAX` on the success path, because `next_handle++` would overflow a signed `int`.
- HandleTable.Lseek: requires the offset, and the SEEK_CUR target or (when `fstat` succeeds) the SEEK_END target, to fit in the 32-bit `off_t`; signed overflow is undefined behaviour. A failing `fstat` returns -1 before any addition, so no bound is required then.
- HandleTable.Read: the buffer is only a null/non-null flag. The bytes copied are returned, not written into caller memory.
- MruCache.Put: requires capacity > 0, because `mru_list.front()` on an empty list is undefined. It also requires the buffer to hold at least `blockSize` bytes, as `memcpy` does.
- MruCache.Get: requires the class invariant. The `data_map` lookup guard at `mru_policy.cpp:21` always succeeds under it. The `data == nullptr` case is the caller not using the returned block.
