/**
 Properties of the handle table across several calls: how handles are
 allocated, that a closed handle is not handed out again, and the two
 round trips through the entry points (write, seek back, read; and write,
 close, reopen, seek, read).
 */
module HandleTableLemmas {
  import opened Common
  import opened MruCache
  import opened BlockStore
  import opened Chunking
  import opened FileContext
  import opened FileContextLemmas
  import opened HandleTable

  /** Opening a run of existing files hands out consecutive handles from
      `next_handle` on, each registered with a fresh context for its path, and
      leaves the handles already open as they were. */
  method OpenAll(s: Sys, paths: seq<string>) returns (t: Sys, handles: seq<int>)
    requires SysValid(s)
    requires forall i :: 0 <= i < |paths| ==> paths[i] in s.fs
    requires s.nextHandle + |paths| <= INT32_MAX
    ensures SysValid(t) && t.fs == s.fs
    ensures t.nextHandle == s.nextHandle + |paths|
    ensures |handles| == |paths|
    ensures forall i :: 0 <= i < |paths| ==>
      handles[i] == s.nextHandle + i && handles[i] in t.files && t.files[handles[i]] == NewContext(paths[i])
    ensures forall h :: h in s.files ==> h in t.files && t.files[h] == s.files[h]
  {
    hide Open, NewContext, ContextValid;
    t, handles := s, [];
    var i := 0;
    while i < |paths|
      invariant i <= |paths|
      invariant SysValid(t) && t.fs == s.fs
      invariant t.nextHandle == s.nextHandle + i
      invariant |handles| == i
      invariant forall j :: 0 <= j < i ==>
        handles[j] == s.nextHandle + j && handles[j] in t.files && t.files[handles[j]] == NewContext(paths[j])
      invariant forall h :: h in s.files ==> h in t.files && t.files[h] == s.files[h]
    {
      var r := Open(t, Some(paths[i]));
      t, handles := r.sys, handles + [r.value];
      i := i + 1;
    }
  }

  /** In a fresh process the first three successful opens return 3, 4 and 5,
      each with a context at cursor 0, an empty cache of 1024 blocks of 4096
      bytes, and no dirty blocks. */
  lemma FirstHandles(fs: map<string, Disk>, p: string, q: string, u: string)
    requires p in fs && q in fs && u in fs
    ensures var r1 := Open(Init(fs), Some(p));
            var r2 := Open(r1.sys, Some(q));
            var r3 := Open(r2.sys, Some(u));
      && r1.value == 3 && r2.value == 4 && r3.value == 5
      && r3.sys.files.Keys == {3, 4, 5}
      && r3.sys.files[3].cursor == 0 && r3.sys.files[3].dirty == {}
      && |r3.sys.files[3].cache.data| == 0
      && r3.sys.files[3].cache.capacity == 1024 && r3.sys.files[3].cache.blockSize == 4096
  {
  }

  /** A handle is never handed out twice: after it is closed, the next open
      returns a larger handle. */
  lemma ClosedHandleNotReused(s: Sys, h: int, enumeration: seq<uint64>, path: string)
    requires SysValid(s) && h in s.files
    requires NoDups(enumeration) && Elems(enumeration) == s.files[h].dirty
    requires path in s.fs && s.nextHandle < INT32_MAX
    ensures var c := Close(s, h, enumeration);
            var o := Open(c.sys, Some(path));
      && c.value == 0
      && h !in c.sys.files
      && o.value > h
  {
  }

  /** `close` reports success even when the flush it performs fails, and the
      blocks the flush could not write are gone with the context. */
  lemma CloseHidesFlushFailure(s: Sys, h: int, enumeration: seq<uint64>)
    requires SysValid(s) && h in s.files
    requires NoDups(enumeration) && Elems(enumeration) == s.files[h].dirty
    requires Sync(s, h, enumeration).value == ERROR
    ensures var c := Close(s, h, enumeration);
      c.value == 0 && h !in c.sys.files && c.sys.nextHandle == s.nextHandle
  {
  }

  /** The file-size idiom of the benchmark client: remember the cursor with
      `lseek(h, 0, SEEK_CUR)`, take `lseek(h, 0, SEEK_END)` as the size, then
      seek back. It returns the cursor and the file's size (or -1 when `fstat`
      fails) and leaves the whole state as it was. */
  lemma SizeBySeeking(s: Sys, h: int)
    requires SysValid(s) && h in s.files
    requires IsOffT(s.files[h].cursor)
    requires !s.fs[s.files[h].file].statFails ==> IsOffT(Size(s.fs[s.files[h].file]))
    ensures var here := Lseek(s, h, 0, SEEK_CUR);
            var end := Lseek(here.sys, h, 0, SEEK_END);
            var back := Lseek(end.sys, h, here.value, SEEK_SET);
      && here.value == s.files[h].cursor
      && (s.fs[s.files[h].file].statFails ==> end.value == ERROR)
      && (!s.fs[s.files[h].file].statFails ==> end.value == Size(s.fs[s.files[h].file]))
      && back.sys == s
  {
    var here := Lseek(s, h, 0, SEEK_CUR);
    assert here.sys.files == s.files;
    var end := Lseek(here.sys, h, 0, SEEK_END);
    var back := Lseek(end.sys, h, here.value, SEEK_SET);
    assert back.sys.files == s.files;
  }

  /** Writing bytes through a handle, seeking back to where the write began
      and reading the same number of bytes returns the bytes written, when the
      cache has room for every block the write visits. */
  lemma WriteSeekRead(s: Sys, h: int, data: seq<byte>)
    requires SysValid(s) && h in s.files
    requires 0 <= s.files[h].cursor && s.files[h].cursor + |data| <= OFF_T_MAX
    requires var ctx := s.files[h];
      |ctx.cache.order| + (EndBlock(ctx.cursor, |data|) - StartBlock(ctx.cursor)) <= ctx.cache.capacity
    requires NoReadFault(s.fs[s.files[h].file], StartBlock(s.files[h].cursor),
                        EndBlock(s.files[h].cursor, |data|))
    ensures var start := s.files[h].cursor;
            var w := Write(s, h, Some(data));
            var k := Lseek(w.sys, h, start, SEEK_SET);
            var r := Read(k.sys, h, true, |data|);
      && w.value == |data|
      && k.value == start
      && r.value == |data|
      && r.out == data
      && r.sys.files[h].cursor == start + |data|
  {
    var ctx := s.files[h];
    var d := s.fs[ctx.file];
    WriteLoopDirty(ctx, d, data);
    WriteLoopRoom(ctx, d, data);
    WriteThenRead(ctx, d, data);
  }

  /** Bytes written through a handle survive `close`: reopening the file,
      seeking to where the write began and reading returns them, when the cache
      had room for every block the write visits and the file has no faulty
      block. The new handle is the next one allocated. */
  lemma WriteCloseReopenRead(s: Sys, h: int, data: seq<byte>, enumeration: seq<uint64>)
    requires SysValid(s) && h in s.files && s.nextHandle < INT32_MAX
    requires 0 <= s.files[h].cursor && s.files[h].cursor + |data| <= OFF_T_MAX
    requires var ctx := s.files[h];
      |ctx.cache.order| + (EndBlock(ctx.cursor, |data|) - StartBlock(ctx.cursor)) <= ctx.cache.capacity
    requires s.fs[s.files[h].file].readFaults == {} && s.fs[s.files[h].file].writeFaults == {}
    requires NoDups(enumeration) && Elems(enumeration) == Write(s, h, Some(data)).sys.files[h].dirty
    ensures var file := s.files[h].file;
            var start := s.files[h].cursor;
            var w := Write(s, h, Some(data));
            var c := Close(w.sys, h, enumeration);
            var o := Open(c.sys, Some(file));
            var k := Lseek(o.sys, o.value, start, SEEK_SET);
            var r := Read(k.sys, o.value, true, |data|);
      && w.value == |data|
      && c.value == 0
      && o.value == s.nextHandle
      && r.value == |data|
      && r.out == data
  {
    hide Write, Close, Open, Lseek, Read, WriteLoop, ReadLoop, Valid;
    var ctx := s.files[h];
    var d := s.fs[ctx.file];
    WriteLoopDirty(ctx, d, data);
    WriteLoopRoom(ctx, d, data);
    WriteSyncReopenRead(ctx, d, data, enumeration);
  }
}
