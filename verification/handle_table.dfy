/**
 The process-wide handle table of `file_handler.cpp` and the six entry points
 `mru_open`, `mru_close`, `mru_lseek`, `mru_read`, `mru_write` and `mru_fsync`.

 The globals `g_file_map` and `next_handle` become the explicit state `Sys`,
 threaded through every call. The backing files are a map from path to store:
 `open` fails for a path with no backing file, and every context reaches its
 store through the path it was opened on, so two handles on one path share the
 store but not their caches. The mutexes are left out: every call is atomic.
 */
module HandleTable {
  import opened Common
  import opened MruCache
  import opened BlockStore
  import opened FileContext

  /** The `whence` values of `lseek`. */
  const SEEK_SET: int := 0
  const SEEK_CUR: int := 1
  const SEEK_END: int := 2

  /** `next_handle` starts above the standard streams 0, 1 and 2. */
  const FIRST_HANDLE: int := 3

  /** The error sentinel every entry point returns. */
  const ERROR: int := -1

  datatype Sys = Sys(files: map<int, Context>, nextHandle: int, fs: map<string, Disk>)

  /** Every registered handle was allocated (it lies in `FIRST_HANDLE ..
      nextHandle - 1`), its context is well formed, and its file exists. */
  predicate SysValid(s: Sys) {
    && FIRST_HANDLE <= s.nextHandle
    && (forall h :: h in s.files ==> FIRST_HANDLE <= h < s.nextHandle)
    && (forall h :: h in s.files ==> ContextValid(s.files[h]) && s.files[h].file in s.fs)
  }

  /** The state at program start: no open handles, `next_handle = 3`. */
  function Init(fs: map<string, Disk>): (s: Sys)
    ensures SysValid(s)
    ensures s.files == map[] && s.nextHandle == 3 && s.fs == fs
  {
    Sys(map[], FIRST_HANDLE, fs)
  }

  /** The state after a call and the integer the call returns. */
  datatype Ret = Ret(sys: Sys, value: int)

  /** `mru_open(path)`. A null path, or a path with no backing file, returns -1
      and changes nothing; otherwise a fresh context is registered under
      `next_handle`, which is returned and then incremented. */
  function Open(s: Sys, path: Option<string>): (r: Ret)
    requires SysValid(s)
    requires path.Some? && path.value in s.fs ==> s.nextHandle < INT32_MAX
    ensures SysValid(r.sys)
    ensures r.sys.fs == s.fs
    ensures r.value == ERROR <==> path.None? || path.value !in s.fs
    ensures r.value == ERROR ==> r.sys == s
    ensures r.value != ERROR ==>
      && r.value == s.nextHandle
      && r.value !in s.files
      && r.sys.nextHandle == s.nextHandle + 1
      && r.sys.files.Keys == s.files.Keys + {r.value}
      && r.sys.files[r.value] == NewContext(path.value)
      && (forall h :: h in s.files ==> r.sys.files[h] == s.files[h])
  {
    if path.None? then Ret(s, ERROR)
    else if path.value !in s.fs then Ret(s, ERROR)
    else
      var h := s.nextHandle;
      Ret(s.(files := s.files[h := NewContext(path.value)], nextHandle := h + 1), h)
  }

  /** `mru_fsync(handle)`. An unknown handle returns -1; otherwise the dirty
      blocks still cached are written to the handle's file and the result of the
      write-back and barrier is returned. No other handle and no other file changes. */
  function Sync(s: Sys, h: int, enumeration: seq<uint64>): (r: Ret)
    requires SysValid(s)
    requires h in s.files ==> NoDups(enumeration) && Elems(enumeration) == s.files[h].dirty
    ensures SysValid(r.sys)
    ensures r.sys.nextHandle == s.nextHandle && r.sys.files.Keys == s.files.Keys
    ensures h !in s.files ==> r == Ret(s, ERROR)
    ensures r.value == 0 || r.value == ERROR
    ensures h in s.files ==>
      var ctx := s.files[h];
      var d := s.fs[ctx.file];
      && r.sys.files[h].cursor == ctx.cursor
      && r.sys.files[h].cache.data == ctx.cache.data
      && r.sys.fs.Keys == s.fs.Keys
      && (Flushable(ctx, d) ==>
            && r.sys.files[h].dirty == {}
            && (r.value == 0 <==> !d.syncFails)
            && forall p: nat :: ByteAt(r.sys.fs[ctx.file], p) == SyncedByte(ctx, d, p))
      && (!Flushable(ctx, d) ==> r.value == ERROR && r.sys.files[h].dirty == ctx.dirty)
    ensures forall g :: g in s.files && g != h ==> r.sys.files[g] == s.files[g]
    ensures forall f :: f in s.fs && (h !in s.files || f != s.files[h].file) ==> r.sys.fs[f] == s.fs[f]
  {
    if h !in s.files then Ret(s, ERROR)
    else
      var ctx := s.files[h];
      var y := Fsync(ctx, s.fs[ctx.file], enumeration);
      Ret(s.(files := s.files[h := y.ctx], fs := s.fs[ctx.file := y.disk]), y.status)
  }

  /** `mru_close(handle)`. An unknown handle returns -1. Otherwise the handle is
      flushed, its context is discarded and 0 is returned, whatever the flush
      reported: a failing write-back is not propagated. */
  function Close(s: Sys, h: int, enumeration: seq<uint64>): (r: Ret)
    requires SysValid(s)
    requires h in s.files ==> NoDups(enumeration) && Elems(enumeration) == s.files[h].dirty
    ensures SysValid(r.sys)
    ensures r.sys.nextHandle == s.nextHandle
    ensures h !in s.files ==> r == Ret(s, ERROR)
    ensures h in s.files ==>
      && r.value == 0
      && r.sys.files == s.files - {h}
      && r.sys.fs == Sync(s, h, enumeration).sys.fs
  {
    if h !in s.files then Ret(s, ERROR)
    else
      var y := Sync(s, h, enumeration);
      Ret(y.sys.(files := y.sys.files - {h}), 0)
  }

  /** `mru_lseek(handle, offset, whence)`. An unknown handle, an unknown
      `whence`, or a failing `fstat` for `SEEK_END` returns -1 and leaves the
      cursor alone; otherwise the cursor becomes `offset` from the start, from
      the cursor, or from the end of the file, and is returned. The new cursor
      is not checked: it may be negative or past the end of the file. */
  function Lseek(s: Sys, h: int, offset: int, whence: int): (r: Ret)
    requires SysValid(s)
    requires IsOffT(offset)
    requires h in s.files && whence == SEEK_CUR ==> IsOffT(s.files[h].cursor + offset)
    requires h in s.files && whence == SEEK_END && !s.fs[s.files[h].file].statFails ==>
      IsOffT(Size(s.fs[s.files[h].file]) + offset)
    ensures SysValid(r.sys)
    ensures r.sys.fs == s.fs && r.sys.nextHandle == s.nextHandle
    ensures h !in s.files ==> r == Ret(s, ERROR)
    ensures h in s.files && whence !in {SEEK_SET, SEEK_CUR, SEEK_END} ==> r == Ret(s, ERROR)
    ensures h in s.files && whence == SEEK_END && s.fs[s.files[h].file].statFails ==> r == Ret(s, ERROR)
    ensures h in s.files && (whence in {SEEK_SET, SEEK_CUR} ||
                             (whence == SEEK_END && !s.fs[s.files[h].file].statFails)) ==>
      var ctx := s.files[h];
      var target := if whence == SEEK_SET then offset
                    else if whence == SEEK_CUR then ctx.cursor + offset
                    else Size(s.fs[ctx.file]) + offset;
      && r.value == target
      && r.sys.files == s.files[h := ctx.(cursor := target)]
  {
    if h !in s.files then Ret(s, ERROR)
    else
      var ctx := s.files[h];
      var target :=
        if whence == SEEK_SET then Some(offset)
        else if whence == SEEK_CUR then Some(ctx.cursor + offset)
        else if whence == SEEK_END then
          (if s.fs[ctx.file].statFails then None else Some(Size(s.fs[ctx.file]) + offset))
        else None;
      match target
      case None => Ret(s, ERROR)
      case Some(t) => Ret(s.(files := s.files[h := ctx.(cursor := t)]), t)
  }

  /** The state after `mru_read`, its return value and the bytes it copied into the buffer. */
  datatype ReadRet = ReadRet(sys: Sys, value: int, out: seq<byte>)

  /** `mru_read(handle, buf, count)`, where `hasBuf` is false for a null buffer.
      A null buffer or an unknown handle returns -1 before anything changes. A
      read that completes returns `count` and moves the cursor `count` bytes on;
      one that hits a block it cannot read returns -1, with the cursor and the
      cache as the completed iterations left them. */
  function Read(s: Sys, h: int, hasBuf: bool, count: nat): (r: ReadRet)
    requires SysValid(s)
    requires hasBuf && h in s.files ==> 0 <= s.files[h].cursor && s.files[h].cursor + count <= OFF_T_MAX
    ensures SysValid(r.sys)
    ensures r.sys.fs == s.fs && r.sys.nextHandle == s.nextHandle && r.sys.files.Keys == s.files.Keys
    ensures !hasBuf || h !in s.files ==> r == ReadRet(s, ERROR, [])
    ensures hasBuf && h in s.files ==>
      var ctx := s.files[h];
      var l := ReadLoop(ctx, s.fs[ctx.file], count);
      && (r.value == count <==> l.ok)
      && (r.value == ERROR <==> !l.ok)
      && r.out == l.out
      && r.sys.files[h] == l.ctx
      && (l.ok ==> |r.out| == count && r.sys.files[h].cursor == ctx.cursor + count)
      && r.sys.files[h].dirty == ctx.dirty
    ensures forall g :: g in s.files && g != h ==> r.sys.files[g] == s.files[g]
  {
    if !hasBuf || h !in s.files then ReadRet(s, ERROR, [])
    else
      var ctx := s.files[h];
      var l := ReadLoop(ctx, s.fs[ctx.file], count);
      ReadRet(s.(files := s.files[h := l.ctx]), if l.ok then count else ERROR, l.out)
  }

  /** `mru_write(handle, buf, count)` with `buf` the caller's `count` bytes
      (`None` for a null buffer). A null buffer or an unknown handle returns -1
      before anything changes. A write that completes returns `count` and moves
      the cursor `count` bytes on; one that hits a block it cannot read returns
      -1, with the cursor, cache and dirty set as the completed iterations left
      them. Nothing reaches the file before a flush. */
  function Write(s: Sys, h: int, buf: Option<seq<byte>>): (r: Ret)
    requires SysValid(s)
    requires buf.Some? && h in s.files ==>
      0 <= s.files[h].cursor && s.files[h].cursor + |buf.value| <= OFF_T_MAX
    ensures SysValid(r.sys)
    ensures r.sys.fs == s.fs && r.sys.nextHandle == s.nextHandle && r.sys.files.Keys == s.files.Keys
    ensures buf.None? || h !in s.files ==> r == Ret(s, ERROR)
    ensures buf.Some? && h in s.files ==>
      var ctx := s.files[h];
      var w := WriteLoop(ctx, s.fs[ctx.file], buf.value);
      && (r.value == |buf.value| <==> w.ok)
      && (r.value == ERROR <==> !w.ok)
      && r.sys.files[h] == w.ctx
      && (w.ok ==> r.sys.files[h].cursor == ctx.cursor + |buf.value|)
    ensures forall g :: g in s.files && g != h ==> r.sys.files[g] == s.files[g]
  {
    if buf.None? || h !in s.files then Ret(s, ERROR)
    else
      var ctx := s.files[h];
      var w := WriteLoop(ctx, s.fs[ctx.file], buf.value);
      Ret(s.(files := s.files[h := w.ctx]), if w.ok then |buf.value| else ERROR)
  }
}
