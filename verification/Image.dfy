/** What goes onto the disk comes back from it: from the formatter to the server, and from one server to the next. */
module Image {
  import opened BlockCache
  import opened Format
  import opened Fs
  import opened FsMap
  import opened Words

  /**
    A server started on a formatted disk reads every file as it was given to the formatter. The server
    gets the struct Files, the blocks and the bitmap; block pointers beyond the direct ones it reads
    from the index blocks.
  */
  method FormatThenRead(nblocks: int, files: seq<seq<int>>, i: int) returns (ok: bool, r: Io, out: seq<int>)
    requires 0 <= nblocks <= WORDS && 0 <= i < |files| <= 128
    requires forall k :: 0 <= k < |files| ==> |files[k]| < (NDIRECT + NINDIRECT) * BLKSIZE
    ensures ok <==> ReservedBlocks(nblocks) + AllBlocks(files, |files|) + BlockCount(256 * |files|) < nblocks
    ensures ok ==> r == Done(|files[i]|) && out == files[i]
  {
    r, out := Panic, [];
    var fmt;
    ok, fmt := MakeImage(nblocks, files);
    if !ok { return; }
    var cache := new Cache(nblocks, fmt.data, fmt.bitmap);
    var server := new Server.Mount(ReservedBlocks(nblocks), fmt.top, fmt.size, cache, fmt.data, fmt.ptr, fmt.nm);
    assert FileThere(server.ptr, server.data, server.size, i, files[i]);
    r, out := server.ReadHeld(i, |files[i]|, 0, files[i]);
  }

  /** Block 0 holds no pointer and no byte of a file. */
  lemma BootBlock(m: FileMap, top: Pointers, data: map<int, seq<int>>, blk: seq<int>)
    requires Sound(m) && Held(m, top, data) && |blk| == BLKSIZE
    ensures Held(m, top, data[0 := blk]) && SameBytes(m.ptr, data, m.ptr, data[0 := blk])
  {
    DataIndexed(m.ptr, m.nm, data, 0, blk);
    forall g, k {:trigger ByteOf(m.ptr, data[0 := blk], g, k)}
      ensures ByteOf(m.ptr, data[0 := blk], g, k) == ByteOf(m.ptr, data, g, k)
    {
      var b := BlockOf(m.ptr, g, k / BLKSIZE);
      if b.Some? { assert b.value in m.nm; }
    }
  }

  /** Every byte of every file is the same. */
  ghost predicate SameBytes(ptr: Pointers, data: map<int, seq<int>>, ptr': Pointers, data': map<int, seq<int>>) {
    forall g, k {:trigger ByteOf(ptr', data', g, k)} :: ByteOf(ptr', data', g, k) == ByteOf(ptr, data, g, k)
  }

  lemma SameHolds(ptr: Pointers, data: map<int, seq<int>>, ptr': Pointers, data': map<int, seq<int>>, f: int, lo: int,
                  hi: int, buf: seq<int>)
    requires SameBytes(ptr, data, ptr', data') && Holds(ptr, data, f, lo, hi, buf)
    ensures Holds(ptr', data', f, lo, hi, buf)
  {
  }

  /**
    fs_sync, and then a server that starts with nothing in memory on the disk that the first one has
    left: every byte of every file is there.
  */
  method SyncThenRestart(server: Server) returns (next: Server)
    requires server.Valid()
    modifies server.cache
    ensures fresh(next) && fresh(next.cache) && next.bitmap == server.bitmap
    ensures next.Valid() && next.size == server.size && SameBytes(server.ptr, server.data, next.ptr, next.data)
  {
    ghost var m, data := server.Map(), server.data;
    var cache := server.cache.SyncThenRestart();
    if cache.nblocks > 0 {
      BootBlock(m, server.top, data, cache.Logical(0));
      data := data[0 := cache.Logical(0)];
    }
    next := new Server.Mount(server.nreserved, server.top, server.size, cache, data, m.ptr, m.nm);
  }

  /** A write is durable: after fs_sync and a restart, what was written is read back. */
  method WriteSyncRead(server: Server, f: int, buf: seq<int>, offset: int) returns (w: Io, r: Io, out: seq<int>)
    requires server.Valid() && f in server.size && 0 <= offset
    modifies server, server.bitmap, server.cache
    ensures w.Done? ==> r == Done(|buf|) && out == buf
  {
    r, out := Panic, [];
    w := server.Write(f, buf, offset);
    if !w.Done? { return; }
    var next := SyncThenRestart(server);
    SameHolds(server.ptr, server.data, next.ptr, next.data, f, offset, offset + |buf|, buf);
    r, out := next.ReadHeld(f, |buf|, offset, buf);
  }
}
