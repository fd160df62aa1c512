/**
  The file server's block operations: allocation, the walk from file block to disk block,
  reading, writing and changing the size of a file.
*/
module Fs {
  import opened Options
  import opened Words
  import opened FsMap
  import Bitmap
  import BlockCache

  datatype Error = EInval | ENotFound | ENoDisk

  /** file_block_walk: the slot, or an error. */
  datatype Walk = At(slot: Name) | Bad(error: Error)

  /** file_get_block: the block, an error return, or the panic of diskaddr on a full disk. */
  datatype Get = Block(number: int) | Failed(error: Error) | Panicked

  /** What file_read and file_write return: a count, an error, or the panic of file_get_block. */
  datatype Io = Done(count: int) | Error(error: Error) | Panic

  const MAXFILESIZE: int := (NDIRECT + NINDIRECT) * BLKSIZE

  /** Each outcome of file_get_block for block `i`, by what is mapped and what is free before the call. */
  ghost predicate Gets(r: Get, ptr: Pointers, free: set<int>, f: int, i: int) {
    && (r.Block? <==> Mappable(ptr, free, f, i))
    && (r == Failed(EInval) <==> i >= NDIRECT + NINDIRECT)
    && (r == Failed(ENoDisk) <==> i < NDIRECT + NINDIRECT && SlotOf(ptr, f, i).None? && free == {})
    && (r.Panicked? <==>
          i < NDIRECT + NINDIRECT && BlockOf(ptr, f, i).None? && |free| == BlockCost(ptr, f, i) - 1)
    && r != Failed(ENotFound)
  }

  /**
    file_get_block promises -E_NO_DISK for a block that it cannot get on a full disk. That is what it
    returns precisely when no block is free and the index block is the one that it needs first;
    otherwise it panics.
  */
  lemma NoDiskPromise(r: Get, ptr: Pointers, free: set<int>, f: int, i: int)
    requires Gets(r, ptr, free, f, i) && 0 <= i < NDIRECT + NINDIRECT && !r.Block?
    ensures r == Failed(ENoDisk) <==> i >= NDIRECT && Indirect(f) !in ptr && free == {}
    ensures r != Failed(ENoDisk) ==> r == Get.Panicked
  {
    assert free == {} <==> |free| == 0;
  }

  /** The first block of an empty file on a full disk. */
  lemma FullDiskPanics(r: Get, f: int)
    requires Gets(r, map[], {}, f, 0)
    ensures r == Get.Panicked
  {
  }

  /** What file_read and file_write return, by how the transfer ends. */
  predicate Ends(r: Io, fate: Fate) {
    match fate
    case Fits => r.Done?
    case TooLarge => r == Error(EInval)
    case NoIndex => r == Error(ENoDisk)
    case Full => r == Panic
  }

  /** The same for a block that could not be had. */
  predicate Stops(g: Get, fate: Fate) {
    match fate
    case Fits => false
    case TooLarge => g == Failed(EInval)
    case NoIndex => g == Failed(ENoDisk)
    case Full => g == Get.Panicked
  }

  /** The first block that cannot be had ends the transfer as foreseen. */
  lemma StopsThere(g: Get, ptr: Pointers, free: set<int>, f: int, offset: int, pos: int, end: int, fate: Fate)
    requires Gets(g, ptr, free, f, pos / BLKSIZE) && !g.Block?
    requires Going(ptr, free, f, offset, pos, end, fate) && pos < end
    ensures Stops(g, fate)
  {
    Stuck(ptr, free, f, offset, pos, end, fate);
    assert free == {} <==> |free| == 0;
  }

  class Server {
    const nreserved: int
    const nblocks: int
    const bitmap: array<Bitmap.Word>
    const cache: BlockCache.Cache       // the blocks, index blocks among them
    var top: Pointers                   // f_direct and f_indirect of the files
    var size: map<int, int>
    ghost var data: map<int, seq<int>>  // what the cache shows
    ghost var ptr: Pointers             // every pointer of every file, whether in a struct File or in an index block
    ghost var nm: map<int, Name>
    ghost var free: set<int>

    ghost function Map(): FileMap
      reads this
    {
      FileMap(ptr, nm, size, free, nreserved, nblocks)
    }

    ghost predicate BitsOk()
      reads `free, bitmap
    {
      0 <= nblocks <= 32 * bitmap.Length && free == Bitmap.FreeSet(bitmap[..], nblocks)
    }

    ghost predicate CacheOk()
      reads `data, cache
    {
      cache.nblocks == nblocks && cache.bitmap == bitmap && cache.Shows(data)
    }

    ghost predicate Valid()
      reads this, bitmap, cache
    {
      Sound(Map()) && nblocks <= WORDS && Held(Map(), top, data) && BitsOk() && CacheOk()
    }

    /** A server for a formatted disk, which the cache shows as `data`. */
    constructor Mount(nreserved: int, top: Pointers, size: map<int, int>, cache: BlockCache.Cache,
                      ghost data: map<int, seq<int>>, ghost ptr: Pointers, ghost nm: map<int, Name>)
      requires cache.Shows(data) && cache.nblocks <= WORDS
      requires Sound(MountMap(nreserved, size, cache, ptr, nm))
      requires Held(MountMap(nreserved, size, cache, ptr, nm), top, data)
      ensures Valid() && this.cache == cache && this.bitmap == cache.bitmap && this.data == data && this.ptr == ptr
      ensures Map() == MountMap(nreserved, size, cache, ptr, nm)
    {
      this.nreserved, this.nblocks, this.bitmap, this.cache := nreserved, cache.nblocks, cache.bitmap, cache;
      this.top, this.size, this.data, this.ptr, this.nm := top, size, data, ptr, nm;
      free := Bitmap.FreeSet(cache.bitmap[..], cache.nblocks);
    }

    /** The map of a disk with these pointers, with the free blocks that the bitmap has. */
    static ghost function MountMap(nreserved: int, size: map<int, int>, cache: BlockCache.Cache, ptr: Pointers,
                                   nm: map<int, Name>): FileMap
      requires cache.Coherent()
      reads cache, cache.bitmap
    {
      FileMap(ptr, nm, size, Bitmap.FreeSet(cache.bitmap[..], cache.nblocks), nreserved, cache.nblocks)
    }

    /** A load from block `b`. The server never does so from a block marked free, so bc_pgfault does not panic. */
    method ReadBlock(b: int) returns (blk: seq<int>)
      requires CacheOk() && BitsOk() && 0 <= b < nblocks && b !in free
      modifies cache
      ensures CacheOk() && b in data && blk == data[b]
    {
      var ok;
      ok, blk := cache.Load(b);
      assert ok;
      forall c | 0 <= c < nblocks ensures c in data && data[c] == cache.Logical(c) {
        assert var was := old(cache.Logical(c)); c in data && data[c] == was;
      }
    }

    /** A store to block `b`, likewise. */
    method WriteBlock(b: int, blk: seq<int>)
      requires CacheOk() && BitsOk() && 0 <= b < nblocks && b !in free && |blk| == BLKSIZE
      modifies cache, `data
      ensures CacheOk() && data == old(data)[b := blk]
    {
      var ok := cache.Store(b, blk);
      assert ok;
      data := data[b := blk];
    }

    /** alloc_block: the lowest free block. */
    method AllocBlock() returns (r: Option<int>)
      requires BitsOk()
      modifies `free, bitmap
      ensures BitsOk()
      ensures r.None? ==> free == old(free) == {}
      ensures r.Some? ==>
        r.value in old(free) && free == old(free) - {r.value} && forall b :: b in old(free) ==> r.value <= b
    {
      r := Bitmap.AllocBlock(bitmap, nblocks);
      if r.Some? { free := free - {r.value}; }
    }

    /** free_block */
    method FreeBlock(b: int)
      requires BitsOk() && 0 < b < nblocks
      modifies `free, bitmap
      ensures BitsOk() && free == old(free) + {b}
    {
      Bitmap.FreeBlock(bitmap, nblocks, b);
      free := free + {b};
    }

    /** The part of file_block_walk that makes an index block: it is cleared before it is entered. */
    method NewIndexBlock(f: int) returns (ok: bool)
      requires Valid() && f in size && Indirect(f) !in ptr
      modifies `top, `ptr, `free, `nm, `data, bitmap, cache
      ensures Valid() && SameBlocks(old(ptr), ptr) && MoreNames(old(nm), nm) && KeepsData(old(nm), old(data), data)
      ensures ok <==> old(free) != {}
      ensures ok ==> Indirect(f) in ptr && |free| == |old(free)| - 1
      ensures !ok ==> unchanged(this)
    {
      ghost var m := Map();
      var b := AllocBlock();
      if b.None? { return false; }
      AddIndexHeld(m, top, data, f, b.value);
      WriteBlock(b.value, ZEROS);
      top := top[Indirect(f) := b.value];
      ptr, nm := ptr[Indirect(f) := b.value], nm[b.value := Indirect(f)];
      assert Map() == Add(m, Indirect(f), b.value);
      ok := true;
    }

    /** file_block_walk */
    method BlockWalk(f: int, filebno: int, alloc: bool) returns (r: Walk)
      requires Valid() && f in size && 0 <= filebno
      modifies `top, `ptr, `free, `nm, `data, bitmap, cache
      ensures Valid() && SameBlocks(old(ptr), ptr) && MoreNames(old(nm), nm) && KeepsData(old(nm), old(data), data)
      ensures r.At? ==> SlotOf(ptr, f, filebno) == Some(r.slot)
      ensures r.At? ==> |free| == |old(free)| - if old(SlotOf(ptr, f, filebno)).None? then 1 else 0
      ensures r.At? ==> (Indirect(f) in ptr <==> Indirect(f) in old(ptr) || filebno >= NDIRECT)
      ensures r.Bad? ==> unchanged(this) && SlotOf(ptr, f, filebno).None?
      ensures r == Bad(EInval) <==> filebno >= NDIRECT + NINDIRECT
      ensures r == Bad(ENotFound) <==> old(SlotOf(ptr, f, filebno)).None? && filebno < NDIRECT + NINDIRECT && !alloc
      ensures r == Bad(ENoDisk) <==>
        old(SlotOf(ptr, f, filebno)).None? && filebno < NDIRECT + NINDIRECT && alloc && old(free) == {}
      ensures old(SlotOf(ptr, f, filebno)).Some? ==> unchanged(this)
    {
      if filebno >= NDIRECT + NINDIRECT { return Bad(EInval); }
      if filebno < NDIRECT { return At(Direct(f, filebno)); }
      if Indirect(f) !in top {
        if !alloc { return Bad(ENotFound); }
        var ok := NewIndexBlock(f);
        if !ok { return Bad(ENoDisk); }
      }
      r := At(Entry(top[Indirect(f)], filebno - NDIRECT));
    }

    /** A slot that the walk finds lies in a struct File or in an index block. */
    lemma WalkedPlace(f: int, filebno: int)
      requires Valid() && SlotOf(ptr, f, filebno).Some?
      ensures HasPlace(nm, SlotOf(ptr, f, filebno).value)
      ensures
        var x := SlotOf(ptr, f, filebno).value;
        x.Entry? ==> x.block in data && |data[x.block]| == BLKSIZE
    {
      var x := SlotOf(ptr, f, filebno).value;
      if x.Entry? { assert nm[ptr[Indirect(f)]] == Indirect(f); }
    }

    /** *ppdiskbno */
    method Load(f: int, filebno: int, slot: Name) returns (n: int)
      requires Valid() && SlotOf(ptr, f, filebno) == Some(slot)
      modifies cache
      ensures Valid() && n == NumberAt(ptr, slot) && (n != 0 <==> slot in ptr)
    {
      WalkedPlace(f, filebno);
      ReadIs(Map(), top, data, slot);
      if slot.Entry? {
        PlaceInUse(Map(), slot);
        var blk := ReadBlock(slot.block);
        n := IndexWord(blk, slot.i);
      } else {
        n := if slot in top then top[slot] else 0;
      }
    }

    /** The store of `v` at a pointer: in a struct File, or in a word of an index block. */
    method Put(slot: Name, v: int, ghost m: FileMap)
      requires CacheOk() && BitsOk() && Sound(m) && Filled(data, nblocks) && m.nblocks == nblocks
      requires HasPlace(m.nm, slot) && (slot.Entry? ==> slot.block !in free) && 0 <= v < WORDS
      modifies `top, `data, cache
      ensures CacheOk() && top == TopWith(old(top), slot, v) && data == DataWith(old(data), slot, v)
    {
      PlaceInUse(m, slot);
      top := TopWith(top, slot, v);
      if slot.Entry? {
        var blk := ReadBlock(slot.block);
        WriteBlock(slot.block, WithWord(blk, 4 * slot.i, v));
      }
    }

    /** *ppdiskbno = b, for a block just allocated; `m` is the map before the allocation. */
    method Enter(slot: Name, b: int, ghost m: FileMap)
      requires Sound(m) && Held(m, top, data) && nblocks <= WORDS && BitsOk() && CacheOk()
      requires Map() == m.(free := m.free - {b})
      requires slot !in m.ptr && b in m.free && InFile(m.nm, m.size, slot) && !slot.Indirect?
      modifies `top, `ptr, `nm, `data, cache
      ensures Valid() && Map() == Add(m, slot, b) && KeepsData(m.nm, old(data), data)
    {
      AddHeld(m, top, data, slot, b);
      PlaceInUse(m, slot);
      Put(slot, b, m);
      ptr, nm := ptr[slot := b], nm[b := slot];
    }

    /** *ppdiskbno = 0, for a block just given back; `m` is the map before that. */
    method Leave(slot: Name, b: int, ghost m: FileMap)
      requires Sound(m) && Held(m, top, data) && nblocks <= WORDS && BitsOk() && CacheOk()
      requires Map() == m.(free := m.free + {b})
      requires slot in m.ptr && m.ptr[slot] == b && !slot.Indirect?
      modifies `top, `ptr, `nm, `data, cache
      ensures Valid() && Map() == Drop(m, slot) && KeepsData(nm, old(data), data)
      ensures MoreNames(nm, m.nm) && data.Keys == old(data).Keys
    {
      DropHeld(m, top, data, slot);
      assert m.nm[b] == slot;
      PlaceInUse(m, slot);
      Put(slot, 0, m);
      ptr, nm := ptr - {slot}, nm - {b};
    }

    /** The part of file_get_block that allocates the block; None when the disk is full. */
    method Fill(f: int, filebno: int, slot: Name) returns (r: Option<int>)
      requires Valid() && SlotOf(ptr, f, filebno) == Some(slot) && slot !in ptr && InFile(nm, size, slot)
      modifies `top, `ptr, `free, `nm, `data, bitmap, cache
      ensures Valid() && OnlyAt(old(ptr), ptr, f, filebno) && KeepsData(old(nm), old(data), data)
      ensures r.None? <==> old(free) == {}
      ensures r.None? ==> unchanged(this)
      ensures Indirect(f) in ptr <==> Indirect(f) in old(ptr)
      ensures r.Some? ==> |free| == |old(free)| - 1
      ensures r.Some? ==> BlockOf(ptr, f, filebno) == r && SlotOf(ptr, f, filebno) == Some(slot) && slot in ptr
    {
      ghost var m := Map();
      WalkedPlace(f, filebno);
      r := AllocBlock();
      if r.None? { return; }
      AddMaps(m, f, filebno, r.value);
      Enter(slot, r.value, m);
    }

    /** file_get_block, for a block below the end of the file. */
    method GetBlock(f: int, filebno: int) returns (r: Get)
      requires Valid() && f in size && 0 <= filebno && filebno * BLKSIZE < size[f]
      modifies `top, `ptr, `free, `nm, `data, bitmap, cache
      ensures Valid() && OnlyAt(old(ptr), ptr, f, filebno) && KeepsData(old(nm), old(data), data)
      ensures old(BlockOf(ptr, f, filebno)).Some? ==> r == Block(old(BlockOf(ptr, f, filebno)).value) && unchanged(this)
      ensures r.Block? ==> BlockOf(ptr, f, filebno) == Some(r.number)
      ensures Gets(r, old(ptr), old(free), f, filebno)
      ensures r.Block? ==> |free| == |old(free)| - BlockCost(old(ptr), f, filebno)
      ensures r.Block? ==> (Indirect(f) in ptr <==> Indirect(f) in old(ptr) || filebno >= NDIRECT)
      ensures !r.Block? ==> SameBlocks(old(ptr), ptr)
    {
      var w := BlockWalk(f, filebno, true);
      if w.Bad? {
        assert w.error.EInval? || w.error.ENoDisk?;
        return Failed(w.error);
      }
      var n := Load(f, filebno, w.slot);
      if n == 0 {
        ghost var nm1, d1 := nm, data;
        var b := Fill(f, filebno, w.slot);
        KeepsDataTrans(old(nm), nm1, old(data), d1, data);
        if b.None? { return Get.Panicked; }
        n := b.value;
      }
      r := Block(n);
    }

    /** The memmove of file_write, into block `b` of the disk; no index block is reached by it. */
    method CopyIn(f: int, pos: int, chunk: seq<int>, b: int)
      requires Valid() && InBlock(pos, |chunk|) && BlockOf(ptr, f, pos / BLKSIZE) == Some(b)
      modifies `data, cache
      ensures Valid() && Kept(ptr, old(data), ptr, data, f, pos, pos + |chunk|)
      ensures Holds(ptr, data, f, pos, pos + |chunk|, chunk)
    {
      PatchHeld(Map(), top, data, f, pos, chunk, b);
      var blk := ReadBlock(b);
      WriteBlock(b, Patched(blk, pos % BLKSIZE, chunk));
    }

    /** One round of file_write's loop: copy a chunk that lies within one block. */
    method WriteChunk(f: int, pos: int, chunk: seq<int>) returns (r: Get)
      requires Valid() && f in size && InBlock(pos, |chunk|) && |chunk| > 0 && pos + |chunk| <= size[f]
      modifies `top, `ptr, `free, `nm, `data, bitmap, cache
      ensures Valid()
      ensures Kept(old(ptr), old(data), ptr, data, f, pos, if r.Block? then pos + |chunk| else pos)
      ensures r.Block? ==>
        Holds(ptr, data, f, pos, pos + |chunk|, chunk) && NowMapped(old(ptr), old(free), ptr, free, f, pos / BLKSIZE)
      ensures Gets(r, old(ptr), old(free), f, pos / BLKSIZE)
    {
      ghost var m, d := Map(), data;
      assert pos / BLKSIZE * BLKSIZE <= pos;
      r := GetBlock(f, pos / BLKSIZE);
      MappingKeeps(m, d, ptr, data, f, pos / BLKSIZE, pos);
      if !r.Block? { return; }
      ghost var p1, d1 := ptr, data;
      CopyIn(f, pos, chunk, r.number);
      KeptTrans(m.ptr, d, p1, d1, ptr, data, f, pos, pos, pos + |chunk|);
    }

    /** file_free_block */
    method FreeFileBlock(f: int, filebno: int)
      requires Valid() && f in size && 0 <= filebno
      modifies `top, `ptr, `free, `nm, `data, bitmap, cache
      ensures Valid() && OnlyAt(old(ptr), ptr, f, filebno) && BlockOf(ptr, f, filebno) == None
      ensures MoreNames(nm, old(nm)) && KeepsData(nm, old(data), data) && data.Keys == old(data).Keys
    {
      var w := BlockWalk(f, filebno, false);
      if w.Bad? { return; }
      var n := Load(f, filebno, w.slot);
      if n != 0 { Clear(f, filebno, w.slot, n); }
    }

    /** The block `n` at `slot` is given back and the slot set to zero. */
    method Clear(f: int, filebno: int, slot: Name, n: int)
      requires Valid() && SlotOf(ptr, f, filebno) == Some(slot) && slot in ptr && ptr[slot] == n
      modifies `top, `ptr, `free, `nm, `data, bitmap, cache
      ensures Valid() && OnlyAt(old(ptr), ptr, f, filebno) && BlockOf(ptr, f, filebno) == None
      ensures MoreNames(nm, old(nm)) && KeepsData(nm, old(data), data) && data.Keys == old(data).Keys
    {
      ghost var m := Map();
      DropMaps(m, f, filebno);
      assert nm[n] == slot;
      FreeBlock(n);
      Leave(slot, n, m);
    }

    /** The end of file_truncate_blocks: give the index block back. */
    method FreeIndex(f: int)
      requires Valid() && Indirect(f) in ptr
      requires forall i :: NDIRECT <= i < NDIRECT + NINDIRECT ==> BlockOf(ptr, f, i) == None
      modifies `top, `ptr, `free, `nm, bitmap
      ensures Valid() && SameBlocks(old(ptr), ptr) && Indirect(f) !in ptr && MoreNames(nm, old(nm))
    {
      ghost var m := Map();
      DropIndexHeld(m, top, data, f);
      var b := top[Indirect(f)];
      assert nm[b] == Indirect(f);
      FreeBlock(b);
      top := TopWith(top, Indirect(f), 0);
      ptr, nm := ptr - {Indirect(f)}, nm - {b};
      assert Map() == Drop(m, Indirect(f));
    }

    /** file_truncate_blocks */
    method TruncateBlocks(f: int, newsize: int)
      requires Valid() && f in size && 0 <= newsize < size[f]
      modifies `top, `ptr, `free, `nm, `data, bitmap, cache
      ensures Valid() && Truncated(old(ptr), ptr, f, newsize) && KeepsData(nm, old(data), data)
      ensures data.Keys == old(data).Keys
      ensures BlockCount(newsize) <= NDIRECT ==> Indirect(f) !in ptr
    {
      ghost var p0, d0 := ptr, data;
      var oldn, newn := BlockCount(size[f]), BlockCount(newsize);
      forall i | 0 <= i
        ensures i * BLKSIZE >= size[f] ==> BlockOf(ptr, f, i) == None
        ensures i < oldn <==> i * BLKSIZE < size[f]
        ensures i < newn <==> i * BLKSIZE < newsize
      {
        if i * BLKSIZE >= size[f] { PastEnd(Map(), f, i); }
        BlockCounts(size[f], i);
        BlockCounts(newsize, i);
      }
      var bno := newn;
      while bno < oldn
        invariant newn <= bno && Valid() && KeepsData(nm, d0, data) && data.Keys == d0.Keys
        invariant forall g, j :: 0 <= j && !(g == f && newn <= j < bno) ==> BlockOf(ptr, g, j) == BlockOf(p0, g, j)
        invariant forall j :: newn <= j < bno ==> BlockOf(ptr, f, j) == None
      {
        ghost var nm1, d1 := nm, data;
        FreeFileBlock(f, bno);
        KeepsDataFewer(nm1, nm, d0, d1, data);
        bno := bno + 1;
      }
      if newn <= NDIRECT && Indirect(f) in top { FreeIndex(f); }
    }

    /** file_set_size: the bytes below the new size stay, and so do those of all other files. */
    method SetSize(f: int, newsize: int)
      requires Valid() && f in size && 0 <= newsize
      modifies `top, `ptr, `free, `nm, `data, `size, bitmap, cache
      ensures Valid() && Truncated(old(ptr), ptr, f, newsize) && size == old(size)[f := newsize]
      ensures Kept(old(ptr), old(data), ptr, data, f, newsize, MAXFILESIZE)
      ensures newsize >= old(size)[f] ==> ptr == old(ptr) && free == old(free) && data == old(data)
    {
      forall i | 0 <= i && i * BLKSIZE >= size[f] ensures BlockOf(ptr, f, i) == None { PastEnd(Map(), f, i); }
      if size[f] > newsize { TruncateBlocks(f, newsize); }
      TruncateKeeps(old(ptr), old(data), Map(), data, f, newsize);
      ResizeKeeps(Map(), f, newsize);
      size := size[f := newsize];
    }

    /** One round of file_write's loop, as part of the whole. */
    method WriteNext(f: int, buf: seq<int>, offset: int, pos: int, ghost fate: Fate, ghost p0: Pointers,
                     ghost d0: map<int, seq<int>>) returns (g: Get, pos': int)
      requires Valid() && f in size && 0 <= offset <= pos < offset + |buf| <= size[f]
      requires Transferring(ptr, data, free, f, offset, pos, offset + |buf|, buf, fate)
      requires Kept(p0, d0, ptr, data, f, offset, pos)
      modifies `top, `ptr, `free, `nm, `data, bitmap, cache
      ensures Valid() && Kept(p0, d0, ptr, data, f, offset, pos')
      ensures if g.Block? then pos < pos' <= offset + |buf| else pos' == pos
      ensures g.Block? ==> Transferring(ptr, data, free, f, offset, pos', offset + |buf|, buf, fate)
      ensures !g.Block? ==> Stops(g, fate)
    {
      var bn := ChunkLen(pos, offset + |buf|);
      var chunk := buf[pos - offset..pos - offset + bn];
      ghost var p, d, was := ptr, data, free;
      g := WriteChunk(f, pos, chunk);
      pos' := if g.Block? then pos + bn else pos;
      KeptTrans(p0, d0, p, d, ptr, data, f, offset, pos, pos');
      if g.Block? {
        WritesOn(p, d, was, ptr, data, free, f, offset, pos, bn, buf, chunk, fate);
      } else {
        StopsThere(g, p, was, f, offset, pos, offset + |buf|, fate);
      }
    }

    /** The loop of file_write. */
    method WriteLoop(f: int, buf: seq<int>, offset: int) returns (r: Io)
      requires Valid() && f in size && 0 <= offset && offset + |buf| <= size[f]
      modifies `top, `ptr, `free, `nm, `data, bitmap, cache
      ensures Valid() && (r.Done? ==> r.count == |buf|)
      ensures Kept(old(ptr), old(data), ptr, data, f, offset, offset + |buf|)
      ensures r.Done? ==> Holds(ptr, data, f, offset, offset + |buf|, buf)
      ensures Ends(r, TransferFate(old(ptr), old(free), f, offset, offset + |buf|))
    {
      var pos, end := offset, offset + |buf|;
      Starts(ptr, free, f, offset, end);
      ghost var p0, d0, fate := ptr, data, TransferFate(ptr, free, f, offset, end);
      while pos < end
        invariant offset <= pos <= end && Valid()
        invariant Kept(p0, d0, ptr, data, f, offset, pos)
        invariant Transferring(ptr, data, free, f, offset, pos, end, buf, fate)
      {
        var g;
        g, pos := WriteNext(f, buf, offset, pos, fate, p0, d0);
        if !g.Block? { return if g.Panicked? then Panic else Error(g.error); }
      }
      Arrives(ptr, free, f, offset, end, fate);
      r := Done(|buf|);
    }

    /** file_write */
    method Write(f: int, buf: seq<int>, offset: int) returns (r: Io)
      requires Valid() && f in size && 0 <= offset
      modifies `top, `ptr, `free, `nm, `data, `size, bitmap, cache
      ensures Valid() && (r.Done? ==> r.count == |buf|)
      ensures size == old(size)[f := if offset + |buf| > old(size)[f] then offset + |buf| else old(size)[f]]
      ensures Kept(old(ptr), old(data), ptr, data, f, offset, offset + |buf|)
      ensures r.Done? ==> Holds(ptr, data, f, offset, offset + |buf|, buf)
      ensures Ends(r, TransferFate(old(ptr), old(free), f, offset, offset + |buf|))
      ensures r.Done? <==> Room(old(ptr), old(free), f, offset, offset + |buf|)
    {
      RoomFits(ptr, free, f, offset, offset + |buf|);
      if offset + |buf| > size[f] { SetSize(f, offset + |buf|); }
      r := WriteLoop(f, buf, offset);
    }

    /** One round of file_read's loop. */
    method ReadChunk(f: int, pos: int, n: int) returns (r: Get, chunk: seq<int>)
      requires Valid() && f in size && InBlock(pos, n) && 0 < n && pos + n <= size[f]
      modifies `top, `ptr, `free, `nm, `data, bitmap, cache
      ensures Valid() && Kept(old(ptr), old(data), ptr, data, f, 0, 0)
      ensures r.Block? ==> |chunk| == n && Holds(ptr, data, f, pos, pos + n, chunk)
      ensures r.Block? ==> NowMapped(old(ptr), old(free), ptr, free, f, pos / BLKSIZE)
      ensures Gets(r, old(ptr), old(free), f, pos / BLKSIZE)
    {
      ghost var m, d := Map(), data;
      chunk := [];
      assert pos / BLKSIZE * BLKSIZE <= pos;
      r := GetBlock(f, pos / BLKSIZE);
      MappingKeeps(m, d, ptr, data, f, pos / BLKSIZE, 0);
      if !r.Block? { return; }
      BlocksApart(Map(), f, pos / BLKSIZE, f, pos / BLKSIZE);
      assert nm[r.number] in ptr;
      var o := pos % BLKSIZE;
      var blk := ReadBlock(r.number);
      chunk := blk[o..o + n];
      forall k | pos <= k < pos + n ensures ByteOf(ptr, data, f, k) == Some(chunk[k - pos]) { SameBlock(pos, n, k); }
    }

    /** One round of file_read's loop, as part of the whole. */
    method ReadNext(f: int, offset: int, pos: int, end: int, out: seq<int>, ghost fate: Fate, ghost p0: Pointers,
                    ghost d0: map<int, seq<int>>)
      returns (g: Get, pos': int, out': seq<int>)
      requires Valid() && f in size && 0 <= offset <= pos < end <= size[f] && |out| == pos - offset
      requires Transferring(ptr, data, free, f, offset, pos, end, out, fate) && Kept(p0, d0, ptr, data, f, 0, 0)
      modifies `top, `ptr, `free, `nm, `data, bitmap, cache
      ensures Valid() && Kept(p0, d0, ptr, data, f, 0, 0)
      ensures g.Block? ==> pos < pos' <= end && |out'| == pos' - offset
      ensures g.Block? ==> Transferring(ptr, data, free, f, offset, pos', end, out', fate)
      ensures !g.Block? ==> Stops(g, fate)
    {
      var chunk;
      ghost var p, d, was := ptr, data, free;
      g, chunk := ReadChunk(f, pos, ChunkLen(pos, end));
      pos', out' := pos + |chunk|, out + chunk;
      KeptTrans(p0, d0, p, d, ptr, data, f, 0, 0, 0);
      if g.Block? {
        ReadsOn(p, d, was, ptr, data, free, f, offset, pos, end, out, chunk, fate);
      } else {
        StopsThere(g, p, was, f, offset, pos, end, fate);
      }
    }

    /** The loop of file_read, from `offset` to `end`. */
    method ReadLoop(f: int, offset: int, end: int) returns (r: Io, out: seq<int>)
      requires Valid() && f in size && 0 <= offset <= end <= size[f]
      modifies `top, `ptr, `free, `nm, `data, bitmap, cache
      ensures Valid() && Kept(old(ptr), old(data), ptr, data, f, 0, 0)
      ensures r.Done? ==> r.count == end - offset == |out| && Holds(ptr, data, f, offset, end, out)
      ensures Ends(r, TransferFate(old(ptr), old(free), f, offset, end))
    {
      var pos := offset;
      out := [];
      Starts(ptr, free, f, offset, end);
      ghost var p0, d0, fate := ptr, data, TransferFate(ptr, free, f, offset, end);
      while pos < end
        invariant offset <= pos <= end && Valid() && |out| == pos - offset
        invariant Kept(p0, d0, ptr, data, f, 0, 0)
        invariant Transferring(ptr, data, free, f, offset, pos, end, out, fate)
      {
        var g;
        g, pos, out := ReadNext(f, offset, pos, end, out, fate, p0, d0);
        if !g.Block? { return if g.Panicked? then Panic else Error(g.error), []; }
      }
      Arrives(ptr, free, f, offset, end, fate);
      r := Done(end - offset);
    }

    /** Where a read of `count` bytes from `offset` on ends. */
    ghost function ReadEnd(f: int, count: int, offset: int): (end: int)
      requires f in size && 0 <= count
      reads `size
      ensures offset <= end
    {
      if offset >= size[f] then offset else if offset + count <= size[f] then offset + count else size[f]
    }

    /** file_read */
    method Read(f: int, count: int, offset: int) returns (r: Io, out: seq<int>)
      requires Valid() && f in size && 0 <= offset && 0 <= count
      modifies `top, `ptr, `free, `nm, `data, bitmap, cache
      ensures Valid() && Kept(old(ptr), old(data), ptr, data, f, 0, 0)
      ensures r.Done? ==>
        && r.count == ReadEnd(f, count, offset) - offset == |out|
        && Holds(ptr, data, f, offset, ReadEnd(f, count, offset), out)
      ensures Ends(r, TransferFate(old(ptr), old(free), f, offset, ReadEnd(f, count, offset)))
      ensures r.Done? <==> Room(old(ptr), old(free), f, offset, ReadEnd(f, count, offset))
    {
      RoomFits(ptr, free, f, offset, ReadEnd(f, count, offset));
      if offset >= size[f] { return Done(0), []; }
      var end := if offset + count <= size[f] then offset + count else size[f];
      r, out := ReadLoop(f, offset, end);
    }

    /** What file_write has stored is what file_read returns, across block and index boundaries. */
    method WriteThenRead(f: int, buf: seq<int>, offset: int) returns (w: Io, r: Io, out: seq<int>)
      requires Valid() && f in size && 0 <= offset
      modifies `top, `ptr, `free, `nm, `data, `size, bitmap, cache
      ensures Valid() && (w.Done? ==> r == Done(|buf|) && out == buf)
    {
      r, out := Done(0), [];
      w := Write(f, buf, offset);
      if w.Done? { r, out := ReadHeld(f, |buf|, offset, buf); }
    }

    /** file_read of a range whose bytes are known. */
    method ReadHeld(f: int, count: int, offset: int, ghost buf: seq<int>) returns (r: Io, out: seq<int>)
      requires Valid() && f in size && 0 <= offset && count == |buf| && offset + count <= size[f]
      requires Holds(ptr, data, f, offset, offset + count, buf)
      modifies `top, `ptr, `free, `nm, `data, bitmap, cache
      ensures Valid() && r == Done(count) && out == buf
    {
      ghost var p, d := ptr, data;
      AllocatedRoom(ptr, data, free, f, offset, offset + count);
      r, out := Read(f, count, offset);
      ReadsBack(p, d, ptr, data, f, offset, buf, out);
    }
  }
}
