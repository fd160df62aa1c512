/**
  The file server's block cache: disk blocks are mapped on demand by page faults, written
  in memory, and written back by flush_block.
*/
module BlockCache {
  import opened FsMap
  import Bitmap

  type Blk = seq<int>

  /** A struct File: its size, its block pointers, and the block the structure itself lies in. */
  datatype File = File(size: int, direct: seq<int>, indirect: int, home: int)

  class Cache {
    const nblocks: int
    const bitmap: array<Bitmap.Word>
    var disk: map<int, Blk>
    var page: map<int, Blk>   // the blocks that are mapped, with their contents in memory
    var dirty: set<int>       // the mapped blocks whose PTE_D bit is set

    /** A mapped block that is not dirty is the same in memory and on disk. */
    ghost predicate Coherent()
      reads this
    {
      && 0 <= nblocks <= 32 * bitmap.Length
      && (forall b :: 0 <= b < nblocks ==> b in disk && |disk[b]| == BLKSIZE)
      && (forall b {:trigger page[b]} :: b in page ==> 0 <= b < nblocks && |page[b]| == BLKSIZE)
      && (forall b {:trigger page[b]} :: b in page && b !in dirty ==> page[b] == disk[b])
      && dirty <= page.Keys
    }

    /** The contents of block `b` as the server sees them. */
    ghost function Logical(b: int): Blk
      reads this
      requires Coherent() && 0 <= b < nblocks
    {
      if b in page then page[b] else disk[b]
    }

    /** The server sees the blocks `data`. */
    ghost predicate Shows(data: map<int, Blk>)
      reads this
    {
      Coherent() && forall b {:trigger data[b]} {:trigger Logical(b)} :: 0 <= b < nblocks ==>
        b in data && data[b] == Logical(b)
    }

    /** The bitmap has block `b` as free. */
    ghost predicate MarkedFree(b: int)
      reads this, bitmap
      requires Coherent()
    {
      b in Bitmap.FreeSet(bitmap[..], nblocks)
    }

    ghost predicate OnDisk(b: int)
      reads this
      requires Coherent()
    {
      0 <= b < nblocks && disk[b] == Logical(b)
    }

    /** The logical contents are those of before, and what was on disk still is. */
    twostate predicate SameContents()
      reads this
    {
      && old(Coherent()) && Coherent()
      && (forall b :: 0 <= b < nblocks ==> Logical(b) == old(Logical(b)))
      && (forall b :: old(OnDisk(b)) ==> OnDisk(b))
    }

    /** A server that has just started: nothing is mapped. */
    constructor (nblocks: int, disk: map<int, Blk>, bitmap: array<Bitmap.Word>)
      requires 0 <= nblocks <= 32 * bitmap.Length
      requires forall b :: 0 <= b < nblocks ==> b in disk && |disk[b]| == BLKSIZE
      ensures this.nblocks == nblocks && this.bitmap == bitmap && this.disk == disk && page == map[]
      ensures Coherent() && Shows(disk)
    {
      this.nblocks, this.disk, this.bitmap := nblocks, disk, bitmap;
      page, dirty := map[], {};
    }

    /**
      bc_pgfault for a block inside the disk; false is the panic on reading a free block. The dirty bit
      that ide_read sets is cleared again by sys_page_map.
    */
    method PgFault(b: int) returns (ok: bool)
      requires Coherent() && 0 <= b < nblocks && b !in page
      modifies `page, `dirty
      ensures SameContents() && page == old(page)[b := disk[b]] && dirty == old(dirty)
      ensures ok <==> !MarkedFree(b)
    {
      page := page[b := disk[b]];
      var isFree := Bitmap.BlockIsFree(bitmap, nblocks, b);
      ok := !isFree;
    }

    /** A load from block `b`, which faults it in when it is not mapped. */
    method Load(b: int) returns (ok: bool, v: Blk)
      requires Coherent() && 0 <= b < nblocks
      modifies `page, `dirty
      ensures SameContents() && dirty == old(dirty)
      ensures ok <==> b in old(page) || !MarkedFree(b)
      ensures ok ==> v == Logical(b)
    {
      ok, v := true, [];
      if b !in page { ok := PgFault(b); }
      if ok { v := page[b]; }
    }

    /** A store into block `b`. */
    method Store(b: int, v: Blk) returns (ok: bool)
      requires Coherent() && 0 <= b < nblocks && |v| == BLKSIZE
      modifies `page, `dirty
      ensures Coherent() && (ok <==> b in old(page) || !MarkedFree(b))
      ensures forall c :: 0 <= c < nblocks ==> Logical(c) == if c == b && ok then v else old(Logical(c))
      ensures forall c :: c != b && old(OnDisk(c)) ==> OnDisk(c)
    {
      ok := true;
      if b !in page { ok := PgFault(b); }
      if !ok { return; }
      page := page[b := v];
      dirty := dirty + {b};
    }

    /** flush_block */
    method FlushBlock(b: int)
      requires Coherent() && 0 <= b < nblocks
      modifies `disk, `dirty
      ensures SameContents() && OnDisk(b) && page == old(page)
      ensures disk == old(disk)[b := old(Logical(b))] && dirty == old(dirty) - {b}
    {
      if b in page && b in dirty {
        disk := disk[b := page[b]];
        dirty := dirty - {b};
      }
      assert disk == old(disk)[b := old(Logical(b))];
    }

    /** sys_page_unmap of a block that is not dirty. */
    method UnmapClean(b: int)
      requires Coherent() && 0 <= b < nblocks && b !in dirty
      modifies `page
      ensures SameContents() && page == old(page) - {b}
    {
      page := page - {b};
    }

    /** fs_sync */
    method FsSync()
      requires Coherent()
      modifies `disk, `dirty
      ensures SameContents() && forall b :: 1 <= b < nblocks ==> OnDisk(b)
    {
      var i := 1;
      while i < nblocks
        invariant 1 <= i && SameContents()
        invariant forall b :: 1 <= b < i && b < nblocks ==> OnDisk(b)
      {
        FlushBlock(i);
        i := i + 1;
      }
    }

    /** Losing memory after fs_sync loses nothing but block 0: every other block reads back from disk as it was. */
    method SyncThenRestart() returns (c: Cache)
      requires Coherent()
      modifies `disk, `dirty
      ensures fresh(c) && c.Coherent() && c.nblocks == nblocks && c.bitmap == bitmap
      ensures forall b :: 1 <= b < nblocks ==> c.Logical(b) == old(Logical(b))
    {
      FsSync();
      c := new Cache(nblocks, disk, bitmap);
      forall b | 1 <= b < nblocks ensures c.Logical(b) == old(Logical(b)) { assert OnDisk(b); }
    }

    /** What file_block_walk finds for block `i` of the file: a block number, or zero. */
    ghost function Slot(f: File, i: int): int
      reads this
      requires Coherent() && |f.direct| == NDIRECT && 0 <= f.indirect < nblocks
    {
      if 0 <= i < NDIRECT then f.direct[i]
      else if NDIRECT <= i < NDIRECT + NINDIRECT && f.indirect != 0 then IndexWord(Logical(f.indirect), i - NDIRECT)
      else 0
    }

    /** The file's pointers name blocks of the disk, and its index block is not marked free. */
    ghost predicate Sane(f: File)
      reads this, bitmap
      requires Coherent()
    {
      && |f.direct| == NDIRECT && 0 <= f.indirect < nblocks && 0 <= f.home < nblocks && 0 <= f.size
      && (MarkedFree(f.indirect) ==> f.indirect == 0)
      && forall i :: 0 <= Slot(f, i) < nblocks
    }

    /** A file's pointers depend on the logical contents only. */
    twostate lemma SameSlots(f: File)
      requires SameContents() && old(Sane(f)) && bitmap[..] == old(bitmap[..])
      ensures Sane(f) && forall k :: Slot(f, k) == old(Slot(f, k))
    {
      forall k ensures |f.direct| == NDIRECT && Slot(f, k) == old(Slot(f, k)) {}
    }

    /** One round of file_flush's loop. */
    method FlushSlot(f: File, i: int)
      requires Coherent() && Sane(f) && 0 <= i
      modifies `disk, `page, `dirty
      ensures SameContents() && Sane(f) && forall k :: Slot(f, k) == old(Slot(f, k))
      ensures Slot(f, i) != 0 ==> OnDisk(Slot(f, i))
    {
      assert 0 <= Slot(f, i) < nblocks;
      if i >= NDIRECT + NINDIRECT { return; }
      var b;
      if i < NDIRECT {
        b := f.direct[i];
      } else {
        if f.indirect == 0 { return; }
        var ok, blk := Load(f.indirect);
        b := IndexWord(blk, i - NDIRECT);
      }
      SameSlots(f);
      assert b == Slot(f, i);
      if b != 0 { FlushBlock(b); }
      SameSlots(f);
    }

    /** The loop of file_flush. */
    method FlushSlots(f: File, n: int)
      requires Coherent() && Sane(f) && 0 <= n
      modifies `disk, `page, `dirty
      ensures SameContents() && Sane(f) && SlotsOnDisk(f, n)
    {
      for i := 0 to n
        invariant SameContents() && Sane(f) && SlotsOnDisk(f, i)
      {
        FlushSlot(f, i);
      }
    }

    /** The first `n` blocks of the file are on disk, as far as they are mapped. */
    ghost predicate SlotsOnDisk(f: File, n: int)
      reads this
      requires Coherent() && |f.direct| == NDIRECT && 0 <= f.indirect < nblocks
    {
      forall k {:trigger Slot(f, k)} :: 0 <= k < n && Slot(f, k) != 0 ==> OnDisk(Slot(f, k))
    }

    /** file_flush */
    method FileFlush(f: File)
      requires Coherent() && Sane(f)
      modifies `disk, `page, `dirty
      ensures SameContents() && Sane(f) && OnDisk(f.home) && (f.indirect != 0 ==> OnDisk(f.indirect))
      ensures forall i {:trigger Slot(f, i)} ::
        0 <= i && i * BLKSIZE < f.size && Slot(f, i) != 0 ==> OnDisk(Slot(f, i))
    {
      FlushSlots(f, BlockCount(f.size));
      FlushHome(f, BlockCount(f.size));
      forall i {:trigger Slot(f, i)} | 0 <= i && i * BLKSIZE < f.size && Slot(f, i) != 0 ensures OnDisk(Slot(f, i)) {
        BlockCounts(f.size, i);
      }
    }

    /** The end of file_flush: the block of the struct File, and the index block. */
    method FlushHome(f: File, ghost n: int)
      requires Coherent() && Sane(f) && SlotsOnDisk(f, n)
      modifies `disk, `dirty
      ensures SameContents() && Sane(f) && SlotsOnDisk(f, n)
      ensures OnDisk(f.home) && (f.indirect != 0 ==> OnDisk(f.indirect))
    {
      FlushBlock(f.home);
      if f.indirect != 0 { FlushBlock(f.indirect); }
      SameSlots(f);
    }
  }
}
