/**
  The image formatter: lays files out in consecutive blocks from a bump pointer and writes
  the pointers and the bitmap that the file server starts from.
*/
module Format {
  import opened Options
  import opened Words
  import opened FsMap
  import Bitmap

  const BLKBITSIZE: int := 8 * BLKSIZE

  /**
    ROUNDUP(n, BLKSIZE) on an int argument: the C remainder of a negative number is negative, so 0
    rounds to a whole block; on unsigned arguments ROUNDUP is BLKSIZE * BlockCount(n).
  */
  function RoundUpSigned(n: int): int
    requires 0 <= n
  {
    if n == 0 then BLKSIZE else BLKSIZE * BlockCount(n)
  }

  /** Number of blocks a file of `len` bytes takes; finishfile takes an index block from NDIRECT blocks on. */
  function FileBlocks(len: int): (n: int)
    requires 0 <= len
    ensures n >= 0
  {
    BlockCount(len) + if BlockCount(len) < NDIRECT then 0 else 1
  }

  /** Number of blocks the first `n` files take. */
  function AllBlocks(files: seq<seq<int>>, n: int): int
    requires 0 <= n <= |files|
    decreases n
  {
    if n == 0 then 0 else AllBlocks(files, n - 1) + FileBlocks(|files[n - 1]|)
  }

  lemma {:induction false} FewerFiles(files: seq<seq<int>>, i: int, n: int)
    requires 0 <= i <= n <= |files|
    ensures AllBlocks(files, i) <= AllBlocks(files, n)
    decreases n - i
  {
    if i < n { FewerFiles(files, i, n - 1); }
  }

  /** Number of blocks for the boot block, the superblock and the bitmap. */
  function ReservedBlocks(nblocks: int): int {
    2 + (nblocks + BLKBITSIZE - 1) / BLKBITSIZE
  }

  /** The blocks no file has been given yet. */
  ghost function Unclaimed(nm: map<int, Name>, lo: int, hi: int): set<int> {
    set b {:trigger b in nm} | lo <= b < hi && b !in nm
  }

  lemma UnclaimedBut(nm: map<int, Name>, lo: int, hi: int, b: int, x: Name)
    ensures Unclaimed(nm[b := x], lo, hi) == Unclaimed(nm, lo, hi) - {b}
  {
  }

  /**
    Blocks [lo, hi) of file `f` are the disk blocks from `start + lo` on; other file blocks are where
    `p0` has them.
  */
  ghost predicate LaidOut(p0: Pointers, ptr: Pointers, f: int, start: int, lo: int, hi: int) {
    forall g, j :: BlockOf(ptr, g, j) == if g == f && lo <= j < hi then Some(start + j) else BlockOf(p0, g, j)
  }

  lemma LaidOutNext(p0: Pointers, p1: Pointers, ptr: Pointers, f: int, start: int, lo: int, i: int)
    requires LaidOut(p0, p1, f, start, lo, i) && Placed(p1, ptr, f, i, start + i) && lo <= i
    ensures LaidOut(p0, ptr, f, start, lo, i + 1)
  {
    forall g, j ensures BlockOf(ptr, g, j) == if g == f && lo <= j < i + 1 then Some(start + j) else BlockOf(p0, g, j) {
      if !(g == f && j == i) { assert BlockOf(ptr, g, j) == BlockOf(p1, g, j); }
    }
  }

  /** At most block `b` differs. */
  ghost predicate ButBlock(data: map<int, seq<int>>, data': map<int, seq<int>>, b: int) {
    && data'.Keys == data.Keys
    && forall c {:trigger data'[c]} {:trigger data[c]} :: c in data && c != b ==> data'[c] == data[c]
  }

  class Formatter {
    const nblocks: int
    const bitmap: array<Bitmap.Word>
    var pos: int                   // diskpos, in blocks
    var top: Pointers              // f_direct and f_indirect of the files
    var size: map<int, int>
    var data: map<int, seq<int>>   // the blocks, index blocks among them
    ghost var ptr: Pointers
    ghost var nm: map<int, Name>

    ghost function Map(): FileMap
      reads this
    {
      var r := ReservedBlocks(nblocks);
      FileMap(ptr, nm, size, Unclaimed(nm, r, nblocks), r, nblocks)
    }

    /** The blocks from the bump pointer on are as ftruncate made them. */
    ghost predicate Blank()
      reads `pos, `data
    {
      forall b {:trigger data[b]} :: pos <= b < nblocks && b in data ==> data[b] == ZEROS
    }

    ghost predicate Valid()
      reads this
    {
      && Sound(Map()) && Held(Map(), top, data) && nblocks <= WORDS && Blank()
      && ReservedBlocks(nblocks) <= pos < nblocks
      && (forall b {:trigger nm[b]} :: b in nm ==> b < pos)
    }

    /** Every block below the bump pointer is reserved or belongs to a file. */
    ghost predicate Full()
      reads this
    {
      forall b :: ReservedBlocks(nblocks) <= b < pos ==> b in nm
    }

    /** Every bit of the bitmap is set. */
    ghost predicate AllSet()
      reads bitmap
    {
      nblocks <= 32 * bitmap.Length && forall b :: 0 <= b < 32 * bitmap.Length ==> Bitmap.Bit(bitmap[..], b)
    }

    /** opendisk, for a disk large enough that its three allocations succeed. */
    constructor (nblocks: int)
      requires ReservedBlocks(nblocks) < nblocks <= WORDS
      ensures this.nblocks == nblocks && Valid() && Full() && ptr == map[] && size == map[]
      ensures pos == ReservedBlocks(nblocks)
      ensures fresh(bitmap) && AllSet()
    {
      this.nblocks := nblocks;
      pos := ReservedBlocks(nblocks);
      top, ptr, size, nm := map[], map[], map[], map[];
      data := map[];
      bitmap := new Bitmap.Word[(ReservedBlocks(nblocks) - 2) * (BLKSIZE / 4)](_ => seq(32, _ => true));
      new;
      for b := 0 to nblocks
        invariant pos == ReservedBlocks(nblocks) && top == map[] && ptr == map[] && size == map[] && nm == map[]
        invariant Filled(data, b) && (forall c {:trigger data[c]} :: c in data ==> data[c] == ZEROS) && AllSet()
      {
        data := data[b := ZEROS];
      }
    }

    /** The place of block `i` of file `f`. */
    function Slot(f: int, i: int): (r: Name)
      requires Valid() && 0 <= i < NDIRECT + NINDIRECT && (i < NDIRECT || Indirect(f) in ptr)
      reads this
      ensures SlotOf(ptr, f, i) == Some(r)
    {
      if i < NDIRECT then Direct(f, i) else Entry(top[Indirect(f)], i - NDIRECT)
    }

    /** Store a block number at a place. */
    method Put(slot: Name, b: int)
      requires Sound(Map()) && Held(Map(), top, data) && nblocks <= WORDS
      requires slot !in ptr && b in Map().free && InFile(nm, size, slot) && !slot.Indirect?
      modifies `top, `data, `ptr, `nm
      ensures Sound(Map()) && Held(Map(), top, data) && Map() == Add(old(Map()), slot, b)
      ensures data == DataWith(old(data), slot, b)
    {
      ghost var m := Map();
      AddHeld(m, top, data, slot, b);
      UnclaimedBut(nm, ReservedBlocks(nblocks), nblocks, b, slot);
      top, data := TopWith(top, slot, b), DataWith(data, slot, b);
      ptr, nm := ptr[slot := b], nm[b := slot];
      assert Map() == Add(m, slot, b);
    }

    /** Enter block `b` as block `i` of file `f`, in the struct File or in a word of the index block. */
    method Link(f: int, i: int, b: int)
      requires Valid() && 0 <= i < NDIRECT + NINDIRECT && (i < NDIRECT || Indirect(f) in ptr)
      requires BlockOf(ptr, f, i) == None
      requires f in size && i * BLKSIZE < size[f]
      requires ReservedBlocks(nblocks) <= b < pos && b !in nm
      modifies `top, `data, `ptr, `nm
      ensures Valid() && Placed(old(ptr), ptr, f, i, b)
      ensures NumberAt(ptr, Indirect(f)) == NumberAt(old(ptr), Indirect(f))
      ensures forall c :: c in nm <==> c in old(nm) || c == b
      ensures ButBlock(old(data), data, NumberAt(ptr, Indirect(f))) && (i < NDIRECT ==> data == old(data))
    {
      var slot := Slot(f, i);
      AddMaps(Map(), f, i, b);
      assert slot.Entry? ==> nm[slot.block] == Indirect(f);
      Put(slot, b);
    }

    /** alloc: advance the bump pointer; false when that runs off the disk, where the source panics. */
    method Alloc(bytes: int) returns (ok: bool, start: int)
      requires 0 <= bytes
      modifies `pos
      ensures start == old(pos) && pos == old(pos) + BlockCount(bytes)
      ensures ok <==> pos < nblocks
    {
      start := pos;
      pos := pos + BlockCount(bytes);
      ok := pos < nblocks;
    }

    /** The part of finishfile that allocates and enters an index block, which is zero already. */
    method LinkIndex(f: int) returns (ok: bool)
      requires Valid() && f in size && Indirect(f) !in ptr
      modifies `pos, `top, `ptr, `nm
      ensures ok <==> old(pos) + 1 < nblocks
      ensures ok ==>
        Valid() && pos == old(pos) + 1 && SameBlocks(old(ptr), ptr) && NumberAt(ptr, Indirect(f)) == old(pos)
      ensures ok ==> forall c :: c in nm <==> c in old(nm) || c == old(pos)
    {
      var start;
      ok, start := Alloc(BLKSIZE);
      if !ok { return; }
      ghost var m := Map();
      AddIndexHeld(m, top, data, f, start);
      UnclaimedBut(nm, ReservedBlocks(nblocks), nblocks, start, Indirect(f));
      assert data == data[start := ZEROS];
      top := top[Indirect(f) := start];
      ptr, nm := ptr[Indirect(f) := start], nm[start := Indirect(f)];
      assert Map() == Add(m, Indirect(f), start);
    }

    /** One round of a loop in finishfile, `p0` being the pointers before the loop. */
    method LinkNext(f: int, start: int, i: int, ghost p0: Pointers, ghost lo: int)
      requires Valid() && f in size && 0 <= lo <= i < NDIRECT + NINDIRECT && i * BLKSIZE < size[f]
      requires (i < NDIRECT || Indirect(f) in ptr) && BlockOf(ptr, f, i) == None && LaidOut(p0, ptr, f, start, lo, i)
      requires ReservedBlocks(nblocks) <= start + i < pos && start + i !in nm
      modifies `top, `data, `ptr, `nm
      ensures Valid() && LaidOut(p0, ptr, f, start, lo, i + 1)
      ensures forall c :: c in nm <==> c in old(nm) || c == start + i
      ensures NumberAt(ptr, Indirect(f)) == NumberAt(old(ptr), Indirect(f))
      ensures ButBlock(old(data), data, NumberAt(ptr, Indirect(f)))
      ensures i < NDIRECT ==> data == old(data)
    {
      ghost var p1 := ptr;
      Link(f, i, start + i);
      LaidOutNext(p0, p1, ptr, f, start, lo, i);
    }

    /** Block `i` of the file is block `start + i` of the disk, for i from `lo` to `hi`. */
    method LinkRange(f: int, start: int, lo: int, hi: int)
      requires Valid() && f in size && 0 <= lo <= hi <= NDIRECT + NINDIRECT && (hi - 1) * BLKSIZE < size[f]
      requires hi <= NDIRECT || Indirect(f) in ptr
      requires forall i :: lo <= i < hi ==> BlockOf(ptr, f, i) == None
      requires ReservedBlocks(nblocks) <= start + lo && start + hi <= pos
      requires forall b :: start + lo <= b < start + hi ==> b !in nm
      modifies `top, `data, `ptr, `nm
      ensures Valid() && LaidOut(old(ptr), ptr, f, start, lo, hi)
      ensures forall c :: c in nm <==> c in old(nm) || start + lo <= c < start + hi
      ensures NumberAt(ptr, Indirect(f)) == NumberAt(old(ptr), Indirect(f))
      ensures ButBlock(old(data), data, NumberAt(ptr, Indirect(f)))
      ensures hi <= NDIRECT ==> data == old(data)
    {
      ghost var p0 := ptr;
      for i := lo to hi
        invariant Valid() && LaidOut(p0, ptr, f, start, lo, i)
        invariant forall c :: c in nm <==> c in old(nm) || start + lo <= c < start + i
        invariant NumberAt(ptr, Indirect(f)) == NumberAt(p0, Indirect(f))
        invariant ButBlock(old(data), data, NumberAt(ptr, Indirect(f))) && (hi <= NDIRECT ==> data == old(data))
      {
        LinkNext(f, start, i, p0, lo);
      }
    }

    /** finishfile: false only when the index block does not fit on the disk, where alloc panics. */
    method FinishFile(f: int, start: int, len: int) returns (ok: bool)
      requires Valid() && f !in size && 0 <= len && BlockCount(len) <= NDIRECT + NINDIRECT
      requires ReservedBlocks(nblocks) <= start && start + BlockCount(len) <= pos
      requires forall b :: start <= b < start + BlockCount(len) ==> b !in nm
      modifies `pos, `top, `data, `ptr, `size, `nm
      ensures ok <==> BlockCount(len) < NDIRECT || old(pos) + 1 < nblocks
      ensures ok ==> Valid() && size == old(size)[f := len]
      ensures ok ==> forall i :: BlockOf(ptr, f, i) == if 0 <= i < BlockCount(len) then Some(start + i) else None
      ensures ok ==> forall g, j :: g != f ==> BlockOf(ptr, g, j) == BlockOf(old(ptr), g, j)
      ensures ok ==> pos == old(pos) + if BlockCount(len) < NDIRECT then 0 else 1
      ensures ok ==> ButBlock(old(data), data, old(pos)) && (BlockCount(len) < NDIRECT ==> data == old(data))
      ensures ok ==>
        forall c :: c in nm <==> c in old(nm) || start <= c < start + BlockCount(len) || old(pos) <= c < pos
    {
      NewFileKeeps(Map(), f, len);
      size := size[f := len];
      var n := BlockCount(len);
      forall i | 0 <= i ensures i < n <==> i * BLKSIZE < len { BlockCounts(len, i); }
      ok := true;
      if n < NDIRECT {
        LinkRange(f, start, 0, n);
      } else {
        LinkRange(f, start, 0, NDIRECT);
        ok := LinkIndex(f);
        if !ok { return; }
        LinkRange(f, start, NDIRECT, n);
      }
    }

    /** readn: the contents of a file of `n` blocks go to the blocks from `start` on. */
    method Store(start: int, content: seq<int>, n: int)
      requires 0 <= start && 0 <= n && start + n <= nblocks && Filled(data, nblocks)
      modifies `data
      ensures Filled(data, nblocks) && data.Keys == old(data).Keys
      ensures forall b {:trigger data[b]} :: b in data ==>
                data[b] == if start <= b < start + n then BlockData(content, b - start) else old(data)[b]
    {
      for i := 0 to n
        invariant Filled(data, nblocks) && data.Keys == old(data).Keys
        invariant forall b {:trigger data[b]} :: b in data ==>
                    data[b] == if start <= b < start + i then BlockData(content, b - start) else old(data)[b]
      {
        data := data[start + i := BlockData(content, i)];
      }
    }

    /** writefile: lay the file's bytes out and finish it. */
    method WriteFile(f: int, content: seq<int>) returns (ok: bool)
      requires Valid() && Full() && f !in size && |content| < (NDIRECT + NINDIRECT) * BLKSIZE
      modifies this
      ensures ok <==> old(pos) + FileBlocks(|content|) < nblocks
      ensures ok ==> Valid() && Full() && size == old(size)[f := |content|] && pos == old(pos) + FileBlocks(|content|)
      ensures ok ==> Holds(ptr, data, f, 0, |content|, content)
      ensures ok ==>
        forall g, k {:trigger ByteOf(ptr, data, g, k)} :: g != f ==>
          ByteOf(ptr, data, g, k) == ByteOf(old(ptr), old(data), g, k)
    {
      var start;
      ghost var m, d := Map(), data;
      ok, start := Alloc(|content|);
      if !ok { return; }
      Store(start, content, BlockCount(|content|));
      ok := FinishFile(f, start, |content|);
      if !ok { return; }
      LaidOutHolds(ptr, data, f, start, content);
      forall g, k {:trigger ByteOf(ptr, data, g, k)} | g != f
        ensures ByteOf(ptr, data, g, k) == ByteOf(m.ptr, d, g, k)
      {
        OtherBytes(m, d, ptr, data, g, k, start);
      }
    }

    /** A file whose blocks lie below `start` is untouched by what happens from `start` on. */
    static lemma OtherBytes(m: FileMap, d: map<int, seq<int>>, ptr: Pointers, data: map<int, seq<int>>, g: int, k: int,
                            start: int)
      requires Sound(m) && forall b {:trigger m.nm[b]} :: b in m.nm ==> b < start
      requires BlockOf(ptr, g, k / BLKSIZE) == BlockOf(m.ptr, g, k / BLKSIZE)
      requires data.Keys == d.Keys && forall b {:trigger data[b]} :: b in data && b < start ==> data[b] == d[b]
      ensures ByteOf(ptr, data, g, k) == ByteOf(m.ptr, d, g, k)
    {
      var b := BlockOf(m.ptr, g, k / BLKSIZE);
      if b.Some? {
        var c := b.value;
        assert c in m.nm && m.nm[c] in m.ptr;
        assert c < start;
        assert c in data ==> data[c] == d[c];
      }
    }

    /**
      finishdir for a directory of `n` entries of 256 bytes. Without entries alloc hands out nothing,
      but finishfile is told one block: the block at the bump pointer is entered and not allocated.
    */
    method FinishDir(root: int, n: int) returns (ok: bool)
      requires Valid() && Full() && root !in size && 0 <= n <= 128
      modifies this
      ensures ok <==> old(pos) + BlockCount(256 * n) < nblocks
      ensures ok ==> size == old(size)[root := RoundUpSigned(256 * n)] && data == old(data)
      ensures ok ==> forall g, j :: g != root ==> BlockOf(ptr, g, j) == BlockOf(old(ptr), g, j)
      ensures ok && n > 0 ==> Valid() && Full()
      ensures ok && n == 0 ==> pos == old(pos) && ptr == old(ptr)[Direct(root, 0) := pos] && Topped(top, ptr)
    {
      var start;
      ghost var m := Map();
      ok, start := Alloc(256 * n);
      if !ok { return; }
      if n > 0 {
        ok := FinishFile(root, start, RoundUpSigned(256 * n));
      } else {
        NewFileKeeps(m, root, BLKSIZE);
        StoreTopped(top, ptr, Direct(root, 0), start);
        OtherFile(ptr, root, start);
        size := size[root := RoundUpSigned(0)];
        top, ptr := top[Direct(root, 0) := start], ptr[Direct(root, 0) := start];
      }
    }

    static lemma OtherFile(ptr: Pointers, root: int, b: int)
      ensures forall g, j :: g != root ==> BlockOf(ptr[Direct(root, 0) := b], g, j) == BlockOf(ptr, g, j)
    {
    }

    /** finishdisk: clear the bits of the blocks below the bump pointer. */
    method FinishDisk()
      requires AllSet() && 0 <= pos <= nblocks
      modifies bitmap
      ensures nblocks <= 32 * bitmap.Length
      ensures forall b :: b in Bitmap.FreeSet(bitmap[..], nblocks) <==> pos <= b < nblocks
    {
      for i := 0 to pos
        invariant forall b :: 0 <= b < 32 * bitmap.Length ==> (Bitmap.Bit(bitmap[..], b) <==> i <= b)
      {
        ghost var w := bitmap[..];
        bitmap[i / 32] := bitmap[i / 32][i % 32 := false];
        assert bitmap[..] == Bitmap.PutBit(w, i, false);
        forall b | 0 <= b < 32 * bitmap.Length ensures Bitmap.Bit(bitmap[..], b) <==> i + 1 <= b {
          Bitmap.BitOfPut(w, i, false, b);
        }
      }
    }
  }

  /** File `f` is on the image, byte for byte. */
  ghost predicate FileThere(ptr: Pointers, data: map<int, seq<int>>, size: map<int, int>, f: int, content: seq<int>) {
    f in size && size[f] == |content| && Holds(ptr, data, f, 0, |content|, content)
  }

  /** The first `n` files are on the image. */
  ghost predicate Contains(ptr: Pointers, data: map<int, seq<int>>, size: map<int, int>, files: seq<seq<int>>, n: int) {
    n <= |files| && forall f {:trigger files[f]} :: 0 <= f < n ==> FileThere(ptr, data, size, f, files[f])
  }

  lemma ContainsStill(ptr: Pointers, data: map<int, seq<int>>, size: map<int, int>, ptr': Pointers,
                      data': map<int, seq<int>>, size': map<int, int>, files: seq<seq<int>>, n: int)
    requires Contains(ptr, data, size, files, n)
    requires forall f :: 0 <= f < n && f in size ==> f in size' && size'[f] == size[f]
    requires forall f, k {:trigger ByteOf(ptr', data', f, k)} :: 0 <= f < n ==>
      ByteOf(ptr', data', f, k) == ByteOf(ptr, data, f, k)
    ensures Contains(ptr', data', size', files, n)
  {
    forall f {:trigger files[f]} | 0 <= f < n ensures FileThere(ptr', data', size', f, files[f]) {
      assert FileThere(ptr, data, size, f, files[f]);
    }
  }

  /** The first `n` files are laid out from block `start` on. */
  ghost predicate Laid(fmt: Formatter, files: seq<seq<int>>, n: int, start: int)
    requires 0 <= n <= |files|
    reads fmt
  {
    && fmt.Valid() && fmt.Full() && Contains(fmt.ptr, fmt.data, fmt.size, files, n)
    && (forall f :: f in fmt.size <==> 0 <= f < n)
    && fmt.pos == start + AllBlocks(files, n) < fmt.nblocks
  }

  method WriteNext(fmt: Formatter, files: seq<seq<int>>, i: int, ghost start: int) returns (ok: bool)
    requires 0 <= i < |files| && Laid(fmt, files, i, start) && |files[i]| < (NDIRECT + NINDIRECT) * BLKSIZE
    modifies fmt
    ensures ok <==> start + AllBlocks(files, i + 1) < fmt.nblocks
    ensures ok ==> Laid(fmt, files, i + 1, start)
  {
    ghost var p, d, z := fmt.ptr, fmt.data, fmt.size;
    ok := fmt.WriteFile(i, files[i]);
    if ok { ContainsStill(p, d, z, fmt.ptr, fmt.data, fmt.size, files, i); }
  }

  /** The loop of main: one writefile per argument. */
  method WriteFiles(fmt: Formatter, files: seq<seq<int>>) returns (ok: bool)
    requires Laid(fmt, files, 0, fmt.pos)
    requires forall i :: 0 <= i < |files| ==> |files[i]| < (NDIRECT + NINDIRECT) * BLKSIZE
    modifies fmt
    ensures ok <==> old(fmt.pos) + AllBlocks(files, |files|) < fmt.nblocks
    ensures ok ==> Laid(fmt, files, |files|, old(fmt.pos))
    ensures |files| == 0 ==> fmt.ptr == old(fmt.ptr) && fmt.size == old(fmt.size)
  {
    for i := 0 to |files|
      invariant Laid(fmt, files, i, old(fmt.pos))
      invariant i == 0 ==> fmt.ptr == old(fmt.ptr) && fmt.size == old(fmt.size)
    {
      FewerFiles(files, i + 1, |files|);
      ok := WriteNext(fmt, files, i, old(fmt.pos));
      if !ok { return; }
    }
    ok := true;
  }

  /** The map of an image, with the free blocks that its bitmap has. */
  ghost function ImageMap(fmt: Formatter, nm: map<int, Name>): FileMap
    requires 0 <= fmt.nblocks <= 32 * fmt.bitmap.Length
    reads fmt, fmt.bitmap
  {
    FileMap(fmt.ptr, nm, fmt.size, Bitmap.FreeSet(fmt.bitmap[..], fmt.nblocks),
            ReservedBlocks(fmt.nblocks), fmt.nblocks)
  }

  /** The bitmap of a finished disk has exactly the unclaimed blocks as free. */
  lemma ImageIs(fmt: Formatter)
    requires fmt.Valid() && fmt.Full() && fmt.nblocks <= 32 * fmt.bitmap.Length
    requires forall b :: b in Bitmap.FreeSet(fmt.bitmap[..], fmt.nblocks) <==> fmt.pos <= b < fmt.nblocks
    ensures ImageMap(fmt, fmt.nm) == fmt.Map()
  {
    assert Bitmap.FreeSet(fmt.bitmap[..], fmt.nblocks) == fmt.Map().free;
  }

  lemma EmptyImage(fmt: Formatter, root: int)
    requires ReservedBlocks(fmt.nblocks) == fmt.pos < fmt.nblocks <= 32 * fmt.bitmap.Length
    requires fmt.ptr == map[Direct(root, 0) := fmt.pos] && fmt.size == map[root := RoundUpSigned(0)]
    requires forall b :: b in Bitmap.FreeSet(fmt.bitmap[..], fmt.nblocks) <==> fmt.pos <= b < fmt.nblocks
    ensures forall nm :: !Sound(ImageMap(fmt, nm))
  {
    forall nm ensures !Sound(ImageMap(fmt, nm)) {
      EmptyRootUnsound(nm, Bitmap.FreeSet(fmt.bitmap[..], fmt.nblocks), root, fmt.nblocks);
    }
  }

  /**
    fsformat: lay out the files, finish the directory, and write the bitmap; it stops when the disk is
    too small, even for the blocks of the file system itself. With at least one file the image is one
    that the server can start from; with none it is not, whatever block is said to be whose.
  */
  method MakeImage(nblocks: int, files: seq<seq<int>>) returns (ok: bool, fmt: Formatter?)
    requires 0 <= nblocks <= WORDS && |files| <= 128
    requires forall i :: 0 <= i < |files| ==> |files[i]| < (NDIRECT + NINDIRECT) * BLKSIZE
    ensures ok <==> ReservedBlocks(nblocks) + AllBlocks(files, |files|) + BlockCount(256 * |files|) < nblocks
    ensures ok ==> fmt != null && fresh(fmt) && fresh(fmt.bitmap) && fmt.nblocks == nblocks <= 32 * fmt.bitmap.Length
    ensures ok && |files| > 0 ==> Sound(ImageMap(fmt, fmt.nm)) && Held(ImageMap(fmt, fmt.nm), fmt.top, fmt.data)
    ensures ok && |files| > 0 ==> Contains(fmt.ptr, fmt.data, fmt.size, files, |files|)
    ensures ok && |files| == 0 ==> Topped(fmt.top, fmt.ptr) && forall nm :: !Sound(ImageMap(fmt, nm))
  {
    ok, fmt := false, null;
    FewerFiles(files, 0, |files|);
    if ReservedBlocks(nblocks) >= nblocks { return; }
    fmt := new Formatter(nblocks);
    ok := WriteFiles(fmt, files);
    if !ok { return; }
    ghost var p, d, z := fmt.ptr, fmt.data, fmt.size;
    ok := fmt.FinishDir(-1, |files|);
    if !ok { return; }
    fmt.FinishDisk();
    if |files| > 0 {
      ContainsStill(p, d, z, fmt.ptr, fmt.data, fmt.size, files, |files|);
      ImageIs(fmt);
    } else {
      EmptyImage(fmt, -1);
    }
  }

  /** The directory's space holds the file that finishdir makes of it exactly when there is an entry. */
  lemma RootFits(n: int)
    requires 0 <= n
    ensures RoundUpSigned(256 * n) <= BLKSIZE * BlockCount(256 * n) <==> n >= 1
  {
  }

  /**
    With no entry at all, finishdir gives the root directory the block at the bump pointer, which it
    did not allocate and which finishdisk leaves marked free: no ownership explains that image.
  */
  lemma EmptyRootUnsound(nm: map<int, Name>, free: set<int>, root: int, nblocks: int)
    requires ReservedBlocks(nblocks) < nblocks
    requires forall b :: b in free <==> ReservedBlocks(nblocks) <= b < nblocks
    ensures
      var start := ReservedBlocks(nblocks);
      && BlockCount(RoundUpSigned(0)) == 1
      && !Sound(FileMap(map[Direct(root, 0) := start], nm, map[root := RoundUpSigned(0)], free, start, nblocks))
  {
    var start := ReservedBlocks(nblocks);
    var m := FileMap(map[Direct(root, 0) := start], nm, map[root := RoundUpSigned(0)], free, start, nblocks);
    assert m.ptr[Direct(root, 0)] == start;
  }
}
