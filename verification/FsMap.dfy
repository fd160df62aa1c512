/**
  Who owns which disk block: the block pointers of a fixed set of files, the inverse of
  those pointers, and the free blocks. The class in Fs.dfy updates them in place.
*/
module FsMap {
  import opened Options
  import opened Words

  const BLKSIZE: int := 4096
  const NDIRECT: int := 10
  const NINDIRECT: int := 1024

  /** A place that holds a block number: f_direct[i], f_indirect, or entry `i` of index block `block`. */
  datatype Name = Direct(file: int, i: int) | Indirect(file: int) | Entry(block: int, i: int)

  /** The block numbers that are not zero. */
  type Pointers = map<Name, int>

  /** Blocks that no file owns and that are never free: the boot block, the superblock and the bitmap. */
  predicate Reserved(b: int, nreserved: int) {
    0 <= b < nreserved
  }

  /** The pointer `x` is in range, and lies below the end of its file. */
  predicate InFile(nm: map<int, Name>, size: map<int, int>, x: Name) {
    match x
    case Direct(f, i) => 0 <= i < NDIRECT && f in size && i * BLKSIZE < size[f]
    case Indirect(f) => f in size
    case Entry(b, i) =>
      && 0 <= i < NINDIRECT && b in nm && nm[b].Indirect? && nm[b].file in size
      && (NDIRECT + i) * BLKSIZE < size[nm[b].file]
  }

  /**
    The pointers of the files, their inverse, the file sizes in bytes, and the free blocks of a
    disk of `nblocks` blocks whose first `nreserved` belong to the file system itself.
  */
  datatype FileMap = FileMap(ptr: Pointers, nm: map<int, Name>, size: map<int, int>, free: set<int>, nreserved: int,
                             nblocks: int)

  /**
    Ownership of blocks: `nm` inverts `ptr`, so no block is named twice; entries exist only in
    blocks that an f_indirect names; and pointers at or past the end of a file are zero.
  */
  ghost predicate Owned(m: FileMap) {
    && (forall x {:trigger m.ptr[x]} :: x in m.ptr ==> m.ptr[x] in m.nm && m.nm[m.ptr[x]] == x)
    && (forall b {:trigger m.nm[b]} :: b in m.nm ==> m.nm[b] in m.ptr && m.ptr[m.nm[b]] == b)
    && (forall x {:trigger m.ptr[x]} :: x in m.ptr ==> InFile(m.nm, m.size, x))
  }

  /** Every block is exactly one of reserved, free and owned. */
  ghost predicate Partition(m: FileMap) {
    && 0 < m.nreserved
    && (forall b :: b in m.free ==> m.nreserved <= b < m.nblocks)
    && (forall b {:trigger m.nm[b]} :: b in m.nm ==> m.nreserved <= b < m.nblocks && b !in m.free)
    && (forall b :: m.nreserved <= b < m.nblocks ==> b in m.free || b in m.nm)
  }

  ghost predicate Sound(m: FileMap) {
    Owned(m) && Partition(m)
  }

  /** The pointer to block `i` of file `f`, when the index block it would lie in exists. */
  function SlotOf(ptr: Pointers, f: int, i: int): Option<Name> {
    if 0 <= i < NDIRECT then Some(Direct(f, i))
    else if NDIRECT <= i < NDIRECT + NINDIRECT && Indirect(f) in ptr then Some(Entry(ptr[Indirect(f)], i - NDIRECT))
    else None
  }

  /** The disk block that holds block `i` of file `f`. */
  function BlockOf(ptr: Pointers, f: int, i: int): Option<int> {
    var s := SlotOf(ptr, f, i);
    if s.Some? && s.value in ptr then Some(ptr[s.value]) else None
  }

  /** Blocks of different places in files are different, and none of them is an index block. */
  lemma BlocksApart(m: FileMap, f: int, i: int, g: int, j: int)
    requires Owned(m) && BlockOf(m.ptr, f, i).Some? && BlockOf(m.ptr, g, j).Some?
    ensures BlockOf(m.ptr, f, i).value in m.nm && !m.nm[BlockOf(m.ptr, f, i).value].Indirect?
    ensures BlockOf(m.ptr, f, i) == BlockOf(m.ptr, g, j) ==> f == g && i == j
  {
  }

  /** The number of free blocks that mapping block `i` of `f` takes: none, one, or one and an index block. */
  function BlockCost(ptr: Pointers, f: int, i: int): nat {
    if BlockOf(ptr, f, i).Some? then 0 else if SlotOf(ptr, f, i).Some? then 1 else 2
  }

  /** The block is there already, or there are enough free blocks for it and for the index block it may need. */
  predicate Mappable(ptr: Pointers, free: set<int>, f: int, i: int) {
    i < NDIRECT + NINDIRECT && |free| >= BlockCost(ptr, f, i)
  }

  /** How many of the blocks [i, j) of file `f` are not allocated. */
  function Missing(ptr: Pointers, f: int, i: int, j: int): nat
    requires i <= j
    decreases j - i
  {
    if i == j then 0 else (if BlockOf(ptr, f, i).None? then 1 else 0) + Missing(ptr, f, i + 1, j)
  }

  /** The number of free blocks that mapping blocks [i, j) of `f` takes, a missing index block included. */
  function Need(ptr: Pointers, f: int, i: int, j: int): nat
    requires i <= j
  {
    Missing(ptr, f, i, j) + if Indirect(f) !in ptr && i < j && NDIRECT < j then 1 else 0
  }

  lemma {:induction false} MissingSame(ptr: Pointers, ptr': Pointers, f: int, i: int, k: int, j: int)
    requires OnlyAt(ptr, ptr', f, i) && i < k <= j
    ensures Missing(ptr', f, k, j) == Missing(ptr, f, k, j)
    decreases j - k
  {
    if k < j { MissingSame(ptr, ptr', f, i, k + 1, j); }
  }

  /** Mapping the first of several blocks takes its share of what they need together. */
  lemma NeedStep(ptr: Pointers, ptr': Pointers, f: int, i: int, j: int)
    requires 0 <= i < j && i < NDIRECT + NINDIRECT && OnlyAt(ptr, ptr', f, i)
    requires Indirect(f) in ptr' <==> Indirect(f) in ptr || i >= NDIRECT
    ensures Need(ptr, f, i, j) == BlockCost(ptr, f, i) + Need(ptr', f, i + 1, j)
  {
    MissingSame(ptr, ptr', f, i, i + 1, j);
  }

  lemma NeedCovers(ptr: Pointers, f: int, i: int, j: int)
    requires 0 <= i < j && i < NDIRECT + NINDIRECT
    ensures BlockCost(ptr, f, i) <= Need(ptr, f, i, j)
  {
  }

  /** Block `i` of file `f` was mapped, or was there. */
  ghost predicate NowMapped(ptr: Pointers, free: set<int>, ptr': Pointers, free': set<int>, f: int, i: int) {
    && Mappable(ptr, free, f, i) && OnlyAt(ptr, ptr', f, i) && |free'| == |free| - BlockCost(ptr, f, i)
    && (Indirect(f) in ptr' <==> Indirect(f) in ptr || i >= NDIRECT)
  }

  /** A transfer of these bytes finds or gets every block it needs. */
  ghost predicate Room(ptr: Pointers, free: set<int>, f: int, offset: int, end: int) {
    offset < end ==>
      end <= (NDIRECT + NINDIRECT) * BLKSIZE && |free| >= Need(ptr, f, offset / BLKSIZE, EndBlock(offset, end))
  }

  /**
    How a transfer ends: it finds or gets all its blocks; it comes to a block past the largest file;
    it needs an index block when none is free; or it needs a block for file data when none is free.
  */
  datatype Fate = Fits | TooLarge | NoIndex | Full

  /** The end of a transfer over blocks [i, j), as far as a file can reach. */
  function Reach(i: int, j: int): (t: int)
    requires i <= j
    ensures i <= t <= j
  {
    if i >= NDIRECT + NINDIRECT then i else if j > NDIRECT + NINDIRECT then NDIRECT + NINDIRECT else j
  }

  /** The first block from `i` on that is reached through the index block. */
  function FirstIndexed(i: int): (k: int)
    ensures i <= k
  {
    if i < NDIRECT then NDIRECT else i
  }

  /** The index block is missing, and the missing blocks before it take exactly the free blocks. */
  ghost predicate IndexIsTooMuch(ptr: Pointers, free: set<int>, f: int, i: int, t: int) {
    Indirect(f) !in ptr && NDIRECT < t && Missing(ptr, f, i, FirstIndexed(i)) == |free|
  }

  /** How a transfer over blocks [i, j) of `f` ends. */
  ghost function FateOf(ptr: Pointers, free: set<int>, f: int, i: int, j: int): Fate
    requires i <= j
  {
    if Need(ptr, f, i, Reach(i, j)) > |free| then
      if IndexIsTooMuch(ptr, free, f, i, Reach(i, j)) then NoIndex else Full
    else if i < j && NDIRECT + NINDIRECT < j then TooLarge else Fits
  }

  /** How a transfer of bytes [offset, end) of `f` ends. */
  ghost function TransferFate(ptr: Pointers, free: set<int>, f: int, offset: int, end: int): Fate
    requires offset <= end
  {
    FateOf(ptr, free, f, offset / BLKSIZE, EndBlock(offset, end))
  }

  lemma RoomFits(ptr: Pointers, free: set<int>, f: int, offset: int, end: int)
    requires 0 <= offset <= end
    ensures Room(ptr, free, f, offset, end) <==> TransferFate(ptr, free, f, offset, end) == Fits
  {
  }

  /** Mapping a block does not change how the transfer ends. */
  lemma FateStep(ptr: Pointers, free: set<int>, ptr': Pointers, free': set<int>, f: int, i: int, j: int)
    requires 0 <= i < j && NowMapped(ptr, free, ptr', free', f, i)
    ensures FateOf(ptr', free', f, i + 1, j) == FateOf(ptr, free, f, i, j)
  {
    var t := Reach(i, j);
    assert t == Reach(i + 1, j);
    NeedStep(ptr, ptr', f, i, t);
    if i < NDIRECT { MissingSame(ptr, ptr', f, i, i + 1, NDIRECT); }
  }

  /** The first block that cannot be mapped tells how the transfer ends. */
  lemma FateStuck(ptr: Pointers, free: set<int>, f: int, i: int, j: int)
    requires 0 <= i < j && !Mappable(ptr, free, f, i)
    ensures FateOf(ptr, free, f, i, j) == StuckAt(ptr, free, f, i)
  {
    if i < NDIRECT + NINDIRECT { NeedCovers(ptr, f, i, Reach(i, j)); }
  }

  /** Why block `i` cannot be mapped. */
  function StuckAt(ptr: Pointers, free: set<int>, f: int, i: int): Fate {
    if i >= NDIRECT + NINDIRECT then TooLarge
    else if SlotOf(ptr, f, i).None? && free == {} then NoIndex
    else Full
  }

  /** A transfer that stands at `pos`, all blocks before it mapped, and will end in `fate`. */
  ghost predicate Going(ptr: Pointers, free: set<int>, f: int, offset: int, pos: int, end: int, fate: Fate) {
    && 0 <= offset <= pos <= end && AtBlock(offset, pos, end)
    && CurBlock(offset, pos, end) <= EndBlock(offset, end)
    && FateOf(ptr, free, f, CurBlock(offset, pos, end), EndBlock(offset, end)) == fate
  }

  lemma GoesOn(ptr: Pointers, free: set<int>, ptr': Pointers, free': set<int>, f: int, offset: int, pos: int, end: int,
               n: int, fate: Fate)
    requires Going(ptr, free, f, offset, pos, end, fate) && pos < end && n == ChunkLen(pos, end)
    requires NowMapped(ptr, free, ptr', free', f, pos / BLKSIZE)
    ensures Going(ptr', free', f, offset, pos + n, end, fate)
  {
    OneBlock(offset, pos, end, n);
    FateStep(ptr, free, ptr', free', f, pos / BLKSIZE, EndBlock(offset, end));
  }

  lemma Stuck(ptr: Pointers, free: set<int>, f: int, offset: int, pos: int, end: int, fate: Fate)
    requires Going(ptr, free, f, offset, pos, end, fate) && pos < end && !Mappable(ptr, free, f, pos / BLKSIZE)
    ensures fate == StuckAt(ptr, free, f, pos / BLKSIZE)
  {
    OneBlock(offset, pos, end, ChunkLen(pos, end));
    FateStuck(ptr, free, f, pos / BLKSIZE, EndBlock(offset, end));
  }

  lemma Starts(ptr: Pointers, free: set<int>, f: int, offset: int, end: int)
    requires 0 <= offset <= end
    ensures Going(ptr, free, f, offset, offset, end, TransferFate(ptr, free, f, offset, end))
  {
  }

  lemma Arrives(ptr: Pointers, free: set<int>, f: int, offset: int, end: int, fate: Fate)
    requires Going(ptr, free, f, offset, end, end, fate)
    ensures fate == Fits
  {
  }

  /** A range that is allocated needs no room. */
  lemma AllocatedRoom(ptr: Pointers, data: map<int, seq<int>>, free: set<int>, f: int, offset: int, end: int)
    requires 0 <= offset && Allocated(ptr, data, f, offset, end)
    ensures Room(ptr, free, f, offset, end)
  {
    if offset < end {
      var i, j := offset / BLKSIZE, EndBlock(offset, end);
      forall k | i <= k < j ensures BlockOf(ptr, f, k).Some? {
        var x := if k == i then offset else k * BLKSIZE;
        assert x / BLKSIZE == k && offset <= x < end;
        assert ByteOf(ptr, data, f, x).Some?;
      }
      NoneMissing(ptr, f, i, j);
      assert BlockOf(ptr, f, j - 1).Some?;
    }
  }

  lemma {:induction false} NoneMissing(ptr: Pointers, f: int, i: int, j: int)
    requires i <= j && forall k :: i <= k < j ==> BlockOf(ptr, f, k).Some?
    ensures Missing(ptr, f, i, j) == 0
    decreases j - i
  {
    if i < j { NoneMissing(ptr, f, i + 1, j); }
  }

  /** The end of the blocks that bytes [offset, end) lie in. */
  function EndBlock(offset: int, end: int): int {
    if offset < end then (end - 1) / BLKSIZE + 1 else offset / BLKSIZE
  }

  /** The first block that a transfer which stands at `pos` has still to map. */
  function CurBlock(offset: int, pos: int, end: int): int {
    if offset < pos == end then EndBlock(offset, end) else pos / BLKSIZE
  }

  /** A transfer under way stands at its start, at the start of a block, or at its end. */
  predicate AtBlock(offset: int, pos: int, end: int) {
    pos == offset || pos % BLKSIZE == 0 || pos == end
  }

  /** Each chunk of a transfer takes one block. */
  lemma OneBlock(offset: int, pos: int, end: int, n: int)
    requires 0 <= offset <= pos < end && AtBlock(offset, pos, end) && n == ChunkLen(pos, end)
    ensures AtBlock(offset, pos + n, end)
    ensures CurBlock(offset, pos, end) == pos / BLKSIZE < EndBlock(offset, end)
    ensures CurBlock(offset, pos + n, end) == pos / BLKSIZE + 1 <= EndBlock(offset, end)
    ensures end <= (NDIRECT + NINDIRECT) * BLKSIZE ==> pos / BLKSIZE < NDIRECT + NINDIRECT
    ensures pos / BLKSIZE < NDIRECT + NINDIRECT ==> pos + n <= (NDIRECT + NINDIRECT) * BLKSIZE
  {
  }

  /** `ptr'` maps file blocks as `ptr` does, except for block `i` of file `f`. */
  ghost predicate OnlyAt(ptr: Pointers, ptr': Pointers, f: int, i: int) {
    forall g, j :: !(g == f && j == i) ==> BlockOf(ptr', g, j) == BlockOf(ptr, g, j)
  }

  ghost predicate SameBlocks(ptr: Pointers, ptr': Pointers) {
    forall g, j :: BlockOf(ptr', g, j) == BlockOf(ptr, g, j)
  }

  // ----- how pointers change -----

  function Add(m: FileMap, x: Name, b: int): FileMap {
    m.(ptr := m.ptr[x := b], nm := m.nm[b := x], free := m.free - {b})
  }

  function Drop(m: FileMap, x: Name): FileMap
    requires x in m.ptr
  {
    m.(ptr := m.ptr - {x}, nm := m.nm - {m.ptr[x]}, free := m.free + {m.ptr[x]})
  }

  /** A free block is entered at `x`. */
  lemma AddKeeps(m: FileMap, x: Name, b: int)
    requires Sound(m) && x !in m.ptr && b in m.free && InFile(m.nm, m.size, x)
    ensures Sound(Add(m, x, b))
  {
    var m' := Add(m, x, b);
    forall y {:trigger m'.ptr[y]} | y in m'.ptr ensures InFile(m'.nm, m'.size, y) {
      if y != x { assert m.ptr[y] in m.nm; }
    }
  }

  /** The block at `x` is given back; an index block only when it has no entries. */
  lemma DropKeeps(m: FileMap, x: Name)
    requires Sound(m) && x in m.ptr
    requires forall y {:trigger m.ptr[y]} :: y in m.ptr && y.Entry? ==> y.block != m.ptr[x]
    ensures Sound(Drop(m, x))
  {
    var m' := Drop(m, x);
    forall y {:trigger m'.ptr[y]} | y in m'.ptr ensures InFile(m'.nm, m'.size, y) {
      assert m.ptr[y] in m.nm;
    }
  }

  /** Entering a block at the slot of block `i` of `f` changes the mapping there only. */
  lemma AddMaps(m: FileMap, f: int, i: int, b: int)
    requires Sound(m) && SlotOf(m.ptr, f, i).Some? && SlotOf(m.ptr, f, i).value !in m.ptr
    ensures
      var x := SlotOf(m.ptr, f, i).value;
      OnlyAt(m.ptr, m.ptr[x := b], f, i) && BlockOf(m.ptr[x := b], f, i) == Some(b)
  {
  }

  /** A new, empty index block maps nothing yet. */
  lemma AddIndexMaps(m: FileMap, f: int, b: int)
    requires Sound(m) && Indirect(f) !in m.ptr && b in m.free
    ensures SameBlocks(m.ptr, m.ptr[Indirect(f) := b])
  {
    forall k ensures Entry(b, k) !in m.ptr {}
  }

  lemma DropMaps(m: FileMap, f: int, i: int)
    requires Sound(m) && SlotOf(m.ptr, f, i).Some? && SlotOf(m.ptr, f, i).value in m.ptr
    ensures
      var x := SlotOf(m.ptr, f, i).value;
      OnlyAt(m.ptr, m.ptr - {x}, f, i) && BlockOf(m.ptr - {x}, f, i) == None
  {
  }

  /** Block `i` of file `f` now is block `b`; every other file block is where it was. */
  ghost predicate Placed(ptr: Pointers, ptr': Pointers, f: int, i: int, b: int) {
    OnlyAt(ptr, ptr', f, i) && BlockOf(ptr', f, i) == Some(b)
  }

  /** All blocks of the disk have contents. */
  ghost predicate Filled(data: map<int, seq<int>>, nblocks: int) {
    && (forall b :: 0 <= b < nblocks ==> b in data)
    && (forall b {:trigger data[b]} :: b in data ==> |data[b]| == BLKSIZE)
  }

  // ----- pointers on disk -----

  const ZEROS: seq<int> := seq(BLKSIZE, _ => 0)

  /** The block number at `x`, zero when there is none. */
  function NumberAt(ptr: Pointers, x: Name): int {
    if x in ptr then ptr[x] else 0
  }

  /** Word `i` of a block. */
  function IndexWord(blk: seq<int>, i: int): int
    requires |blk| == BLKSIZE && 0 <= i < NINDIRECT
  {
    Word(blk, 4 * i)
  }

  /** The pointers f_direct and f_indirect of the files are those of `ptr`. */
  ghost predicate Topped(top: Pointers, ptr: Pointers) {
    && (forall x {:trigger top[x]} :: x in top ==> !x.Entry? && x in ptr && ptr[x] == top[x])
    && (forall x {:trigger ptr[x]} :: x in ptr && !x.Entry? ==> x in top)
  }

  /** Every word of an index block is the pointer of its place, or zero. */
  ghost predicate Indexed(ptr: Pointers, nm: map<int, Name>, data: map<int, seq<int>>) {
    forall b, i {:trigger NumberAt(ptr, Entry(b, i))} ::
      b in nm && nm[b].Indirect? && b in data && |data[b]| == BLKSIZE && 0 <= i < NINDIRECT ==>
        IndexWord(data[b], i) == NumberAt(ptr, Entry(b, i))
  }

  /** What the pointer at `x` holds in memory: a field of a struct File, or a word of an index block. */
  function ReadSlot(top: Pointers, data: map<int, seq<int>>, x: Name): int {
    if x.Entry? then
      if x.block in data && |data[x.block]| == BLKSIZE && 0 <= x.i < NINDIRECT then IndexWord(data[x.block], x.i) else 0
    else NumberAt(top, x)
  }

  /** The place `x` exists: its index block does. */
  predicate HasPlace(nm: map<int, Name>, x: Name) {
    x.Entry? ==> x.block in nm && nm[x.block].Indirect? && 0 <= x.i < NINDIRECT
  }

  lemma ReadIs(m: FileMap, top: Pointers, data: map<int, seq<int>>, x: Name)
    requires Sound(m) && Topped(top, m.ptr) && Indexed(m.ptr, m.nm, data) && Filled(data, m.nblocks)
    requires HasPlace(m.nm, x)
    ensures ReadSlot(top, data, x) == NumberAt(m.ptr, x)
    ensures ReadSlot(top, data, x) != 0 <==> x in m.ptr
  {
    if x.Entry? { assert m.nm[x.block] in m.ptr; }
    assert x in m.ptr ==> m.nm[m.ptr[x]] == x && m.ptr[x] >= m.nreserved;
  }

  /** The struct Files after `v` is stored at `x`. */
  function TopWith(top: Pointers, x: Name, v: int): Pointers {
    if x.Entry? then top else if v == 0 then top - {x} else top[x := v]
  }

  /** The blocks after `v` is stored at `x`. */
  function DataWith(data: map<int, seq<int>>, x: Name, v: int): map<int, seq<int>> {
    if x.Entry? && x.block in data && |data[x.block]| == BLKSIZE && 0 <= x.i < NINDIRECT && 0 <= v < WORDS
    then data[x.block := WithWord(data[x.block], 4 * x.i, v)] else data
  }

  /** Storing a block number at `x` is seen there and nowhere else. */
  lemma StoreIndexed(ptr: Pointers, nm: map<int, Name>, data: map<int, seq<int>>, x: Name, b: int)
    requires Indexed(ptr, nm, data) && HasPlace(nm, x) && !x.Indirect? && b !in nm && 0 < b < WORDS
    requires x.Entry? ==> x.block in data && |data[x.block]| == BLKSIZE
    ensures Indexed(ptr[x := b], nm[b := x], DataWith(data, x, b))
  {
    var ptr', nm', data' := ptr[x := b], nm[b := x], DataWith(data, x, b);
    forall c, i {:trigger NumberAt(ptr', Entry(c, i))} |
      c in nm' && nm'[c].Indirect? && c in data' && |data'[c]| == BLKSIZE && 0 <= i < NINDIRECT
      ensures IndexWord(data'[c], i) == NumberAt(ptr', Entry(c, i))
    {
      assert IndexWord(data[c], i) == NumberAt(ptr, Entry(c, i));
      if x.Entry? && c == x.block { WithWordIs(data[c], 4 * x.i, b, 4 * i); }
    }
  }

  /** Clearing the pointer at `x` is seen there and nowhere else. */
  lemma ClearIndexed(ptr: Pointers, nm: map<int, Name>, data: map<int, seq<int>>, x: Name)
    requires Indexed(ptr, nm, data) && HasPlace(nm, x) && !x.Indirect? && x in ptr && ptr[x] in nm
    requires !nm[ptr[x]].Indirect?
    requires x.Entry? ==> x.block in data && |data[x.block]| == BLKSIZE
    ensures Indexed(ptr - {x}, nm - {ptr[x]}, DataWith(data, x, 0))
  {
    var ptr', nm', data' := ptr - {x}, nm - {ptr[x]}, DataWith(data, x, 0);
    forall c, i {:trigger NumberAt(ptr', Entry(c, i))} |
      c in nm' && nm'[c].Indirect? && c in data' && |data'[c]| == BLKSIZE && 0 <= i < NINDIRECT
      ensures IndexWord(data'[c], i) == NumberAt(ptr', Entry(c, i))
    {
      assert IndexWord(data[c], i) == NumberAt(ptr, Entry(c, i));
      if x.Entry? && c == x.block { WithWordIs(data[c], 4 * x.i, 0, 4 * i); }
    }
  }

  lemma StoreTopped(top: Pointers, ptr: Pointers, x: Name, b: int)
    requires Topped(top, ptr) && b != 0
    ensures Topped(TopWith(top, x, b), ptr[x := b]) && Topped(TopWith(top, x, 0), ptr - {x})
  {
  }

  /** Storing a pointer keeps the size of every block, and the contents of blocks that hold file data. */
  lemma StoreKeeps(m: FileMap, data: map<int, seq<int>>, x: Name, v: int)
    requires Filled(data, m.nblocks) && HasPlace(m.nm, x)
    ensures Filled(DataWith(data, x, v), m.nblocks) && KeepsData(m.nm, data, DataWith(data, x, v))
  {
  }

  /**
    A cleared block can become an index block. The clearing matters: the words of a block that
    held file data would be taken for pointers.
  */
  lemma NewIndex(m: FileMap, data: map<int, seq<int>>, f: int, b: int)
    requires Sound(m) && Indexed(m.ptr, m.nm, data) && b in m.free
    ensures Indexed(m.ptr[Indirect(f) := b], m.nm[b := Indirect(f)], data[b := ZEROS])
  {
    var ptr', nm', data' := m.ptr[Indirect(f) := b], m.nm[b := Indirect(f)], data[b := ZEROS];
    forall c, i {:trigger NumberAt(ptr', Entry(c, i))} |
      c in nm' && nm'[c].Indirect? && c in data' && |data'[c]| == BLKSIZE && 0 <= i < NINDIRECT
      ensures IndexWord(data'[c], i) == NumberAt(ptr', Entry(c, i))
    {
      if c == b {
        assert Entry(b, i) !in m.ptr;
      } else {
        assert IndexWord(data[c], i) == NumberAt(m.ptr, Entry(c, i));
      }
    }
  }

  /** An index block that is given up takes its words with it. */
  lemma FewerIndexed(ptr: Pointers, nm: map<int, Name>, data: map<int, seq<int>>, f: int, b: int)
    requires Indexed(ptr, nm, data)
    ensures Indexed(ptr - {Indirect(f)}, nm - {b}, data)
  {
    forall c, i {:trigger NumberAt(ptr - {Indirect(f)}, Entry(c, i))} |
      c in nm - {b} && nm[c].Indirect? && c in data && |data[c]| == BLKSIZE && 0 <= i < NINDIRECT
      ensures IndexWord(data[c], i) == NumberAt(ptr - {Indirect(f)}, Entry(c, i))
    {
      assert IndexWord(data[c], i) == NumberAt(ptr, Entry(c, i));
    }
  }

  /** Without the clearing, a block with a word that is not zero cannot become an index block. */
  lemma ClearingNeeded(m: FileMap, data: map<int, seq<int>>, f: int, b: int, i: int)
    requires Sound(m) && b in m.free && b in data && |data[b]| == BLKSIZE && 0 <= i < NINDIRECT
    requires IndexWord(data[b], i) != 0
    ensures !Indexed(m.ptr[Indirect(f) := b], m.nm[b := Indirect(f)], data)
  {
    assert Entry(b, i) !in m.ptr;
    assert NumberAt(m.ptr[Indirect(f) := b], Entry(b, i)) == 0;
  }

  /** Changing a block that holds file data, or no file's block, reaches no pointer. */
  lemma DataIndexed(ptr: Pointers, nm: map<int, Name>, data: map<int, seq<int>>, b: int, blk: seq<int>)
    requires Indexed(ptr, nm, data) && (b in nm ==> !nm[b].Indirect?)
    ensures Indexed(ptr, nm, data[b := blk])
  {
    forall c, i {:trigger NumberAt(ptr, Entry(c, i))} |
      c in nm && nm[c].Indirect? && c in data[b := blk] && |data[b := blk][c]| == BLKSIZE && 0 <= i < NINDIRECT
      ensures IndexWord(data[b := blk][c], i) == NumberAt(ptr, Entry(c, i))
    {
      assert IndexWord(data[c], i) == NumberAt(ptr, Entry(c, i));
    }
  }

  /** The pointers are where the source keeps them: in the struct Files, and in the words of the index blocks. */
  ghost predicate Held(m: FileMap, top: Pointers, data: map<int, seq<int>>) {
    Topped(top, m.ptr) && Indexed(m.ptr, m.nm, data) && Filled(data, m.nblocks)
  }

  /** The index block of a place is there. */
  lemma PlaceInData(m: FileMap, data: map<int, seq<int>>, x: Name)
    requires Sound(m) && Filled(data, m.nblocks) && HasPlace(m.nm, x)
    ensures x.Entry? ==> x.block in data && |data[x.block]| == BLKSIZE
  {
    if x.Entry? { assert m.nm[x.block] in m.ptr; }
  }

  /** The index block of a place is a block of the disk that is not free. */
  lemma PlaceInUse(m: FileMap, x: Name)
    requires Sound(m) && HasPlace(m.nm, x)
    ensures x.Entry? ==> 0 <= x.block < m.nblocks && x.block !in m.free && x.block in m.nm
  {
    if x.Entry? { assert m.nm[x.block] in m.ptr; }
  }

  /** A free block is entered at `x`, in memory as in the map. */
  lemma AddHeld(m: FileMap, top: Pointers, data: map<int, seq<int>>, x: Name, b: int)
    requires Sound(m) && Held(m, top, data) && m.nblocks <= WORDS
    requires x !in m.ptr && b in m.free && InFile(m.nm, m.size, x) && !x.Indirect?
    ensures Sound(Add(m, x, b)) && Held(Add(m, x, b), TopWith(top, x, b), DataWith(data, x, b))
    ensures MoreNames(m.nm, Add(m, x, b).nm) && KeepsData(m.nm, data, DataWith(data, x, b))
  {
    AddKeeps(m, x, b);
    PlaceInData(m, data, x);
    StoreIndexed(m.ptr, m.nm, data, x, b);
    StoreTopped(top, m.ptr, x, b);
    StoreKeeps(m, data, x, b);
  }

  /** The pointer at `x` is cleared, in memory as in the map. */
  lemma DropHeld(m: FileMap, top: Pointers, data: map<int, seq<int>>, x: Name)
    requires Sound(m) && Held(m, top, data) && x in m.ptr && !x.Indirect?
    ensures Sound(Drop(m, x)) && Held(Drop(m, x), TopWith(top, x, 0), DataWith(data, x, 0))
    ensures MoreNames(Drop(m, x).nm, m.nm) && KeepsData(Drop(m, x).nm, data, DataWith(data, x, 0))
    ensures DataWith(data, x, 0).Keys == data.Keys
  {
    assert m.nm[m.ptr[x]] == x && InFile(m.nm, m.size, x);
    DropKeeps(m, x);
    PlaceInData(m, data, x);
    ClearIndexed(m.ptr, m.nm, data, x);
    StoreTopped(top, m.ptr, x, 1);
    StoreKeeps(m, data, x, 0);
  }

  /** A free block is cleared and becomes the index block of `f`. */
  lemma AddIndexHeld(m: FileMap, top: Pointers, data: map<int, seq<int>>, f: int, b: int)
    requires Sound(m) && Held(m, top, data) && f in m.size && Indirect(f) !in m.ptr && b in m.free
    ensures
      var m' := Add(m, Indirect(f), b);
      && Sound(m') && Held(m', top[Indirect(f) := b], data[b := ZEROS])
      && SameBlocks(m.ptr, m'.ptr) && MoreNames(m.nm, m'.nm) && KeepsData(m.nm, data, data[b := ZEROS])
  {
    AddKeeps(m, Indirect(f), b);
    AddIndexMaps(m, f, b);
    NewIndex(m, data, f, b);
    StoreTopped(top, m.ptr, Indirect(f), b);
  }

  /** An index block without entries is given back. */
  lemma DropIndexHeld(m: FileMap, top: Pointers, data: map<int, seq<int>>, f: int)
    requires Sound(m) && Held(m, top, data) && Indirect(f) in m.ptr
    requires forall i :: NDIRECT <= i < NDIRECT + NINDIRECT ==> BlockOf(m.ptr, f, i) == None
    ensures
      var m' := Drop(m, Indirect(f));
      && Sound(m') && Held(m', TopWith(top, Indirect(f), 0), data)
      && SameBlocks(m.ptr, m'.ptr) && MoreNames(m'.nm, m.nm)
  {
    DropIndexMaps(m, f);
    DropKeeps(m, Indirect(f));
    StoreTopped(top, m.ptr, Indirect(f), 1);
    FewerIndexed(m.ptr, m.nm, data, f, m.ptr[Indirect(f)]);
  }

  // ----- bytes -----

  /** Byte `k` of file `f`, when the block it lies in is allocated. */
  function ByteOf(ptr: Pointers, data: map<int, seq<int>>, f: int, k: int): Option<int> {
    var b := BlockOf(ptr, f, k / BLKSIZE);
    if b.Some? && b.value in data && |data[b.value]| == BLKSIZE then Some(data[b.value][k % BLKSIZE]) else None
  }

  /** A chunk that lies within one block of a file. */
  predicate InBlock(pos: int, n: int) {
    0 <= pos && 0 <= n && pos % BLKSIZE + n <= BLKSIZE
  }

  /** Storing a chunk into the block of file `f` that holds `pos` changes those bytes of `f` and no others. */
  lemma PatchBytes(m: FileMap, data: map<int, seq<int>>, f: int, pos: int, chunk: seq<int>, b: int, g: int, k: int)
    requires Owned(m) && InBlock(pos, |chunk|) && BlockOf(m.ptr, f, pos / BLKSIZE) == Some(b)
    requires b in data && |data[b]| == BLKSIZE && 0 <= k
    ensures
      var data' := data[b := Patched(data[b], pos % BLKSIZE, chunk)];
      ByteOf(m.ptr, data', g, k) ==
        if g == f && pos <= k < pos + |chunk| then Some(chunk[k - pos]) else ByteOf(m.ptr, data, g, k)
  {
    var data' := data[b := Patched(data[b], pos % BLKSIZE, chunk)];
    if BlockOf(m.ptr, g, k / BLKSIZE) == Some(b) {
      BlocksApart(m, f, pos / BLKSIZE, g, k / BLKSIZE);
      SameBlock(pos, |chunk|, k);
    } else if g == f && pos <= k < pos + |chunk| {
      SameBlock(pos, |chunk|, k);
    }
  }

  lemma SameBlock(pos: int, n: int, k: int)
    requires InBlock(pos, n) && 0 <= k
    ensures pos <= k < pos + n ==> k / BLKSIZE == pos / BLKSIZE
    ensures k / BLKSIZE == pos / BLKSIZE ==> k - pos == k % BLKSIZE - pos % BLKSIZE
  {
    if pos <= k < pos + n {
      assert k == pos / BLKSIZE * BLKSIZE + (pos % BLKSIZE + (k - pos));
      assert 0 <= pos % BLKSIZE + (k - pos) < BLKSIZE;
    }
  }

  /** Bytes of other files are as before, and so are the allocated bytes of `f` outside [lo, hi). */
  ghost predicate Kept(ptr: Pointers, data: map<int, seq<int>>, ptr': Pointers, data': map<int, seq<int>>, f: int,
                       lo: int, hi: int) {
    forall g, k :: 0 <= k && (g != f || (ByteOf(ptr, data, f, k).Some? && !(lo <= k < hi))) ==>
      ByteOf(ptr', data', g, k) == ByteOf(ptr, data, g, k)
  }

  lemma KeptTrans(p0: Pointers, d0: map<int, seq<int>>, p1: Pointers, d1: map<int, seq<int>>,
                  p2: Pointers, d2: map<int, seq<int>>, f: int, lo: int, mid: int, hi: int)
    requires lo <= mid <= hi
    requires Kept(p0, d0, p1, d1, f, lo, mid) && Kept(p1, d1, p2, d2, f, mid, hi)
    ensures Kept(p0, d0, p2, d2, f, lo, hi)
  {
    forall g, k | 0 <= k && (g != f || (ByteOf(p0, d0, f, k).Some? && !(lo <= k < hi)))
      ensures ByteOf(p2, d2, g, k) == ByteOf(p0, d0, g, k)
    {
      assert ByteOf(p1, d1, g, k) == ByteOf(p0, d0, g, k);
    }
  }

  /** The blocks that hold file data have the contents they had; index blocks may change. */
  ghost predicate KeepsData(nm: map<int, Name>, data: map<int, seq<int>>, data': map<int, seq<int>>) {
    forall b {:trigger data'[b]} {:trigger nm[b]} :: b in nm && !nm[b].Indirect? && b in data ==>
      b in data' && data'[b] == data[b]
  }

  /** Names are added, none is changed. */
  ghost predicate MoreNames(nm: map<int, Name>, nm': map<int, Name>) {
    forall b {:trigger nm'[b]} {:trigger nm[b]} :: b in nm ==> b in nm' && nm'[b] == nm[b]
  }

  lemma KeepsDataTrans(nm: map<int, Name>, nm': map<int, Name>, d0: map<int, seq<int>>, d1: map<int, seq<int>>,
                       d2: map<int, seq<int>>)
    requires KeepsData(nm, d0, d1) && KeepsData(nm', d1, d2) && MoreNames(nm, nm')
    ensures KeepsData(nm, d0, d2)
  {
  }

  lemma KeepsDataFewer(nm: map<int, Name>, nm': map<int, Name>, d0: map<int, seq<int>>, d1: map<int, seq<int>>,
                       d2: map<int, seq<int>>)
    requires KeepsData(nm, d0, d1) && KeepsData(nm', d1, d2) && MoreNames(nm', nm)
    ensures KeepsData(nm', d0, d2)
  {
  }

  /** Mapping one more block of `f` leaves every allocated byte as it was. */
  lemma MappingKeeps(m: FileMap, data: map<int, seq<int>>, ptr': Pointers, data': map<int, seq<int>>, f: int, i: int,
                     lo: int)
    requires Sound(m) && OnlyAt(m.ptr, ptr', f, i) && KeepsData(m.nm, data, data')
    requires forall b :: 0 <= b < m.nblocks ==> b in data
    requires BlockOf(m.ptr, f, i).Some? ==> BlockOf(ptr', f, i) == BlockOf(m.ptr, f, i)
    ensures Kept(m.ptr, data, ptr', data', f, lo, lo)
  {
    forall g, k | 0 <= k && (g != f || ByteOf(m.ptr, data, f, k).Some?)
      ensures ByteOf(ptr', data', g, k) == ByteOf(m.ptr, data, g, k)
    {
      var b := BlockOf(m.ptr, g, k / BLKSIZE);
      if b.Some? {
        BlocksApart(m, g, k / BLKSIZE, g, k / BLKSIZE);
        assert m.nm[b.value] in m.ptr;
        assert m.nreserved <= b.value < m.nblocks;
        assert data[b.value] == data'[b.value];
      }
    }
  }

  // ----- sizes -----

  /** Copying a chunk into a block of a file keeps all pointers, and changes those bytes only. */
  lemma PatchHeld(m: FileMap, top: Pointers, data: map<int, seq<int>>, f: int, pos: int, chunk: seq<int>, b: int)
    requires Sound(m) && Held(m, top, data) && InBlock(pos, |chunk|) && BlockOf(m.ptr, f, pos / BLKSIZE) == Some(b)
    ensures 0 <= b < m.nblocks && b !in m.free && b in data && |data[b]| == BLKSIZE
    ensures
      var data' := data[b := Patched(data[b], pos % BLKSIZE, chunk)];
      && Held(m, top, data') && Kept(m.ptr, data, m.ptr, data', f, pos, pos + |chunk|)
      && Holds(m.ptr, data', f, pos, pos + |chunk|, chunk)
  {
    BlocksApart(m, f, pos / BLKSIZE, f, pos / BLKSIZE);
    assert m.nm[b] in m.ptr;
    var data' := data[b := Patched(data[b], pos % BLKSIZE, chunk)];
    DataIndexed(m.ptr, m.nm, data, b, data'[b]);
    forall g, k | 0 <= k
      ensures ByteOf(m.ptr, data', g, k) ==
        if g == f && pos <= k < pos + |chunk| then Some(chunk[k - pos]) else ByteOf(m.ptr, data, g, k)
    {
      PatchBytes(m, data, f, pos, chunk, b, g, k);
    }
  }

  /** Number of blocks a file of `size` bytes needs. */
  function BlockCount(size: int): int {
    (size + BLKSIZE - 1) / BLKSIZE
  }

  lemma BlockCounts(size: int, i: int)
    requires 0 <= size && 0 <= i
    ensures i < BlockCount(size) <==> i * BLKSIZE < size
  {
  }

  /** `ptr'` is `ptr` with the blocks of `f` from `n` bytes on gone. */
  ghost predicate Truncated(ptr: Pointers, ptr': Pointers, f: int, n: int) {
    forall g, j :: 0 <= j ==> BlockOf(ptr', g, j) == if g == f && j * BLKSIZE >= n then None else BlockOf(ptr, g, j)
  }

  /** Cutting a file keeps its bytes below the cut, and the bytes of all other files. */
  lemma TruncateKeeps(ptr: Pointers, data: map<int, seq<int>>, m: FileMap, data': map<int, seq<int>>, f: int, n: int)
    requires Sound(m) && Truncated(ptr, m.ptr, f, n) && KeepsData(m.nm, data, data') && data'.Keys == data.Keys
    ensures Kept(ptr, data, m.ptr, data', f, n, (NDIRECT + NINDIRECT) * BLKSIZE)
  {
    forall g, k | 0 <= k && (g != f || (ByteOf(ptr, data, f, k).Some? && !(n <= k < (NDIRECT + NINDIRECT) * BLKSIZE)))
      ensures ByteOf(m.ptr, data', g, k) == ByteOf(ptr, data, g, k)
    {
      var j := k / BLKSIZE;
      assert BlockOf(m.ptr, g, j) == BlockOf(ptr, g, j);
      if BlockOf(m.ptr, g, j).Some? {
        var b := BlockOf(m.ptr, g, j).value;
        BlocksApart(m, g, j, g, j);
        assert b in m.nm && !m.nm[b].Indirect?;
        assert b in data ==> data'[b] == data[b];
      }
    }
  }

  /** An index block whose entries are all zero can go without changing what any file block maps to. */
  lemma DropIndexMaps(m: FileMap, f: int)
    requires Sound(m) && Indirect(f) in m.ptr
    requires forall i :: NDIRECT <= i < NDIRECT + NINDIRECT ==> BlockOf(m.ptr, f, i) == None
    ensures forall y {:trigger m.ptr[y]} :: y in m.ptr && y.Entry? ==> y.block != m.ptr[Indirect(f)]
    ensures SameBlocks(m.ptr, m.ptr - {Indirect(f)})
  {
    forall y {:trigger m.ptr[y]} | y in m.ptr && y.Entry? ensures y.block != m.ptr[Indirect(f)] {
      assert y == Entry(y.block, y.i);
      assert BlockOf(m.ptr, f, NDIRECT + y.i) == None;
    }
  }

  /** When no block at or past `n` bytes is mapped, the size can become `n`. */
  lemma ResizeKeeps(m: FileMap, f: int, n: int)
    requires Sound(m) && f in m.size && 0 <= n
    requires forall i :: 0 <= i && i * BLKSIZE >= n ==> BlockOf(m.ptr, f, i) == None
    ensures Sound(m.(size := m.size[f := n]))
  {
    var m' := m.(size := m.size[f := n]);
    forall x {:trigger m'.ptr[x]} | x in m'.ptr ensures InFile(m'.nm, m'.size, x) {
      assert InFile(m.nm, m.size, x);
      match x
      case Direct(g, i) => if g == f { assert BlockOf(m.ptr, f, i) == Some(m.ptr[x]); }
      case Indirect(g) =>
      case Entry(b, i) => if m.nm[b].file == f { assert BlockOf(m.ptr, f, NDIRECT + i) == Some(m.ptr[x]); }
    }
  }

  /** Blocks at or past the end of a file are not mapped. */
  lemma PastEnd(m: FileMap, f: int, i: int)
    requires Sound(m) && f in m.size && 0 <= i && i * BLKSIZE >= m.size[f]
    ensures BlockOf(m.ptr, f, i) == None
  {
  }

  /** The next chunk of a transfer that ends at `end`: up to the end of the block or of the transfer. */
  function ChunkLen(pos: int, end: int): (n: int)
    requires 0 <= pos < end
    ensures 0 < n && pos + n <= end && InBlock(pos, n)
  {
    if BLKSIZE - pos % BLKSIZE <= end - pos then BLKSIZE - pos % BLKSIZE else end - pos
  }

  /** Every byte of [lo, hi) lies in an allocated block. */
  ghost predicate Allocated(ptr: Pointers, data: map<int, seq<int>>, f: int, lo: int, hi: int) {
    forall k :: lo <= k < hi ==> ByteOf(ptr, data, f, k).Some?
  }

  /** Bytes [lo, hi) of the file are `buf`. */
  ghost predicate Holds(ptr: Pointers, data: map<int, seq<int>>, f: int, lo: int, hi: int, buf: seq<int>) {
    hi - lo <= |buf| && forall k :: lo <= k < hi ==> ByteOf(ptr, data, f, k) == Some(buf[k - lo])
  }

  /** A range grows by bytes read or written behind it. */
  lemma HoldsMore(p0: Pointers, d0: map<int, seq<int>>, ptr: Pointers, data: map<int, seq<int>>, f: int, lo: int,
                  mid: int, hi: int, from: int, to: int, a: seq<int>, b: seq<int>, ab: seq<int>)
    requires 0 <= lo <= mid <= hi && Holds(p0, d0, f, lo, mid, a) && Kept(p0, d0, ptr, data, f, from, to)
    requires mid <= from || to <= lo
    requires Holds(ptr, data, f, mid, hi, b) && mid - lo <= |a| && hi - lo <= |ab|
    requires forall i :: 0 <= i < hi - lo ==> ab[i] == if i < mid - lo then a[i] else b[i - (mid - lo)]
    ensures Holds(ptr, data, f, lo, hi, ab)
  {
    forall k | lo <= k < hi ensures ByteOf(ptr, data, f, k) == Some(ab[k - lo]) {
      if k < mid { assert ByteOf(p0, d0, f, k) == Some(a[k - lo]); }
    }
  }

  /** A transfer that stands at `pos`: what it has passed is `bytes`, and it will end in `fate`. */
  ghost predicate Transferring(ptr: Pointers, data: map<int, seq<int>>, free: set<int>, f: int, offset: int, pos: int,
                               end: int, bytes: seq<int>, fate: Fate) {
    Holds(ptr, data, f, offset, pos, bytes) && Going(ptr, free, f, offset, pos, end, fate)
  }

  /** The next chunk of a write. */
  lemma WritesOn(p: Pointers, d: map<int, seq<int>>, was: set<int>, ptr: Pointers, data: map<int, seq<int>>,
                 free: set<int>, f: int, offset: int, pos: int, n: int, buf: seq<int>, chunk: seq<int>, fate: Fate)
    requires 0 <= offset <= pos < offset + |buf| && n == ChunkLen(pos, offset + |buf|)
    requires Transferring(p, d, was, f, offset, pos, offset + |buf|, buf, fate)
    requires chunk == buf[pos - offset..pos - offset + n]
    requires Kept(p, d, ptr, data, f, pos, pos + n) && NowMapped(p, was, ptr, free, f, pos / BLKSIZE)
    requires Holds(ptr, data, f, pos, pos + n, chunk)
    ensures Transferring(ptr, data, free, f, offset, pos + n, offset + |buf|, buf, fate)
  {
    GoesOn(p, was, ptr, free, f, offset, pos, offset + |buf|, n, fate);
    HoldsMore(p, d, ptr, data, f, offset, pos, pos + n, pos, pos + n, buf, chunk, buf);
  }

  /** The next chunk of a read. */
  lemma ReadsOn(p: Pointers, d: map<int, seq<int>>, was: set<int>, ptr: Pointers, data: map<int, seq<int>>,
                free: set<int>, f: int, offset: int, pos: int, end: int, out: seq<int>, chunk: seq<int>, fate: Fate)
    requires 0 <= offset <= pos < end && |out| == pos - offset && |chunk| == ChunkLen(pos, end)
    requires Transferring(p, d, was, f, offset, pos, end, out, fate)
    requires Kept(p, d, ptr, data, f, 0, 0) && NowMapped(p, was, ptr, free, f, pos / BLKSIZE)
    requires Holds(ptr, data, f, pos, pos + |chunk|, chunk)
    ensures Transferring(ptr, data, free, f, offset, pos + |chunk|, end, out + chunk, fate)
  {
    GoesOn(p, was, ptr, free, f, offset, pos, end, |chunk|, fate);
    HoldsMore(p, d, ptr, data, f, offset, pos, pos + |chunk|, 0, 0, out, chunk, out + chunk);
  }

  /** A range that was kept reads as it was written. */
  lemma ReadsBack(p: Pointers, d: map<int, seq<int>>, ptr: Pointers, data: map<int, seq<int>>, f: int, lo: int,
                  buf: seq<int>, out: seq<int>)
    requires 0 <= lo && Holds(p, d, f, lo, lo + |buf|, buf) && Kept(p, d, ptr, data, f, 0, 0)
    requires |out| == |buf| && Holds(ptr, data, f, lo, lo + |buf|, out)
    ensures out == buf
  {
    forall i | 0 <= i < |buf| ensures out[i] == buf[i] {
      assert ByteOf(p, d, f, lo + i) == Some(buf[lo + i - lo]);
      assert ByteOf(ptr, data, f, lo + i) == Some(out[lo + i - lo]);
    }
  }

  /** A file no pointer mentions can be given any size. */
  lemma NewFileKeeps(m: FileMap, f: int, n: int)
    requires Sound(m) && f !in m.size
    ensures Sound(m.(size := m.size[f := n]))
    ensures forall i :: BlockOf(m.ptr, f, i) == None
    ensures Indirect(f) !in m.ptr
  {
    var m' := m.(size := m.size[f := n]);
    forall x {:trigger m'.ptr[x]} | x in m'.ptr ensures InFile(m'.nm, m'.size, x) {
      assert InFile(m.nm, m.size, x);
    }
    forall i ensures BlockOf(m.ptr, f, i) == None {}
  }

  // ----- consecutive layout -----

  /** Block `i` of a file with these contents, filled up with zeros. */
  function BlockData(content: seq<int>, i: int): (r: seq<int>)
    requires 0 <= i
    ensures |r| == BLKSIZE
  {
    seq(BLKSIZE, t requires 0 <= t => if i * BLKSIZE + t < |content| then content[i * BLKSIZE + t] else 0)
  }

  /** A file laid out in the blocks from `start` on reads back as its contents. */
  lemma LaidOutHolds(ptr: Pointers, data: map<int, seq<int>>, f: int, start: int, content: seq<int>)
    requires forall i :: 0 <= i < BlockCount(|content|) ==> BlockOf(ptr, f, i) == Some(start + i)
    requires forall b :: start <= b < start + BlockCount(|content|) ==> b in data
    requires forall b {:trigger data[b]} :: start <= b < start + BlockCount(|content|) && b in data ==>
               data[b] == BlockData(content, b - start)
    ensures Holds(ptr, data, f, 0, |content|, content)
  {
    forall k | 0 <= k < |content| ensures ByteOf(ptr, data, f, k) == Some(content[k - 0]) {
      BlockCounts(|content|, k / BLKSIZE);
      var b := start + k / BLKSIZE;
      assert BlockOf(ptr, f, k / BLKSIZE) == Some(b);
      assert b in data;
      assert data[b] == BlockData(content, k / BLKSIZE);
    }
  }
}
