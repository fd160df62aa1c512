/**
  The block list of the lwIP heap as a value: what `mem_malloc`, `mem_free` and
  `mem_realloc` do to the headers, independently of where the headers are stored.
  The class in Heap.dfy keeps these headers inside the heap memory itself.
*/
module HeapLayout {
  import opened Options

  // sizeof(struct mem) rounded up, MIN_SIZE_ALIGNED, MEM_SIZE_ALIGNED and the modulus of mem_size_t
  const HDR: nat := 12
  const MIN: nat := 12
  const SIZE: nat := 2228224
  const U32: nat := 0x1_0000_0000
  type u32 = n: nat | n < U32

  /**
    The headers by offset: where the next header is, where the previous one is, and
    which blocks are handed out. The end marker at SIZE is not a key of `next`; its
    `prev` field is written by some paths and read by none.
  */
  datatype Layout = Layout(next: map<int, int>, prev: map<int, int>, used: set<int>)

  /** What mem_init sets up: one free block. */
  const INITIAL: Layout := Layout(map[0 := SIZE], map[0 := 0], {})

  /** Number of payload bytes of the block at `a`. */
  function Room(h: Layout, a: int): int
    requires a in h.next
  {
    h.next[a] - a - HDR
  }

  /** The block at `a` is followed by another block or by the end marker. */
  predicate Leads(next: map<int, int>, a: int)
    requires a in next
  {
    next[a] == SIZE || next[a] in next
  }

  /** Blocks are aligned, hold at least MIN bytes, never overlap, and `next` ends at SIZE. */
  ghost predicate Tiled(next: map<int, int>) {
    && 0 in next
    && (forall a {:trigger next[a]} :: a in next ==> a % 4 == 0)
    && (forall a {:trigger next[a]} :: a in next ==> 0 <= a && a + HDR + MIN <= next[a] <= SIZE)
    && (forall a {:trigger Leads(next, a)} :: a in next ==> Leads(next, a))
    && (forall a, b {:trigger next[a], next[b]} :: a in next && b in next && a < b ==> next[a] <= b)
  }

  /** `prev` of the block at `a` leads back to it. */
  predicate BackLinked(next: map<int, int>, prev: map<int, int>, a: int)
  {
    a in prev && prev[a] in next && next[prev[a]] == a
  }

  /** `prev` inverts `next`; the first block is its own predecessor. */
  ghost predicate Linked(next: map<int, int>, prev: map<int, int>) {
    && 0 in prev && prev[0] == 0
    && (forall a {:trigger BackLinked(next, prev, a)} :: a in next && a > 0 ==> BackLinked(next, prev, a))
  }

  /** No free block is followed by a free block. */
  ghost predicate Coalesced(h: Layout) {
    forall a, b {:trigger h.next[a], h.next[b]} :: a in h.next && b in h.next && h.next[a] == b ==>
      a in h.used || b in h.used
  }

  ghost predicate WellFormed(h: Layout) {
    Tiled(h.next) && Linked(h.next, h.prev) && Coalesced(h) && h.used <= h.next.Keys
  }

  /** `lf` is the lowest free block, or the end marker when nothing is free. */
  ghost predicate LowestFree(h: Layout, lf: int) {
    && (lf == SIZE || (lf in h.next && lf !in h.used))
    && (forall a {:trigger h.next[a]} :: a in h.next && a !in h.used ==> lf <= a)
  }

  // ----- the list really is the whole heap -----

  /** The headers met when following `next` from `a`. */
  ghost function Follow(next: map<int, int>, a: int): set<int>
    requires Tiled(next) && (a in next || a == SIZE)
    decreases SIZE - a
  {
    if a in next then assert Leads(next, a); {a} + Follow(next, next[a]) else {}
  }

  lemma {:induction false} FollowFrom(next: map<int, int>, a: int)
    requires Tiled(next) && (a in next || a == SIZE)
    ensures Follow(next, a) == set b | b in next && a <= b
    decreases SIZE - a
  {
    if a in next { assert Leads(next, a); FollowFrom(next, next[a]); }
  }

  /** Following `next` from offset 0 meets every header, so the blocks tile the heap up to SIZE. */
  lemma FollowMeetsAll(next: map<int, int>)
    requires Tiled(next)
    ensures Follow(next, 0) == next.Keys
  {
    FollowFrom(next, 0);
  }

  /** Every byte of the heap belongs to a block. */
  lemma {:induction false} Covering(next: map<int, int>, a: int, x: int) returns (b: int)
    requires Tiled(next) && a in next && a <= x < SIZE
    ensures b in next && b <= x < next[b]
    decreases SIZE - a
  {
    assert Leads(next, a);
    if x < next[a] { b := a; } else { b := Covering(next, next[a], x); }
  }

  /** Once nothing is handed out the heap is the single free block it started as. */
  lemma AllFreeIsInitial(h: Layout)
    requires WellFormed(h) && h.used == {}
    ensures h.next == INITIAL.next && h.prev[0] == 0
  {
    assert Leads(h.next, 0);
    assert h.next[0] == SIZE;
    assert forall b :: b in h.next ==> b == 0;
  }

  lemma Inside(next: map<int, int>, a: int, b: int)
    requires Tiled(next) && a in next && a < b < next[a]
    ensures b !in next
  {
  }

  // ----- sizes -----

  /** LWIP_MEM_ALIGN_SIZE: add three in 32-bit arithmetic, then clear the two low bits. */
  function AlignSize(size: u32): nat
  {
    var t := if size + 3 < U32 then size + 3 else size + 3 - U32;
    t - t % 4
  }

  /** The payload size a request is rounded to. */
  function Rounded(size: u32): nat
  {
    if AlignSize(size) < MIN then MIN else AlignSize(size)
  }

  /** The rounded size covers the request exactly when rounding does not wrap. */
  lemma RoundingCovers(size: u32)
    ensures Rounded(size) >= size <==> size <= U32 - 4
    ensures Rounded(size) % 4 == 0 && Rounded(size) >= MIN
  {
    var t := if size + 3 < U32 then size + 3 else size + 3 - U32;
    assert t % 4 < 4 && (t - t % 4) % 4 == 0;
  }

  // ----- allocation -----

  predicate Fits(h: Layout, a: int, size: int) {
    a in h.next && a !in h.used && Room(h, a) >= size
  }

  /** `a` is the lowest block that can hold `size` bytes. */
  ghost predicate FirstFit(h: Layout, a: int, size: int) {
    Fits(h, a, size) && forall b :: Fits(h, b, size) ==> a <= b
  }

  /** First fit: the payload of the lowest block that can hold `size` bytes, or None only when no block can. */
  ghost predicate Allocates(h: Layout, size: int, r: Option<int>, h': Layout) {
    match r
    case None => h' == h && forall a :: !Fits(h, a, size)
    case Some(p) => FirstFit(h, p - HDR, size) && h' == Take(h, p - HDR, size)
  }

  predicate Splits(h: Layout, a: int, size: int)
    requires a in h.next
  {
    Room(h, a) >= size + HDR + MIN
  }

  /** Put a free block at `b`, inside the block at `a`. */
  function Insert(h: Layout, a: int, b: int): Layout
    requires a in h.next
  {
    Layout(h.next[a := b][b := h.next[a]], h.prev[h.next[a] := b][b := a], h.used)
  }

  function Use(h: Layout, a: int): Layout {
    h.(used := h.used + {a})
  }

  /** Hand out the block at `a`, splitting off its tail when a further minimal block fits there. */
  function Take(h: Layout, a: int, size: int): Layout
    requires a in h.next
  {
    Use(if Splits(h, a, size) then Insert(h, a, a + HDR + size) else h, a)
  }

  lemma InsertKeepsTiled(next: map<int, int>, a: int, b: int)
    requires Tiled(next) && a in next
    requires b % 4 == 0 && a + HDR + MIN <= b && b + HDR + MIN <= next[a]
    ensures b !in next
    ensures Tiled(next[a := b][b := next[a]])
  {
    var next' := next[a := b][b := next[a]];
    forall x {:trigger Leads(next', x)} | x in next' ensures Leads(next', x) {
      assert Leads(next, if x == b then a else x);
    }
  }

  lemma InsertKeepsLinked(h: Layout, a: int, b: int)
    requires Tiled(h.next) && Linked(h.next, h.prev) && a in h.next
    requires b !in h.next && a < b < h.next[a]
    ensures Linked(Insert(h, a, b).next, Insert(h, a, b).prev)
  {
    var Layout(next', prev', _) := Insert(h, a, b);
    forall x {:trigger BackLinked(next', prev', x)} | x in next' && x > 0 ensures BackLinked(next', prev', x) {
      if x != b && x != h.next[a] { assert BackLinked(h.next, h.prev, x); }
    }
  }

  /** A split keeps the list well formed when the block itself or its successor is in use. */
  lemma InsertKeeps(h: Layout, a: int, b: int)
    requires WellFormed(h) && a in h.used
    requires h.next[a] in h.next ==> h.next[a] in h.used
    requires b % 4 == 0 && a + HDR + MIN <= b && b + HDR + MIN <= h.next[a]
    ensures WellFormed(Insert(h, a, b))
    ensures b !in h.next
  {
    InsertKeepsTiled(h.next, a, b);
    InsertKeepsLinked(h, a, b);
  }

  lemma TakeKeeps(h: Layout, a: int, size: int)
    requires WellFormed(h)
    requires Fits(h, a, size)
    requires size >= MIN && size % 4 == 0
    ensures WellFormed(Take(h, a, size))
  {
    if Splits(h, a, size) { InsertKeeps(Use(h, a), a, a + HDR + size); }
  }

  /** Handing out a block other than the lowest free one leaves the lowest free one in place. */
  lemma TakeLowest(h: Layout, a: int, size: int, lf: int)
    requires WellFormed(h) && LowestFree(h, lf) && Fits(h, a, size) && size >= 0
    ensures forall b {:trigger Take(h, a, size).next[b]} ::
              b in Take(h, a, size).next && b !in Take(h, a, size).used ==> lf <= b
    ensures a in Take(h, a, size).next
    ensures a != lf ==> LowestFree(Take(h, a, size), lf)
  {
    var h' := Take(h, a, size);
    forall b {:trigger h'.next[b]} | b in h'.next && b !in h'.used ensures lf <= b {
      assert lf <= a by { assert h.next[a] == h.next[a]; }
      if b in h.next { assert h.next[b] == h.next[b]; }
    }
  }

  // ----- freeing -----

  /** Drop the header after `a`, joining its block to the one at `a`. */
  function Merge(h: Layout, a: int): Layout
    requires a in h.next && h.next[a] in h.next
  {
    var n := h.next[a];
    Layout((h.next - {n})[a := h.next[n]], h.prev[h.next[n] := a], h.used)
  }

  function Unuse(h: Layout, a: int): Layout {
    h.(used := h.used - {a})
  }

  /** Join the block at `a` with its successor when that one is free. */
  function PlugForward(h: Layout, a: int): Layout
    requires a in h.next
  {
    if h.next[a] in h.next && h.next[a] !in h.used then Merge(h, a) else h
  }

  /** Join the block at `a` to its predecessor when that one is free. */
  function PlugBackward(h: Layout, a: int): Layout
    requires a in h.next
  {
    if a != 0 && BackLinked(h.next, h.prev, a) && h.prev[a] !in h.used then Merge(h, h.prev[a]) else h
  }

  /** Give the block at `a` back and coalesce it with its free neighbours. */
  function Release(h: Layout, a: int): Layout
    requires a in h.next
  {
    PlugBackward(PlugForward(Unuse(h, a), a), a)
  }

  lemma MergeKeepsTiled(next: map<int, int>, a: int)
    requires Tiled(next) && a in next && next[a] in next
    ensures Tiled((next - {next[a]})[a := next[next[a]]])
  {
    var n := next[a];
    var next' := (next - {n})[a := next[n]];
    forall x {:trigger Leads(next', x)} | x in next' ensures Leads(next', x) {
      assert Leads(next, if x == a then n else x);
    }
  }

  lemma MergeKeepsLinked(h: Layout, a: int)
    requires Tiled(h.next) && Linked(h.next, h.prev) && a in h.next && h.next[a] in h.next
    ensures Linked(Merge(h, a).next, Merge(h, a).prev)
  {
    var Layout(next', prev', _) := Merge(h, a);
    var n := h.next[a];
    forall x {:trigger BackLinked(next', prev', x)} | x in next' && x > 0 ensures BackLinked(next', prev', x) {
      if x != h.next[n] { assert BackLinked(h.next, h.prev, x); }
    }
  }

  /** Everything but Coalesced, which may fail at the pairs around `a` only. */
  ghost predicate AlmostCoalesced(h: Layout, a: int) {
    && Tiled(h.next) && Linked(h.next, h.prev) && h.used <= h.next.Keys
    && forall x, y {:trigger h.next[x], h.next[y]} ::
         x in h.next && y in h.next && h.next[x] == y && x != a && y != a ==> x in h.used || y in h.used
  }

  /** Joining two free blocks, of which the upper one is `a`, repairs the pair between them. */
  lemma MergeCoalesces(h: Layout, p: int)
    requires p in h.next && h.next[p] in h.next && h.next[p] !in h.used
    requires AlmostCoalesced(h, h.next[p])
    requires p in h.used || h.next[h.next[p]] in h.used || h.next[h.next[p]] !in h.next
    ensures WellFormed(Merge(h, p))
  {
    MergeKeepsTiled(h.next, p);
    MergeKeepsLinked(h, p);
    var h' := Merge(h, p);
    forall x, y {:trigger h'.next[x], h'.next[y]} | x in h'.next && y in h'.next && h'.next[x] == y
      ensures x in h.used || y in h.used
    {
      if x != p { assert h.next[x] == y; }
    }
  }

  lemma PlugForwardKeeps(h: Layout, a: int)
    requires AlmostCoalesced(h, a) && a in h.next && a !in h.used
    ensures
      var h' := PlugForward(h, a);
      && AlmostCoalesced(h', a) && a in h'.next && h'.used == h.used
      && (h'.next[a] in h'.next ==> h'.next[a] in h'.used)
  {
    if h.next[a] in h.next && h.next[a] !in h.used {
      MergeKeepsTiled(h.next, a);
      MergeKeepsLinked(h, a);
    }
  }

  lemma PlugBackwardKeeps(h: Layout, a: int)
    requires AlmostCoalesced(h, a) && a in h.next && a !in h.used
    requires h.next[a] in h.next ==> h.next[a] in h.used
    ensures WellFormed(PlugBackward(h, a)) && PlugBackward(h, a).used == h.used
  {
    assert a > 0 ==> BackLinked(h.next, h.prev, a);
    if a > 0 && h.prev[a] !in h.used {
      MergeCoalesces(h, h.prev[a]);
    } else {
      forall x, y {:trigger h.next[x], h.next[y]} | x in h.next && y in h.next && h.next[x] == y
        ensures x in h.used || y in h.used
      {
        if y == a { assert x == h.prev[a]; }
      }
    }
  }

  lemma ReleaseKeeps(h: Layout, a: int)
    requires WellFormed(h) && a in h.used
    ensures WellFormed(Release(h, a))
    ensures Release(h, a).used == h.used - {a}
  {
    PlugForwardKeeps(Unuse(h, a), a);
    PlugBackwardKeeps(PlugForward(Unuse(h, a), a), a);
  }

  // ----- shrinking -----

  /** Cut the block at `a` to `size` payload bytes: the rest joins a free successor or becomes a block. */
  function Shrink(h: Layout, a: int, size: int): Layout
    requires a in h.next
  {
    if h.next[a] in h.next && h.next[a] !in h.used then Insert(Merge(h, a), a, a + HDR + size)
    else if Splits(h, a, size) then Insert(h, a, a + HDR + size)
    else h
  }

  /** Joining and splitting again in one move. */
  lemma MovedDown(h: Layout, a: int, b: int)
    requires Tiled(h.next) && a in h.next && h.next[a] in h.next && a < b < h.next[a]
    ensures
      var n := h.next[a];
      && b !in h.next
      && Insert(Merge(h, a), a, b) ==
         Layout((h.next - {n})[a := b][b := h.next[n]], h.prev[h.next[n] := b][b := a], h.used)
  {
    Inside(h.next, a, b);
    assert h.next[h.next[a]] > h.next[a];
  }

  lemma ShrinkKeeps(h: Layout, a: int, size: int)
    requires WellFormed(h) && a in h.used
    requires MIN <= size < Room(h, a) && size % 4 == 0
    ensures WellFormed(Shrink(h, a, size))
  {
    var n := h.next[a];
    if n in h.next && n !in h.used {
      MergeCoalesces(h, a);
      var m := Merge(h, a);
      assert m.next[a] == h.next[n] >= n + HDR + MIN;
      assert m.next[a] in h.next ==> m.next[a] in h.used;
      InsertKeeps(m, a, a + HDR + size);
    } else if Splits(h, a, size) {
      InsertKeeps(h, a, a + HDR + size);
    }
  }

  // ----- the lowest free block -----

  /** Giving back a block makes the lower of it and the old hint the new lowest free block. */
  lemma UnuseLowest(h: Layout, a: int, lf: int)
    requires a in h.next && LowestFree(h, lf) && Tiled(h.next)
    ensures LowestFree(Unuse(h, a), if a < lf then a else lf)
  {
    var h' := Unuse(h, a);
    forall b {:trigger h'.next[b]} | b in h'.next && b !in h'.used ensures (if a < lf then a else lf) <= b {
      if b != a { assert lf <= b by { assert h.next[b] == h.next[b]; } }
    }
    assert h.next[a] <= SIZE;
  }

  /** Joining two free blocks leaves the lowest free block where it was. */
  lemma MergeLowest(h: Layout, a: int, lf: int)
    requires Tiled(h.next) && LowestFree(h, lf)
    requires a in h.next && a !in h.used && h.next[a] in h.next
    ensures LowestFree(Merge(h, a), lf) && lf <= a < h.next[a]
  {
    assert lf <= a < h.next[a];
  }

  /** A free block inserted at `b` is the new lowest one when it lies below the old one. */
  lemma InsertLowest(h: Layout, a: int, b: int, lf: int)
    requires Tiled(h.next) && LowestFree(h, lf)
    requires a in h.used && a in h.next && b !in h.next && b !in h.used && b < h.next[a]
    ensures LowestFree(Insert(h, a, b), if b < lf then b else lf)
  {
    var h' := Insert(h, a, b);
    forall x {:trigger h'.next[x]} | x in h'.next && x !in h'.used ensures (if b < lf then b else lf) <= x {
      if x != b { assert lf <= x by { assert h.next[x] == h.next[x]; } }
    }
  }

  /** Moving a free block down moves the hint with it. */
  lemma MoveLowest(h: Layout, a: int, b: int, lf: int)
    requires Tiled(h.next) && LowestFree(h, lf) && a in h.used
    requires a in h.next && h.next[a] in h.next && h.next[a] !in h.used
    requires a < b < h.next[a] && b !in h.used
    ensures LowestFree(Insert(Merge(h, a), a, b), if lf == h.next[a] then b else lf)
  {
    MovedDown(h, a, b);
    var h' := Insert(Merge(h, a), a, b);
    assert lf <= h.next[a] by { assert h.next[h.next[a]] > 0; }
    if lf != h.next[a] { assert lf < a by { assert h.next[lf] <= h.next[a]; assert h.next[a] > 0; } }
    forall x {:trigger h'.next[x]} | x in h'.next && x !in h'.used
      ensures (if lf == h.next[a] then b else lf) <= x
    {
      if x != b { assert lf <= x by { assert h.next[x] == h.next[x]; } }
    }
  }

  // ----- what a client sees -----

  /** The blocks handed out, with their payload sizes. */
  function Live(h: Layout): map<int, int>
    requires h.used <= h.next.Keys
  {
    map a | a in h.used :: Room(h, a)
  }

  /** Byte `x` belongs to the payload of the handed-out block at `a`. */
  predicate InPayload(h: Layout, a: int, x: int) {
    a in h.used && a in h.next && a + HDR <= x < h.next[a]
  }

  /** A payload byte lies inside the heap, in no header, and in no block but its own. */
  lemma PayloadsApart(h: Layout, f: int)
    requires Tiled(h.next)
    ensures forall a, x :: InPayload(h, a, x) ==> 0 <= x < SIZE && x !in h.next
    ensures f in h.next ==> forall a, x :: InPayload(h, a, x) && a != f ==> !(f <= x < h.next[f])
  {
  }

  /** Payloads are aligned, inside the heap, at least MIN long and pairwise disjoint. */
  lemma LiveDisjoint(h: Layout, a: int, b: int)
    requires WellFormed(h) && a in h.used && b in h.used && a != b
    ensures (a + HDR) % 4 == 0 && 0 <= a && a + HDR + Live(h)[a] <= SIZE && Live(h)[a] >= MIN
    ensures a + HDR + Live(h)[a] <= b || b + HDR + Live(h)[b] <= a
  {
    assert h.next[a] > a && h.next[b] > b;
  }

  /** Two layouts that agree on every handed-out block but `a` show a client the same blocks but `a`. */
  lemma LiveAgrees(h: Layout, h': Layout, a: int)
    requires h.used <= h.next.Keys && h'.used <= h'.next.Keys
    requires h'.used == h.used + {a} || h'.used == h.used - {a}
    requires forall x :: x in h.used && x != a ==> x in h'.next && h'.next[x] == h.next[x]
    ensures a in h'.used ==> Live(h') == Live(h)[a := Room(h', a)]
    ensures a !in h'.used ==> Live(h') == Live(h) - {a}
  {
  }

  /** Allocation adds one block of the size asked for, give or take less than a header and MIN. */
  lemma TakeAddsOne(h: Layout, a: int, size: int)
    requires WellFormed(h) && Fits(h, a, size) && size >= MIN && size % 4 == 0
    ensures
      var h' := Take(h, a, size);
      && h'.used <= h'.next.Keys
      && Live(h') == Live(h)[a := Room(h', a)]
      && size <= Room(h', a) < size + HDR + MIN
  {
    var h' := Take(h, a, size);
    if Splits(h, a, size) { InsertKeepsTiled(h.next, a, a + HDR + size); }
    LiveAgrees(h, h', a);
  }

  /** Freeing removes that one block and changes no other. */
  lemma ReleaseDropsOne(h: Layout, a: int)
    requires WellFormed(h) && a in h.used
    ensures
      var h' := Release(h, a);
      h'.used <= h'.next.Keys && Live(h') == Live(h) - {a}
  {
    ReleaseKeeps(h, a);
    var h' := Release(h, a);
    forall x | x in h.used && x != a ensures x in h'.next && h'.next[x] == h.next[x] {}
    LiveAgrees(h, h', a);
  }

  /** Shrinking changes that one block's size only, and never below what was asked for. */
  lemma ShrinkChangesOne(h: Layout, a: int, size: int)
    requires WellFormed(h) && a in h.used
    requires MIN <= size < Room(h, a) && size % 4 == 0
    ensures
      var h' := Shrink(h, a, size);
      && h'.used <= h'.next.Keys
      && Live(h') == Live(h)[a := Room(h', a)]
      && size <= Room(h', a) <= Room(h, a) && Room(h', a) < size + HDR + MIN
  {
    ShrinkKeeps(h, a, size);
    var h' := Shrink(h, a, size);
    forall x | x in h.used && x != a ensures x in h'.next && h'.next[x] == h.next[x] {}
    LiveAgrees(h, h', a);
  }

  // ----- whole runs -----

  datatype Op = Malloc(size: u32) | Free(at: int) | Realloc(at: int, size: u32)

  /** What one call does to the block list; Free and Realloc are given blocks that are handed out. */
  ghost predicate Step(h: Layout, op: Op, h': Layout) {
    match op
    case Malloc(size) => if size == 0 then h' == h else exists r :: Allocates(h, Rounded(size), r, h')
    case Free(a) => a in h.used && a in h.next && h' == Release(h, a)
    case Realloc(a, size) =>
      var n := Rounded(size);
      && a in h.used && a in h.next && (n <= Room(h, a) || n > SIZE)
      && h' == if n < Room(h, a) then Shrink(h, a, n) else h
  }

  /** What the client asked for, block by block, before and after a call. */
  ghost predicate Asks(h: Layout, m: map<int, u32>, op: Op, h': Layout, m': map<int, u32>) {
    match op
    case Malloc(size) =>
      m'.Keys == h'.used && forall a {:trigger m'[a]} :: a in m' ==> m'[a] == if a in m then m[a] else size
    case Free(a) => m' == m - {a}
    case Realloc(a, size) => m' == if Rounded(size) > SIZE then m else m[a := size]
  }

  ghost predicate IsRun(trace: seq<Layout>, asked: seq<map<int, u32>>, ops: seq<Op>) {
    && |trace| == |asked| == |ops| + 1
    && trace[0] == INITIAL && asked[0] == map[]
    && forall i {:trigger ops[i]} :: 0 <= i < |ops| ==>
         Step(trace[i], ops[i], trace[i + 1]) && Asks(trace[i], asked[i], ops[i], trace[i + 1], asked[i + 1])
  }

  /** A block of the rounded size of the request, give or take less than a header and MIN. */
  predicate Serves(room: int, size: u32) {
    Rounded(size) <= room < Rounded(size) + HDR + MIN
  }

  /** Every block handed out serves the request made for it. */
  ghost predicate AllServed(live: map<int, int>, m: map<int, u32>) {
    m.Keys == live.Keys && forall a {:trigger m[a]} :: a in m ==> Serves(live[a], m[a])
  }

  lemma MallocServes(h: Layout, m: map<int, u32>, size: u32, h': Layout, m': map<int, u32>)
    requires WellFormed(h) && AllServed(Live(h), m) && Step(h, Op.Malloc(size), h') && h'.used <= h'.next.Keys
    requires Asks(h, m, Op.Malloc(size), h', m')
    ensures AllServed(Live(h'), m')
  {
    RoundingCovers(size);
    if h' != h {
      var r :| Allocates(h, Rounded(size), r, h');
      TakeAddsOne(h, r.value - HDR, Rounded(size));
    }
  }

  lemma ReallocServes(h: Layout, m: map<int, u32>, a: int, size: u32, h': Layout, m': map<int, u32>)
    requires WellFormed(h) && AllServed(Live(h), m) && Step(h, Op.Realloc(a, size), h') && h'.used <= h'.next.Keys
    requires Asks(h, m, Op.Realloc(a, size), h', m')
    ensures AllServed(Live(h'), m')
  {
    RoundingCovers(size);
    assert h.next[a] <= SIZE;
    if Rounded(size) < Room(h, a) { ShrinkChangesOne(h, a, Rounded(size)); }
  }

  lemma StepServes(h: Layout, m: map<int, u32>, op: Op, h': Layout, m': map<int, u32>)
    requires WellFormed(h) && AllServed(Live(h), m) && Step(h, op, h') && Asks(h, m, op, h', m')
    ensures WellFormed(h') && AllServed(Live(h'), m')
  {
    StepKeeps(h, op, h');
    match op
    case Malloc(size) => MallocServes(h, m, size, h', m');
    case Free(a) => ReleaseDropsOne(h, a);
    case Realloc(a, size) => ReallocServes(h, m, a, size, h', m');
  }

  /** A block that serves a request is as large as the request, unless rounding the request wrapped. */
  lemma ServesCovers(room: int, size: u32)
    requires Serves(room, size) && room <= SIZE
    ensures room >= size <==> size <= U32 - 4
  {
    RoundingCovers(size);
  }

  lemma StepKeeps(h: Layout, op: Op, h': Layout)
    requires WellFormed(h) && Step(h, op, h')
    ensures WellFormed(h')
  {
    match op
    case Malloc(size) =>
      RoundingCovers(size);
      if h' != h {
        var r :| Allocates(h, Rounded(size), r, h');
        TakeKeeps(h, r.value - HDR, Rounded(size));
      }
    case Free(a) => ReleaseKeeps(h, a);
    case Realloc(a, size) =>
      RoundingCovers(size);
      if Rounded(size) < Room(h, a) { ShrinkKeeps(h, a, Rounded(size)); }
  }

  lemma {:induction false} RunServes(trace: seq<Layout>, asked: seq<map<int, u32>>, ops: seq<Op>)
    requires IsRun(trace, asked, ops)
    ensures WellFormed(trace[|ops|]) && AllServed(Live(trace[|ops|]), asked[|ops|])
    decreases |ops|
  {
    if |ops| > 0 {
      var n := |ops| - 1;
      RunServes(trace[..n + 1], asked[..n + 1], ops[..n]);
      assert ops[n] == ops[n];
      StepServes(trace[n], asked[n], ops[n], trace[n + 1], asked[n + 1]);
    }
  }

  /**
    In every run the list stays well formed, and whenever all is freed one single free block is left.
    The blocks handed out are the ones asked for and not freed since, and each is at least as large as
    it was last asked to be, precisely unless that was more than 2^32 - 4 bytes.
  */
  lemma RunKeeps(trace: seq<Layout>, asked: seq<map<int, u32>>, ops: seq<Op>)
    requires IsRun(trace, asked, ops)
    ensures WellFormed(trace[|ops|]) && asked[|ops|].Keys == trace[|ops|].used
    ensures trace[|ops|].used == {} ==> trace[|ops|].next == INITIAL.next
    ensures
      var h, m := trace[|ops|], asked[|ops|];
      forall a {:trigger m[a]} :: a in m ==> (Live(h)[a] >= m[a] <==> m[a] <= U32 - 4)
  {
    RunServes(trace, asked, ops);
    var h, m := trace[|ops|], asked[|ops|];
    if h.used == {} { AllFreeIsInitial(h); }
    forall a {:trigger m[a]} | a in m ensures Live(h)[a] >= m[a] <==> m[a] <= U32 - 4 {
      assert h.next[a] <= SIZE;
      ServesCovers(Live(h)[a], m[a]);
    }
  }
}
