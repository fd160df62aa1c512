/**
  The lwIP heap as it is stored: block headers and payload bytes share one array,
  and mem_malloc, mem_free and mem_realloc update the headers in place.
*/
module Heap {
  import opened Options
  import opened HeapLayout

  /** A byte of the heap: client data, the start of a `struct mem`, or the rest of one. */
  datatype Cell = Data(value: int) | Head(next: int, prev: int, used: bool) | Rest

  class Mem {
    const ram: array<Cell>
    var lfree: int
    ghost var layout: Layout

    /** The headers of `layout` are in memory, and so is the end marker. */
    ghost predicate Stored()
      reads this, ram
    {
      && ram.Length == SIZE + HDR
      && (forall a {:trigger layout.next[a]} :: a in layout.next ==>
            0 <= a < SIZE && a in layout.prev &&
            ram[a] == Head(layout.next[a], layout.prev[a], a in layout.used))
      && ram[SIZE].Head? && ram[SIZE].next == SIZE && ram[SIZE].used
    }

    ghost predicate Valid()
      reads this, ram
    {
      Stored() && WellFormed(layout) && LowestFree(layout, lfree)
    }

    /** mem_init */
    constructor ()
      ensures Valid() && fresh(ram) && layout == INITIAL
    {
      ram := new Cell[SIZE + HDR](_ => Data(0));
      lfree := 0;
      layout := INITIAL;
      new;
      ram[0] := Head(SIZE, 0, false);
      ram[SIZE] := Head(SIZE, SIZE, true);
    }

    /** Lay down a whole new `struct mem` over whatever was there. */
    method NewHead(p: int, next: int, prev: int, used: bool)
      requires 0 <= p && p + HDR <= ram.Length
      modifies ram
      ensures ram[p] == Head(next, prev, used)
      ensures forall x :: 0 <= x < ram.Length && !(p <= x < p + HDR) ==> ram[x] == old(ram[x])
    {
      forall x | p < x < p + HDR { ram[x] := Rest; }
      ram[p] := Head(next, prev, used);
    }

    /** Make a free block at `b` inside the block at `a` and link it in. */
    method Split(a: int, b: int)
      requires Stored() && Tiled(layout.next) && a in layout.next
      requires b !in layout.next && a + HDR <= b && b + HDR <= layout.next[a]
      requires b !in layout.used
      modifies ram, this`layout
      ensures Stored()
      ensures layout == Insert(old(layout), a, b)
      ensures forall x :: 0 <= x < SIZE && x !in old(layout.next) && !(b <= x < b + HDR) ==> ram[x] == old(ram[x])
    {
      var n := ram[a].next;
      assert Leads(layout.next, a);
      NewHead(b, n, a, false);
      ram[a] := ram[a].(next := b);
      if n != SIZE {
        assert layout.next[n] > n;
        ram[n] := ram[n].(prev := b);
      }
      layout := Insert(layout, a, b);
    }

    /** Mark the block at `a` as handed out. */
    method SetUsed(a: int, used: bool)
      requires Stored() && a in layout.next
      modifies ram, this`layout
      ensures Stored()
      ensures layout == if used then Use(old(layout), a) else Unuse(old(layout), a)
      ensures forall x :: 0 <= x < SIZE && x != a ==> ram[x] == old(ram[x])
    {
      assert layout.next[a] == ram[a].next;
      ram[a] := ram[a].(used := used);
      layout := if used then Use(layout, a) else Unuse(layout, a);
    }

    /** Move lfree up to the next free block, or to the end marker. */
    method AdvanceLfree()
      requires Stored() && WellFormed(layout)
      requires lfree in layout.next
      requires forall b {:trigger layout.next[b]} :: b in layout.next && b !in layout.used ==> lfree <= b
      modifies this`lfree
      ensures Valid()
    {
      while ram[lfree].used && lfree != SIZE
        invariant lfree == SIZE || lfree in layout.next
        invariant 0 <= lfree <= SIZE
        invariant forall b {:trigger layout.next[b]} :: b in layout.next && b !in layout.used ==> lfree <= b
        decreases SIZE - lfree
      {
        assert Leads(layout.next, lfree);
        lfree := ram[lfree].next;
      }
    }

    /** Split the block found if it is large enough, and mark it as handed out. */
    method Carve(a: int, size: int)
      requires Stored() && Tiled(layout.next) && a in layout.next && layout.used <= layout.next.Keys
      requires size >= MIN && size % 4 == 0
      modifies ram, this`layout
      ensures Stored() && layout == Take(old(layout), a, size)
      ensures forall x :: 0 <= x < SIZE && x !in old(layout.next) && !(a <= x < old(layout.next[a])) ==>
                ram[x] == old(ram[x])
    {
      ghost var h := layout;
      assert h.next[a] == ram[a].next && a % 4 == 0;
      if ram[a].next - (a + HDR) >= size + HDR + MIN {
        assert a + HDR + size !in h.next by { InsertKeepsTiled(h.next, a, a + HDR + size); }
        Split(a, a + HDR + size);
      }
      SetUsed(a, true);
    }

    /** The part of mem_malloc that hands out the block found. */
    method TakeBlock(a: int, size: int)
      requires Valid() && Fits(layout, a, size) && size >= MIN && size % 4 == 0
      modifies this, ram
      ensures Valid()
      ensures layout == Take(old(layout), a, size)
      ensures forall x :: 0 <= x < SIZE && x !in old(layout.next) && !(a <= x < old(layout.next[a])) ==>
                ram[x] == old(ram[x])
    {
      ghost var h := layout;
      Carve(a, size);
      TakeKeeps(h, a, size);
      TakeLowest(h, a, size, lfree);
      if a == lfree { AdvanceLfree(); }
    }

    /** The scan of mem_malloc: from lfree upwards, stopping where `size` bytes no longer fit below the end. */
    method FindFit(size: int) returns (found: bool, ptr: int)
      requires Valid() && 0 <= size <= SIZE
      ensures found ==> FirstFit(layout, ptr, size)
      ensures !found ==> forall a :: !Fits(layout, a, size)
    {
      ptr := lfree;
      while ptr < SIZE - size
        invariant ptr == SIZE || ptr in layout.next
        invariant forall b {:trigger layout.next[b]} ::
                    b in layout.next && b !in layout.used && b < ptr ==> layout.next[b] - b - HDR < size
        decreases SIZE - ptr
      {
        if !ram[ptr].used && ram[ptr].next - (ptr + HDR) >= size {
          forall b | Fits(layout, b, size) ensures ptr <= b { assert layout.next[b] > b; }
          return true, ptr;
        }
        assert Leads(layout.next, ptr);
        ptr := ram[ptr].next;
      }
      forall a ensures !Fits(layout, a, size) {
        if a in layout.next { assert layout.next[a] <= SIZE; }
      }
      found := false;
    }

    /** mem_malloc for a rounded size that is not larger than the heap. */
    method Alloc(n: int) returns (r: Option<int>)
      requires Valid() && MIN <= n <= SIZE && n % 4 == 0
      modifies this, ram
      ensures Valid() && Allocates(old(layout), n, r, layout)
      ensures forall a, x :: InPayload(old(layout), a, x) ==> ram[x] == old(ram[x])
    {
      var found, ptr := FindFit(n);
      if !found { return None; }
      PayloadsApart(layout, ptr);
      TakeBlock(ptr, n);
      r := Some(ptr + HDR);
    }

    /** mem_malloc: the offset of the payload, or None for NULL. */
    method Malloc(size: u32) returns (r: Option<int>)
      requires Valid()
      modifies this, ram
      ensures Valid()
      ensures size == 0 ==> r.None? && layout == old(layout)
      ensures size > 0 ==> Allocates(old(layout), Rounded(size), r, layout)
      ensures Step(old(layout), Op.Malloc(size), layout)
      ensures forall a, x :: InPayload(old(layout), a, x) ==> ram[x] == old(ram[x])
    {
      if size == 0 { return None; }
      RoundingCovers(size);
      var n := Rounded(size);
      if n > SIZE {
        assert Allocates(layout, n, None, layout);
        return None;
      }
      r := Alloc(n);
    }

    /** Drop the header that follows the one at `a`. */
    method Join(a: int)
      requires Stored() && Tiled(layout.next) && a in layout.next && layout.next[a] in layout.next
      modifies ram, this`layout
      ensures Stored() && layout == Merge(old(layout), a)
      ensures forall x :: 0 <= x < SIZE && x !in old(layout.next) ==> ram[x] == old(ram[x])
    {
      var n := ram[a].next;
      var nn := ram[n].next;
      assert Leads(layout.next, n);
      assert nn != SIZE ==> layout.next[nn] > nn > n > a;
      ram[a] := ram[a].(next := nn);
      ram[nn] := ram[nn].(prev := a);
      layout := Merge(layout, a);
    }

    /** plug_holes */
    method PlugHoles(mem: int)
      requires Stored() && AlmostCoalesced(layout, mem) && LowestFree(layout, lfree)
      requires mem in layout.next && mem !in layout.used
      modifies this, ram
      ensures Valid() && layout == PlugBackward(PlugForward(old(layout), mem), mem)
      ensures forall x :: 0 <= x < SIZE && x !in old(layout.next) ==> ram[x] == old(ram[x])
    {
      ghost var h := layout;
      var nmem := ram[mem].next;
      assert Leads(h.next, mem);
      if mem != nmem && !ram[nmem].used && nmem != SIZE {
        MergeLowest(h, mem, lfree);
        lfree := if lfree == nmem then mem else lfree;
        Join(mem);
      }
      assert layout == PlugForward(h, mem);
      PlugForwardKeeps(h, mem);
      PlugRest(mem);
    }

    /** The second half of plug_holes: join with the predecessor. */
    method PlugRest(mem: int)
      requires Stored() && AlmostCoalesced(layout, mem) && LowestFree(layout, lfree)
      requires mem in layout.next && mem !in layout.used
      requires layout.next[mem] in layout.next ==> layout.next[mem] in layout.used
      modifies this, ram
      ensures Valid() && layout == PlugBackward(old(layout), mem)
      ensures forall x :: 0 <= x < SIZE && x !in old(layout.next) ==> ram[x] == old(ram[x])
    {
      ghost var h := layout;
      var pmem := ram[mem].prev;
      assert mem > 0 ==> BackLinked(h.next, h.prev, mem);
      if pmem != mem && !ram[pmem].used {
        MergeLowest(h, pmem, lfree);
        lfree := if lfree == mem then pmem else lfree;
        Join(pmem);
      }
      assert layout == PlugBackward(h, mem);
      PlugBackwardKeeps(h, mem);
    }

    /**
      mem_free: `rmem` is None for NULL. It panics on anything but NULL and a block that is handed
      out: an unaligned pointer, one outside the heap, a block that is free.
    */
    method Free(rmem: Option<int>) returns (r: Outcome<()>)
      requires Valid()
      requires rmem.Some? && 0 <= rmem.value < SIZE && rmem.value % 4 == 0 ==> rmem.value - HDR in layout.next
      modifies this, ram
      ensures Valid()
      ensures r.Panicked? <==> rmem.Some? && rmem.value - HDR !in old(layout).used
      ensures r.Panicked? || rmem.None? ==> layout == old(layout)
      ensures r.Returned? && rmem.Some? ==> Step(old(layout), Op.Free(rmem.value - HDR), layout)
      ensures forall a, x :: InPayload(old(layout), a, x) ==> ram[x] == old(ram[x])
    {
      if rmem.None? { return Returned(()); }
      UsedInside(rmem.value);
      if rmem.value % 4 != 0 || rmem.value < 0 || rmem.value >= SIZE { return Panicked; }
      if !ram[rmem.value - HDR].used { return Panicked; }
      FreeBlock(rmem.value);
      r := Returned(());
    }

    /** A block that is handed out starts at an aligned place inside the heap. */
    lemma UsedInside(rmem: int)
      requires Valid()
      ensures rmem - HDR in layout.used ==> rmem % 4 == 0 && 0 <= rmem < SIZE
    {
      if rmem - HDR in layout.used { assert layout.next[rmem - HDR] <= SIZE; }
    }

    /** mem_free of a block that is handed out. */
    method FreeBlock(rmem: int)
      requires Valid() && rmem - HDR in layout.used
      modifies this, ram
      ensures Valid() && layout == Release(old(layout), rmem - HDR)
      ensures forall a, x :: InPayload(old(layout), a, x) ==> ram[x] == old(ram[x])
    {
      var mem := rmem - HDR;
      ghost var h := layout;
      PayloadsApart(h, mem);
      SetUsed(mem, false);
      UnuseLowest(h, mem, lfree);
      if mem < lfree { lfree := mem; }
      PlugHoles(mem);
    }

    /** Move the header of the free block after `a` down to `b`, as mem_realloc does. */
    method MoveDown(a: int, b: int)
      requires Stored() && Tiled(layout.next) && layout.used <= layout.next.Keys
      requires a in layout.next && layout.next[a] in layout.next
      requires a + HDR <= b < layout.next[a]
      modifies ram, this`layout
      ensures Stored() && layout == Insert(Merge(old(layout), a), a, b)
      ensures forall x :: 0 <= x < SIZE && x !in old(layout.next) && !(b <= x < b + HDR) ==> ram[x] == old(ram[x])
    {
      ghost var h := layout;
      var n := ram[a].next;
      var nn := ram[n].next;
      MovedDown(h, a, b);
      assert Leads(h.next, n);
      assert nn != SIZE ==> h.next[nn] > nn >= n + HDR;
      NewHead(b, nn, a, false);
      ram[a] := ram[a].(next := b);
      if nn != SIZE { ram[nn] := ram[nn].(prev := b); }
      layout := Layout((h.next - {n})[a := b][b := nn], h.prev[nn := b][b := a], h.used);
      forall x {:trigger layout.next[x]} | x in layout.next
        ensures 0 <= x < SIZE && x in layout.prev
        ensures ram[x] == Head(layout.next[x], layout.prev[x], x in layout.used)
      {
        if x != b { assert !(b <= x < b + HDR); assert h.next[x] > x; }
      }
    }

    /** mem_realloc of a block: it keeps its place; a request that exceeds the block panics. */
    method ReallocBlock(rmem: int, newsize: u32) returns (r: Outcome<Option<int>>)
      requires Valid() && rmem - HDR in layout.used && Rounded(newsize) <= SIZE
      modifies this, ram
      ensures Valid()
      ensures r == if Rounded(newsize) <= Room(old(layout), rmem - HDR) then Returned(Some(rmem)) else Panicked
      ensures layout == if Rounded(newsize) < Room(old(layout), rmem - HDR)
                        then Shrink(old(layout), rmem - HDR, Rounded(newsize)) else old(layout)
      ensures forall a, x :: InPayload(old(layout), a, x) && (a == rmem - HDR ==> x < rmem + Rounded(newsize)) ==>
                ram[x] == old(ram[x])
    {
      var n := Rounded(newsize);
      RoundingCovers(newsize);
      var a := rmem - HDR;
      ghost var h := layout;
      assert h.next[a] <= SIZE;
      var size := ram[a].next - a - HDR;
      if n > size { return Panicked; }
      if n == size { return Returned(Some(rmem)); }
      ShrinkBlock(a, n);
      r := Returned(Some(rmem));
    }

    /**
      mem_realloc: NULL for more than the whole heap, whatever the pointer. Otherwise it panics
      precisely if the pointer is outside the heap or the request exceeds the block.
    */
    method Realloc(rmem: int, newsize: u32) returns (r: Outcome<Option<int>>)
      requires Valid() && (0 <= rmem < SIZE ==> rmem - HDR in layout.used)
      modifies this, ram
      ensures Valid()
      ensures r.Panicked? <==>
        Rounded(newsize) <= SIZE && (0 <= rmem < SIZE ==> Rounded(newsize) > Room(old(layout), rmem - HDR))
      ensures r.Returned? ==> r.value == if Rounded(newsize) > SIZE then None else Some(rmem)
      ensures r.Panicked? || r.value == None ==> layout == old(layout)
      ensures r.Returned? && 0 <= rmem < SIZE ==> Step(old(layout), Op.Realloc(rmem - HDR, newsize), layout)
      ensures forall a, x :: InPayload(old(layout), a, x) && (a == rmem - HDR ==> x < rmem + Rounded(newsize)) ==>
                ram[x] == old(ram[x])
    {
      var n := AlignSize(newsize);
      if n < MIN { n := MIN; }
      if 0 <= rmem < SIZE { assert layout.next[rmem - HDR] <= SIZE; }
      if n > SIZE { return Returned(None); }
      if rmem < 0 || rmem >= SIZE { return Panicked; }
      r := ReallocBlock(rmem, newsize);
    }

    /** mem_realloc when the next block is free: that block grows downwards. */
    method GiveToNext(a: int, b: int)
      requires Valid() && a in layout.used && layout.next[a] in layout.next && layout.next[a] !in layout.used
      requires a + HDR <= b < layout.next[a]
      modifies this, ram
      ensures Stored() && layout == Insert(Merge(old(layout), a), a, b) && LowestFree(layout, lfree)
      ensures forall o, x :: InPayload(old(layout), o, x) && (o == a ==> x < b) ==> ram[x] == old(ram[x])
    {
      ghost var h := layout;
      var n := ram[a].next;
      assert h.next[n] >= n + HDR;
      PayloadsApart(h, a);
      PayloadsApart(h, n);
      assert b !in h.next by { Inside(h.next, a, b); }
      MoveLowest(h, a, b, lfree);
      lfree := if lfree == n then b else lfree;
      MoveDown(a, b);
    }

    /** mem_realloc when the next block is in use: the tail becomes a block of its own. */
    method GiveNew(a: int, b: int)
      requires Valid() && a in layout.used
      requires a + HDR <= b && b + HDR <= layout.next[a]
      modifies this, ram
      ensures Stored() && layout == Insert(old(layout), a, b) && LowestFree(layout, lfree)
      ensures forall o, x :: InPayload(old(layout), o, x) && (o == a ==> x < b) ==> ram[x] == old(ram[x])
    {
      PayloadsApart(layout, a);
      assert b !in layout.next by { Inside(layout.next, a, b); }
      InsertLowest(layout, a, b, lfree);
      if b < lfree { lfree := b; }
      Split(a, b);
    }

    /** The part of mem_realloc that gives the tail of a block back. */
    method ShrinkBlock(a: int, size: int)
      requires Valid() && a in layout.used
      requires MIN <= size < Room(layout, a) && size % 4 == 0
      modifies this, ram
      ensures Valid() && layout == Shrink(old(layout), a, size)
      ensures forall o, x :: InPayload(old(layout), o, x) && (o == a ==> x < a + HDR + size) ==> ram[x] == old(ram[x])
    {
      ghost var h := layout;
      var n := ram[a].next;
      assert Leads(h.next, a);
      assert ram[n].used <==> !(n in h.next && n !in h.used);
      ghost var h' := Shrink(h, a, size);
      if !ram[n].used {
        assert h' == Insert(Merge(h, a), a, a + HDR + size);
        GiveToNext(a, a + HDR + size);
        assert layout == h';
      } else if size + HDR + MIN <= n - a - HDR {
        assert h' == Insert(h, a, a + HDR + size);
        GiveNew(a, a + HDR + size);
        assert layout == h';
      } else {
        assert h' == h;
      }
      assert WellFormed(h') by { ShrinkKeeps(h, a, size); }
    }

    /** A client storing into its own block disturbs neither the list nor any other block. */
    method Store(a: int, x: int, value: int)
      requires Valid() && InPayload(layout, a, x)
      modifies ram
      ensures Valid() && ram[x] == Data(value)
      ensures forall y :: 0 <= y < ram.Length && y != x ==> ram[y] == old(ram[y])
    {
      PayloadsApart(layout, a);
      ram[x] := Data(value);
    }
  }
}
