/**
  The kernel's physical page allocator and page tables: reference counts, the free list
  threaded through the page structures, and the operations that map and unmap user pages.
*/
module Pmap {
  import opened Options
  import opened PageTables

  const NULL: int := -1

  /** The list starting at `head` and threaded through `link` is `free`. */
  ghost predicate ListAt(head: int, link: map<int, int>, free: seq<int>)
    decreases |free|
  {
    if free == [] then head == NULL
    else head == free[0] && head != NULL && head in link && ListAt(link[head], link, free[1..])
  }

  ghost predicate NoDup(s: seq<int>) {
    s == [] || (s[0] !in s[1..] && NoDup(s[1..]))
  }

  lemma {:induction false} ListFrame(head: int, link: map<int, int>, free: seq<int>, p: int, v: int)
    requires ListAt(head, link, free) && p !in free
    ensures ListAt(head, link[p := v], free)
    decreases |free|
  {
    if free != [] { ListFrame(link[head], link, free[1..], p, v); }
  }

  /** Page 0, the start-up code of the other processors, and the I/O hole up to the kernel's end. */
  predicate Reserved(i: int, basemem: int, kernend: int) {
    i == 0 || i == 7 || basemem <= i < kernend
  }

  class Kernel {
    var ent: Memory
    var pp_ref: map<int, int>
    var pp_link: map<int, int>
    var page_free_list: int

    ghost var free: seq<int>        // the free list as a sequence
    ghost var held: set<int>        // pages page_alloc has returned that nothing refers to yet
    ghost var dirs: set<int>        // page directories of the environments
    ghost var tab: map<int, Loc>    // page tables, with the directory entry that names each
    ghost var pins: multiset<int>   // references that are not table entries: env_pgdir and the kernel's own

    /** The tables and counts as a value. */
    ghost function State(): Paging
      reads this
    {
      Paging(ent, dirs, tab, pp_ref, pins)
    }

    ghost predicate ListOk()
      reads this
    {
      && ListAt(page_free_list, pp_link, free) && NoDup(free)
      && forall p :: p in free ==> p in pp_ref && p != NULL
    }

    /** A page is on the free list exactly when nothing refers to it and nobody holds it. */
    ghost predicate Conserved()
      reads this
    {
      && NULL !in pp_ref
      && (forall p {:trigger pp_ref[p]} :: p in pp_ref ==> (p in free <==> pp_ref[p] == 0 && p !in held))
      && (forall p :: p in held ==> p in pp_ref && pp_ref[p] == 0)
    }

    ghost predicate Valid()
      reads this
    {
      Exact(State()) && ListOk() && Conserved()
    }

    /** page_init: every page is on the free list except the reserved ones, which stay pinned for good. */
    constructor PageInit(npages: int, basemem: int, kernend: int)
      requires 1 <= basemem <= kernend <= npages
      ensures Valid() && dirs == {} && held == {}
      ensures forall i :: i in pp_ref <==> 0 <= i < npages
      ensures forall i :: 0 <= i < npages ==> (i in free <==> !Reserved(i, basemem, kernend))
    {
      ent, pp_ref, pp_link, page_free_list := map[], map[], map[], NULL;
      free, held, dirs, tab, pins := [], {}, {}, map[], multiset{};
      new;
      for i := 0 to npages
        invariant Valid() && Blank()
        invariant forall k :: k in pp_ref <==> 0 <= k < i
        invariant forall k :: k >= i ==> pins[k] == 0
        invariant forall k :: 0 <= k < i ==> (k in free <==> !Reserved(k, basemem, kernend))
      {
        AddPage(i, Reserved(i, basemem, kernend));
      }
    }

    ghost predicate Blank()
      reads this
    {
      ent == map[] && dirs == {} && tab == map[] && held == {}
    }

    /** One round of page_init's loops. */
    method AddPage(i: int, reserved: bool)
      requires Valid() && Blank() && i !in pp_ref && i >= 0 && pins[i] == 0
      modifies `pp_ref, `pp_link, `page_free_list, `free, `pins
      ensures Valid() && pp_ref == old(pp_ref)[i := if reserved then 1 else 0]
      ensures pins == old(pins) + (if reserved then multiset{i} else multiset{})
      ensures forall k :: k in free <==> k in old(free) || (k == i && !reserved)
    {
      ghost var s := State();
      if reserved {
        pp_ref := pp_ref[i := 1];
        pins := pins + multiset{i};
      } else {
        pp_ref := pp_ref[i := 0];
        Push(i);
      }
      forall p {:trigger CountOk(State(), p)} | p in pp_ref ensures CountOk(State(), p) {
        assert p in s.ref ==> CountOk(s, p);
        assert State().Names(p) == {} && s.Names(p) == {};
      }
    }

    /** Take the first page off the free list. */
    method Pop() returns (p: int)
      requires ListOk() && page_free_list != NULL
      modifies `page_free_list, `free
      ensures ListOk() && old(free) == [p] + free && p !in free && p in pp_ref
    {
      p := page_free_list;
      page_free_list := pp_link[p];
      free := free[1..];
    }

    /** page_free: put a page on the front of the free list. */
    method Push(p: int)
      requires ListOk() && p !in free && p in pp_ref && p != NULL
      modifies `pp_link, `page_free_list, `free
      ensures ListOk() && free == [p] + old(free) && page_free_list == p
    {
      ListFrame(page_free_list, pp_link, free, p, page_free_list);
      pp_link := pp_link[p := page_free_list];
      page_free_list := p;
      free := [p] + free;
    }

    /** page_alloc; None when the free list is empty. */
    method PageAlloc(zero: bool) returns (r: Option<int>)
      requires Valid()
      modifies `ent, `pp_ref, `page_free_list, `free, `held
      ensures Valid()
      ensures r.None? ==> old(free) == [] && unchanged(this)
      ensures r.Some? ==> old(free) == [r.value] + free && held == old(held) + {r.value} && r.value !in old(held)
      ensures r.Some? ==> pp_ref == old(pp_ref) && ent == if zero then Cleared(old(ent), r.value) else old(ent)
      ensures r.Some? ==> r.value in pp_ref && pp_ref[r.value] == 0
      ensures SameLookups(old(ent), ent, dirs)
    {
      if page_free_list == NULL { return None; }
      ghost var s := State();
      var p := Pop();
      assert pp_ref[p] == 0;
      if zero {
        Unreferenced(s, p);
        ExactElsewhere(s, Cleared(ent, p));
        ent := Cleared(ent, p);
      }
      pp_ref := pp_ref[p := 0];
      assert pp_ref == s.ref;
      held := held + {p};
      r := Some(p);
    }

    /** page_free, for a page that was allocated and never referred to. */
    method PageFree(p: int)
      requires Valid() && p in held
      modifies `pp_link, `page_free_list, `free, `held
      ensures Valid() && free == [p] + old(free) && held == old(held) - {p}
    {
      assert pp_ref[p] == 0;
      Push(p);
      held := held - {p};
    }

    /** page_decref */
    method PageDecref(p: int)
      requires ListOk() && p in pp_ref && pp_ref[p] > 0 && p !in free && p != NULL
      modifies `pp_ref, `pp_link, `page_free_list, `free
      ensures ListOk() && pp_ref == old(pp_ref)[p := old(pp_ref)[p] - 1]
      ensures if old(pp_ref)[p] == 1 then free == [p] + old(free) && page_free_list == p
              else free == old(free) && page_free_list == old(page_free_list)
    {
      pp_ref := pp_ref[p := pp_ref[p] - 1];
      if pp_ref[p] == 0 { Push(p); }
    }

    /** pgdir_walk: the page table for directory entry `i`, made when it is missing and `create` is set. */
    method PgdirWalk(d: int, i: int, create: bool) returns (t: Option<int>)
      requires Valid() && d in dirs && 0 <= i < NUSER
      modifies `ent, `pp_ref, `page_free_list, `free, `held, `tab
      ensures Valid() && SameLookups(old(ent), ent, dirs) && held == old(held)
      ensures t.None? <==> old(Loc(d, i) !in ent) && (!create || old(free) == [])
      ensures t.None? || old(Loc(d, i) in ent) ==> unchanged(this)
      ensures t.Some? ==> Loc(d, i) in ent && t.value == ent[Loc(d, i)].page
      ensures t.Some? && old(Loc(d, i) !in ent) ==>
                && old(free) == [t.value] + free
                && pp_ref == old(pp_ref)[t.value := 1] && tab == old(tab)[t.value := Loc(d, i)]
                && ent == Cleared(old(ent), t.value)[Loc(d, i) := Entry(t.value, 7)]
    {
      if Loc(d, i) in ent { return Some(ent[Loc(d, i)].page); }
      if !create { return None; }
      var r := PageAlloc(true);
      if r.None? { return None; }
      LinkTable(d, i, r.value);
      t := Some(r.value);
    }

    /** The part of pgdir_walk that enters a newly allocated, cleared page into the directory. */
    method LinkTable(d: int, i: int, p: int)
      requires Valid() && d in dirs && 0 <= i < NUSER && Loc(d, i) !in ent
      requires p in held && Cleared(ent, p) == ent
      modifies `ent, `pp_ref, `held, `tab
      ensures Valid() && SameLookups(old(ent), ent, dirs)
      ensures held == old(held) - {p} && ent == old(ent)[Loc(d, i) := Entry(p, 7)]
      ensures pp_ref == old(pp_ref)[p := 1] && tab == old(tab)[p := Loc(d, i)]
    {
      ghost var s := State();
      assert pp_ref[p] == 0;
      pp_ref := pp_ref[p := pp_ref[p] + 1];
      ent := ent[Loc(d, i) := Entry(p, 7)];
      tab := tab[p := Loc(d, i)];
      held := held - {p};
      ExactAddTable(s, Loc(d, i), p, 7);
    }

    /** page_lookup */
    method PageLookup(d: int, i: int, j: int) returns (r: Option<Entry>)
      requires Valid() && d in dirs && 0 <= i < NUSER
      ensures r == Lookup(ent, d, i, j)
    {
      if Loc(d, i) !in ent { return None; }
      var t := ent[Loc(d, i)].page;
      r := if Loc(t, j) in ent then Some(ent[Loc(t, j)]) else None;
    }

    /** page_remove */
    method PageRemove(d: int, i: int, j: int)
      requires Valid() && d in dirs && 0 <= i < NUSER
      modifies `ent, `pp_ref, `pp_link, `page_free_list, `free
      ensures Valid() && LookupSet(old(ent), ent, dirs, d, i, j, None)
      ensures old(Lookup(ent, d, i, j)).None? ==> unchanged(this)
      ensures old(Lookup(ent, d, i, j)).Some? ==>
                var q := old(Lookup(ent, d, i, j)).value.page;
                && ent == old(ent) - {Loc(old(ent)[Loc(d, i)].page, j)}
                && q in old(pp_ref) && pp_ref == old(pp_ref)[q := old(pp_ref)[q] - 1]
                && (if old(pp_ref)[q] == 1 then free == [q] + old(free) && page_free_list == q else free == old(free))
    {
      ghost var s := State();
      var r := PageLookup(d, i, j);
      if r.None? { return; }
      var q, l := r.value.page, Loc(ent[Loc(d, i)].page, j);
      assert l.page in tab;
      ExactDropEntry(s, l);
      LookupOfDrop(ent, dirs, tab, d, i, j);
      assert pp_ref[q] > 0;
      PageDecref(q);
      ent := ent - {l};
    }

    /** The last part of page_insert: write the entry and count it. */
    method SetEntry(l: Loc, p: int, perm: int)
      requires Valid() && l.page in tab && l !in ent && 0 <= l.idx < NENTRIES
      requires p in pp_ref && p !in dirs && p !in tab && p !in free
      modifies `ent, `pp_ref, `held
      ensures Valid() && ent == old(ent)[l := Entry(p, perm)] && held == old(held) - {p}
      ensures pp_ref == old(pp_ref)[p := old(pp_ref)[p] + 1]
    {
      ExactAddEntry(State(), l, Entry(p, perm));
      assert CountOk(State(), p);
      ent := ent[l := Entry(p, perm)];
      pp_ref := pp_ref[p := pp_ref[p] + 1];
      held := held - {p};
    }

    /** The part of page_insert for an existing table: unmap what is there, and take `p` back if that freed it. */
    method MakeRoom(d: int, i: int, j: int, p: int)
      requires Valid() && d in dirs && 0 <= i < NUSER && Loc(d, i) in ent
      requires p in pp_ref && p !in free
      modifies `ent, `pp_ref, `pp_link, `page_free_list, `free, `held
      ensures Valid() && LookupSet(old(ent), ent, dirs, d, i, j, None) && p in pp_ref && p !in free
      ensures Loc(d, i) in ent && ent[Loc(d, i)] == old(ent)[Loc(d, i)] && held - {p} == old(held) - {p}
      ensures Loc(ent[Loc(d, i)].page, j) !in ent && ent == old(ent) - {Loc(old(ent)[Loc(d, i)].page, j)}
    {
      if Loc(ent[Loc(d, i)].page, j) in ent { PageRemove(d, i, j); }
      if p == page_free_list {
        page_free_list := pp_link[page_free_list];
        free := free[1..];
        held := held + {p};
      }
    }

    /** page_insert; false is -E_NO_MEM. */
    method PageInsert(d: int, i: int, j: int, p: int, perm: int) returns (ok: bool)
      requires Valid() && d in dirs && 0 <= i < NUSER && 0 <= j < NENTRIES
      requires p in pp_ref && p !in dirs && p !in tab && p !in free
      modifies this
      ensures Valid() && dirs == old(dirs) && pins == old(pins)
      ensures ok <==> old(Loc(d, i) in ent || free != [])
      ensures !ok ==> unchanged(this)
      ensures ok ==> LookupSet(old(ent), ent, dirs, d, i, j, Some(Entry(p, perm))) && held == old(held) - {p}
      ensures forall k {:trigger Loc(p, k)} :: Loc(p, k) in ent <==> Loc(p, k) in old(ent)
    {
      var t := PgdirWalk(d, i, false);
      if t.None? {
        t := PgdirWalk(d, i, true);
        if t.None? { return false; }
      } else {
        MakeRoom(d, i, j, p);
      }
      LookupOfAdd(ent, dirs, tab, d, i, j, Entry(p, perm));
      SetEntry(Loc(t.value, j), p, perm);
      ok := true;
    }

    /** env_setup_vm: a cleared page becomes the directory of a new environment. */
    method EnvSetupVm() returns (r: Option<int>)
      requires Valid()
      modifies `ent, `pp_ref, `page_free_list, `free, `held, `dirs, `pins
      ensures Valid() && held == old(held)
      ensures r.None? <==> old(free) == []
      ensures r.None? ==> unchanged(this)
      ensures r.Some? ==>
        dirs == old(dirs) + {r.value} && r.value !in old(dirs) && pins == old(pins) + multiset{r.value}
      ensures r.Some? ==> forall i, j :: 0 <= i < NUSER ==> Lookup(ent, r.value, i, j).None?
      ensures SameLookups(old(ent), ent, old(dirs))
    {
      r := PageAlloc(true);
      if r.None? { return; }
      NewDir(r.value);
    }

    /** The part of env_setup_vm that makes a cleared page a directory. */
    method NewDir(p: int)
      requires Valid() && p in held && Cleared(ent, p) == ent
      modifies `pp_ref, `held, `dirs, `pins
      ensures Valid() && held == old(held) - {p}
      ensures dirs == old(dirs) + {p} && p !in old(dirs) && pins == old(pins) + multiset{p}
    {
      assert p in pp_ref && pp_ref[p] == 0;
      ExactAddDir(State(), p);
      Unreferenced(State(), p);
      pp_ref := pp_ref[p := pp_ref[p] + 1];
      dirs := dirs + {p};
      pins := pins + multiset{p};
      held := held - {p};
    }

    /** One round of env_free's inner loop, `s` being the state before env_free. */
    method RemoveOwn(d: int, i: int, j: int, ghost s: Paging)
      requires Valid() && d in dirs && 0 <= i < NUSER && Loc(d, i) in ent && Pruned(s, State(), d)
      modifies `ent, `pp_ref, `pp_link, `page_free_list, `free
      ensures Valid() && Pruned(s, State(), d)
      ensures ent == old(ent) - {Loc(old(ent)[Loc(d, i)].page, j)}
    {
      ghost var before, l := State(), Loc(ent[Loc(d, i)].page, j);
      assert l.page in tab && tab[l.page] == Loc(d, i);
      assert Owned(s.tab, d, l);
      if Loc(ent[Loc(d, i)].page, j) in ent { PageRemove(d, i, j); }
      assert ent == before.ent - {l};
      PrunedDrop(s, before, State(), d, l);
    }

    /** The inner loop of env_free: unmap every page of one table. */
    method EmptyTable(d: int, i: int, ghost s: Paging)
      requires Valid() && d in dirs && 0 <= i < NUSER && Loc(d, i) in ent && Pruned(s, State(), d)
      modifies `ent, `pp_ref, `pp_link, `page_free_list, `free
      ensures Valid() && Pruned(s, State(), d)
      ensures forall l {:trigger ent[l]} :: l in ent ==> l.page != old(ent)[Loc(d, i)].page
      ensures forall k :: Loc(d, k) in ent <==> Loc(d, k) in old(ent)
    {
      ghost var e := ent;
      var t := ent[Loc(d, i)].page;
      assert t in tab && t != d;
      for j := 0 to NENTRIES
        invariant Valid() && Pruned(s, State(), d)
        invariant forall k :: Loc(d, k) in ent <==> Loc(d, k) in e
        invariant forall k :: 0 <= k < j ==> Loc(t, k) !in ent
      {
        assert ent[Loc(d, i)].page == t;
        RemoveOwn(d, i, j, s);
      }
      forall l {:trigger ent[l]} | l in ent ensures l.page != t { assert l == Loc(l.page, l.idx); }
    }

    /** The rest of a round of env_free's outer loop: free the table page itself. */
    method DropOwnTable(d: int, i: int, ghost s: Paging)
      requires Valid() && d in dirs && 0 <= i < NUSER && Loc(d, i) in ent && Pruned(s, State(), d)
      requires forall l {:trigger ent[l]} :: l in ent ==> l.page != ent[Loc(d, i)].page
      modifies `ent, `pp_ref, `pp_link, `page_free_list, `free, `tab
      ensures Valid() && Pruned(s, State(), d)
      ensures ent == old(ent) - {Loc(d, i)}
    {
      var t := ent[Loc(d, i)].page;
      assert t in tab && tab[t] == Loc(d, i);
      ExactDropTable(State(), Loc(d, i), t);
      ent := ent - {Loc(d, i)};
      PageDecref(t);
      tab := tab - {t};
    }

    /** The end of env_free: free the directory itself. */
    method DropOwnDir(d: int)
      requires Valid() && d in dirs && forall k :: 0 <= k < NUSER ==> Loc(d, k) !in ent
      modifies `pp_ref, `pp_link, `page_free_list, `free, `dirs, `pins
      ensures Valid() && dirs == old(dirs) - {d} && pins == old(pins) - multiset{d}
      ensures pp_ref.Keys == old(pp_ref).Keys
    {
      ExactDropDir(State(), d);
      PageDecref(d);
      dirs := dirs - {d};
      pins := pins - multiset{d};
    }

    /** One round of env_free's outer loop. */
    method DropOwn(d: int, i: int, ghost s: Paging)
      requires Valid() && d in dirs && 0 <= i < NUSER && Loc(d, i) in ent && Pruned(s, State(), d)
      modifies `ent, `pp_ref, `pp_link, `page_free_list, `free, `tab
      ensures Valid() && Pruned(s, State(), d)
      ensures forall k :: Loc(d, k) in ent <==> k != i && Loc(d, k) in old(ent)
    {
      EmptyTable(d, i, s);
      DropOwnTable(d, i, s);
    }

    /** The loops of env_free: unmap every user page and free every table. */
    method EmptyDir(d: int)
      requires Valid() && d in dirs
      modifies `ent, `pp_ref, `pp_link, `page_free_list, `free, `tab
      ensures Valid() && Pruned(old(State()), State(), d) && forall k :: 0 <= k < NUSER ==> Loc(d, k) !in ent
    {
      ghost var s := State();
      for i := 0 to NUSER
        invariant Valid() && Pruned(s, State(), d)
        invariant forall k :: 0 <= k < i ==> Loc(d, k) !in ent
      {
        if Loc(d, i) in ent { DropOwn(d, i, s); }
      }
    }

    /** env_free, for the environment whose directory is `d`. */
    method EnvFree(d: int)
      requires Valid() && d in dirs
      modifies `ent, `pp_ref, `pp_link, `page_free_list, `free, `tab, `dirs, `pins
      ensures Valid() && dirs == old(dirs) - {d} && pins == old(pins) - multiset{d}
      ensures Pruned(old(State()), State(), d) && TornDown(old(State()), State(), d)
    {
      ghost var s := State();
      EmptyDir(d);
      DropOwnDir(d);
      Teardown(s, State(), d);
    }

    /** A user store into a page of its own: arbitrary words there leave every translation and count alone. */
    method UserStore(p: int, idx: int, word: Option<Entry>)
      requires Valid() && p in pp_ref && p !in dirs && p !in tab && 0 <= idx < NENTRIES
      modifies `ent
      ensures Valid() && SameLookups(old(ent), ent, dirs)
    {
      var ent' := if word.Some? then ent[Loc(p, idx) := word.value] else ent - {Loc(p, idx)};
      ExactElsewhere(State(), ent');
      ent := ent';
    }
  }
}
