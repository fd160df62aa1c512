/**
  Page directories and page tables as they lie in physical memory, and the counting of
  references to physical pages. The class in Pmap.dfy updates them in place.
*/
module PageTables {
  import opened Options

  // PDX(UTOP), NPTENTRIES
  const NUSER: int := 955
  const NENTRIES: int := 1024

  /** A word of physical memory: entry `idx` of the page numbered `page`. */
  datatype Loc = Loc(page: int, idx: int)

  /** A present entry: the physical page it names and its permission bits. */
  datatype Entry = Entry(page: int, perm: int)

  /** The words of memory whose present bit is set, whatever the page they lie in is used for. */
  type Memory = map<Loc, Entry>

  /**
    The user part of the tables is well formed: entries of a directory name table pages, every
    table page is named by the one entry `tab` records, and tables name neither tables nor directories.
  */
  ghost predicate Structured(ent: Memory, dirs: set<int>, tab: map<int, Loc>) {
    && (forall l {:trigger ent[l]} :: l in ent ==> 0 <= l.idx < NENTRIES)
    && (forall l {:trigger ent[l]} :: l in ent && l.page in dirs && 0 <= l.idx < NUSER ==>
          ent[l].page in tab && tab[ent[l].page] == l)
    && (forall t {:trigger tab[t]} :: t in tab ==>
          t !in dirs && tab[t] in ent && tab[t].page in dirs && 0 <= tab[t].idx < NUSER && ent[tab[t]].page == t)
    && (forall l {:trigger ent[l]} :: l in ent && l.page in tab ==> ent[l].page !in dirs && ent[l].page !in tab)
  }

  /** The word is an entry of a directory's user part or of a table. */
  predicate Counted(dirs: set<int>, tab: map<int, Loc>, l: Loc) {
    (l.page in dirs && 0 <= l.idx < NUSER) || l.page in tab
  }

  /** The present directory and table entries that name page `p`. */
  ghost function Refs(ent: Memory, dirs: set<int>, tab: map<int, Loc>, p: int): set<Loc> {
    set l | l in ent && Counted(dirs, tab, l) && ent[l].page == p
  }

  /** What check_va2pa and page_lookup read: the entry for page table index `j` of directory index `i`. */
  function Lookup(ent: Memory, d: int, i: int, j: int): Option<Entry> {
    if Loc(d, i) in ent && Loc(ent[Loc(d, i)].page, j) in ent
    then Some(ent[Loc(ent[Loc(d, i)].page, j)]) else None
  }

  /** Memory with every word of page `p` cleared. */
  function Cleared(ent: Memory, p: int): Memory {
    map l | l in ent && l.page != p :: ent[l]
  }

  // ----- the four ways the tables change -----

  lemma AddEntry(ent: Memory, dirs: set<int>, tab: map<int, Loc>, l: Loc, e: Entry)
    requires Structured(ent, dirs, tab) && l.page in tab && l !in ent && 0 <= l.idx < NENTRIES
    requires e.page !in dirs && e.page !in tab
    ensures Structured(ent[l := e], dirs, tab)
    ensures forall p :: p != e.page ==> Refs(ent[l := e], dirs, tab, p) == Refs(ent, dirs, tab, p)
    ensures Refs(ent[l := e], dirs, tab, e.page) == Refs(ent, dirs, tab, e.page) + {l}
    ensures l !in Refs(ent, dirs, tab, e.page)
  {
    assert tab[l.page] in ent;
  }

  lemma DropEntry(ent: Memory, dirs: set<int>, tab: map<int, Loc>, l: Loc)
    requires Structured(ent, dirs, tab) && l.page in tab && l in ent
    ensures Structured(ent - {l}, dirs, tab)
    ensures forall p :: p != ent[l].page ==> Refs(ent - {l}, dirs, tab, p) == Refs(ent, dirs, tab, p)
    ensures Refs(ent - {l}, dirs, tab, ent[l].page) == Refs(ent, dirs, tab, ent[l].page) - {l}
    ensures l in Refs(ent, dirs, tab, ent[l].page)
  {
    assert tab[l.page] in ent;
  }

  /** A cleared page becomes the table for directory entry `l`. */
  lemma AddTable(ent: Memory, dirs: set<int>, tab: map<int, Loc>, l: Loc, t: int, perm: int)
    requires Structured(ent, dirs, tab) && l.page in dirs && 0 <= l.idx < NUSER && l !in ent
    requires t !in dirs && t !in tab && Refs(ent, dirs, tab, t) == {}
    ensures
      var ent', tab' := Cleared(ent, t)[l := Entry(t, perm)], tab[t := l];
      && Structured(ent', dirs, tab')
      && (forall p :: p != t ==> Refs(ent', dirs, tab', p) == Refs(ent, dirs, tab, p))
      && Refs(ent', dirs, tab', t) == {l}
  {
    forall x | x in ent && x.page in tab ensures ent[x].page != t {
      assert x in Refs(ent, dirs, tab, ent[x].page);
    }
  }

  /** An empty table is taken out of its directory. */
  lemma DropTable(ent: Memory, dirs: set<int>, tab: map<int, Loc>, l: Loc, t: int)
    requires Structured(ent, dirs, tab) && t in tab && tab[t] == l
    requires forall x {:trigger ent[x]} :: x in ent ==> x.page != t
    ensures Structured(ent - {l}, dirs, tab - {t})
    ensures forall p :: p != t ==> Refs(ent - {l}, dirs, tab - {t}, p) == Refs(ent, dirs, tab, p)
    ensures Refs(ent, dirs, tab, t) == {l} && Refs(ent - {l}, dirs, tab - {t}, t) == {}
  {
    assert l in Refs(ent, dirs, tab, t);
    forall x | x in Refs(ent, dirs, tab, t) ensures x == l {}
  }

  /** A cleared page becomes a directory. */
  lemma AddDir(ent: Memory, dirs: set<int>, tab: map<int, Loc>, d: int)
    requires Structured(ent, dirs, tab) && d !in dirs && d !in tab && Refs(ent, dirs, tab, d) == {}
    ensures Structured(Cleared(ent, d), dirs + {d}, tab)
    ensures forall p :: Refs(Cleared(ent, d), dirs + {d}, tab, p) == Refs(ent, dirs, tab, p)
  {
    forall x | x in ent && x.page in tab ensures ent[x].page != d {
      assert x in Refs(ent, dirs, tab, ent[x].page);
    }
  }

  /** A directory without user entries goes away. */
  lemma DropDir(ent: Memory, dirs: set<int>, tab: map<int, Loc>, d: int)
    requires Structured(ent, dirs, tab) && d in dirs
    requires forall i :: 0 <= i < NUSER ==> Loc(d, i) !in ent
    ensures Structured(ent, dirs - {d}, tab)
    ensures forall p :: Refs(ent, dirs - {d}, tab, p) == Refs(ent, dirs, tab, p)
  {
    forall l | l in ent && l.page == d ensures !(0 <= l.idx < NUSER) { assert l == Loc(d, l.idx); }
  }

  lemma Elsewhere(ent: Memory, ent': Memory, dirs: set<int>, tab: map<int, Loc>)
    requires Structured(ent, dirs, tab)
    requires forall l {:trigger ent'[l]} :: l in ent' ==> 0 <= l.idx < NENTRIES
    requires forall l :: Counted(dirs, tab, l) ==> (l in ent <==> l in ent')
    requires forall l :: Counted(dirs, tab, l) && l in ent ==> ent'[l] == ent[l]
    ensures Structured(ent', dirs, tab)
    ensures forall p :: Refs(ent', dirs, tab, p) == Refs(ent, dirs, tab, p)
    ensures SameLookups(ent, ent', dirs)
  {
  }

  // ----- the two levels act as one flat map -----

  ghost predicate SameLookups(ent: Memory, ent': Memory, dirs: set<int>) {
    forall d, i, j :: d in dirs && 0 <= i < NUSER ==> Lookup(ent', d, i, j) == Lookup(ent, d, i, j)
  }

  /** `ent'` translates as `ent` does, except that page (i, j) of directory `d` now translates to `e`. */
  ghost predicate LookupSet(ent: Memory, ent': Memory, dirs: set<int>, d: int, i: int, j: int, e: Option<Entry>) {
    forall d', i', j' :: d' in dirs && 0 <= i' < NUSER ==>
      Lookup(ent', d', i', j') == if d' == d && i' == i && j' == j then e else Lookup(ent, d', i', j')
  }

  lemma LookupOfAdd(ent: Memory, dirs: set<int>, tab: map<int, Loc>, d: int, i: int, j: int, e: Entry)
    requires Structured(ent, dirs, tab) && d in dirs && 0 <= i < NUSER && Loc(d, i) in ent
    ensures LookupSet(ent, ent[Loc(ent[Loc(d, i)].page, j) := e], dirs, d, i, j, Some(e))
  {
  }

  lemma LookupOfDrop(ent: Memory, dirs: set<int>, tab: map<int, Loc>, d: int, i: int, j: int)
    requires Structured(ent, dirs, tab) && d in dirs && 0 <= i < NUSER && Loc(d, i) in ent
    ensures LookupSet(ent, ent - {Loc(ent[Loc(d, i)].page, j)}, dirs, d, i, j, None)
  {
  }

  lemma LookupOfTable(ent: Memory, dirs: set<int>, tab: map<int, Loc>, l: Loc, t: int, perm: int)
    requires Structured(ent, dirs, tab) && l.page in dirs && 0 <= l.idx < NUSER && l !in ent
    requires t !in dirs && t !in tab
    ensures SameLookups(ent, Cleared(ent, t)[l := Entry(t, perm)], dirs)
  {
  }

  // ----- reference counts -----

  /**
    The tables together with the page structures' reference counts; `pins` are the references
    that are not table entries, such as an environment's pointer to its directory.
  */
  datatype Paging = Paging(ent: Memory, dirs: set<int>, tab: map<int, Loc>, ref: map<int, int>, pins: multiset<int>) {
    ghost function Names(p: int): set<Loc> {
      Refs(ent, dirs, tab, p)
    }
  }

  ghost predicate CountOk(s: Paging, p: int)
    requires p in s.ref
  {
    s.ref[p] == |s.Names(p)| + s.pins[p]
  }

  /** Counts are exact: a page's count is the number of table entries naming it plus its pins. */
  ghost predicate Exact(s: Paging) {
    && Structured(s.ent, s.dirs, s.tab)
    && (forall p {:trigger CountOk(s, p)} :: p in s.ref ==> CountOk(s, p))
    && (forall l {:trigger s.ent[l]} :: l in s.ent && Counted(s.dirs, s.tab, l) ==> s.ent[l].page in s.ref)
    && (forall d :: d in s.dirs ==> d in s.ref && s.pins[d] == 1)
    && (forall t {:trigger s.tab[t]} :: t in s.tab ==> s.pins[t] == 0)
  }

  /** A page without references is neither a directory nor a table, and no entry names it. */
  lemma Unreferenced(s: Paging, p: int)
    requires Exact(s) && p in s.ref && s.ref[p] == 0
    ensures p !in s.dirs && p !in s.tab && s.Names(p) == {} && s.pins[p] == 0
  {
    assert CountOk(s, p);
    forall t | t in s.tab ensures t != p { assert s.tab[t] in s.Names(t); }
  }

  lemma ExactAddEntry(s: Paging, l: Loc, e: Entry)
    requires Exact(s) && l.page in s.tab && l !in s.ent && 0 <= l.idx < NENTRIES
    requires e.page !in s.dirs && e.page !in s.tab && e.page in s.ref
    ensures Exact(s.(ent := s.ent[l := e], ref := s.ref[e.page := s.ref[e.page] + 1]))
  {
    AddEntry(s.ent, s.dirs, s.tab, l, e);
    var s' := s.(ent := s.ent[l := e], ref := s.ref[e.page := s.ref[e.page] + 1]);
    forall p {:trigger CountOk(s', p)} | p in s'.ref ensures CountOk(s', p) { assert CountOk(s, p); }
  }

  lemma ExactDropEntry(s: Paging, l: Loc)
    requires Exact(s) && l.page in s.tab && l in s.ent
    ensures s.ent[l].page in s.ref && s.ref[s.ent[l].page] > 0
    ensures Exact(s.(ent := s.ent - {l}, ref := s.ref[s.ent[l].page := s.ref[s.ent[l].page] - 1]))
  {
    DropEntry(s.ent, s.dirs, s.tab, l);
    assert CountOk(s, s.ent[l].page);
    var s' := s.(ent := s.ent - {l}, ref := s.ref[s.ent[l].page := s.ref[s.ent[l].page] - 1]);
    forall p {:trigger CountOk(s', p)} | p in s'.ref ensures CountOk(s', p) { assert CountOk(s, p); }
  }

  /** A page nothing refers to becomes a table; no translation changes. */
  lemma ExactAddTable(s: Paging, l: Loc, t: int, perm: int)
    requires Exact(s) && l.page in s.dirs && 0 <= l.idx < NUSER && l !in s.ent
    requires t in s.ref && s.ref[t] == 0
    ensures Exact(s.(ent := Cleared(s.ent, t)[l := Entry(t, perm)], tab := s.tab[t := l], ref := s.ref[t := 1]))
    ensures SameLookups(s.ent, Cleared(s.ent, t)[l := Entry(t, perm)], s.dirs)
  {
    Unreferenced(s, t);
    AddTable(s.ent, s.dirs, s.tab, l, t, perm);
    LookupOfTable(s.ent, s.dirs, s.tab, l, t, perm);
    var s' := s.(ent := Cleared(s.ent, t)[l := Entry(t, perm)], tab := s.tab[t := l], ref := s.ref[t := 1]);
    forall p {:trigger CountOk(s', p)} | p in s'.ref ensures CountOk(s', p) { assert CountOk(s, p); }
  }

  lemma ExactDropTable(s: Paging, l: Loc, t: int)
    requires Exact(s) && t in s.tab && s.tab[t] == l
    requires forall x {:trigger s.ent[x]} :: x in s.ent ==> x.page != t
    ensures t in s.ref && s.ref[t] == 1
    ensures Exact(s.(ent := s.ent - {l}, tab := s.tab - {t}, ref := s.ref[t := 0]))
  {
    DropTable(s.ent, s.dirs, s.tab, l, t);
    assert s.ent[l].page == t && CountOk(s, t);
    var s' := s.(ent := s.ent - {l}, tab := s.tab - {t}, ref := s.ref[t := 0]);
    forall p {:trigger CountOk(s', p)} | p in s'.ref ensures CountOk(s', p) { assert CountOk(s, p); }
  }

  lemma ExactAddDir(s: Paging, d: int)
    requires Exact(s) && d in s.ref && s.ref[d] == 0
    ensures Exact(s.(ent := Cleared(s.ent, d), dirs := s.dirs + {d}, ref := s.ref[d := 1],
                     pins := s.pins + multiset{d}))
  {
    Unreferenced(s, d);
    AddDir(s.ent, s.dirs, s.tab, d);
    var s' := s.(ent := Cleared(s.ent, d), dirs := s.dirs + {d}, ref := s.ref[d := 1], pins := s.pins + multiset{d});
    forall p {:trigger CountOk(s', p)} | p in s'.ref ensures CountOk(s', p) { assert CountOk(s, p); }
  }

  lemma ExactDropDir(s: Paging, d: int)
    requires Exact(s) && d in s.dirs
    requires forall i :: 0 <= i < NUSER ==> Loc(d, i) !in s.ent
    ensures d in s.ref && s.ref[d] == 1
    ensures Exact(s.(dirs := s.dirs - {d}, ref := s.ref[d := 0], pins := s.pins - multiset{d}))
  {
    DropDir(s.ent, s.dirs, s.tab, d);
    assert s.Names(d) == {} && CountOk(s, d);
    var s' := s.(dirs := s.dirs - {d}, ref := s.ref[d := 0], pins := s.pins - multiset{d});
    forall p {:trigger CountOk(s', p)} | p in s'.ref ensures CountOk(s', p) { assert CountOk(s, p); }
  }

  /** Words outside directories and tables do not matter: user memory cannot reach the tables. */
  lemma ExactElsewhere(s: Paging, ent': Memory)
    requires Exact(s)
    requires forall l {:trigger ent'[l]} :: l in ent' ==> 0 <= l.idx < NENTRIES
    requires forall l :: Counted(s.dirs, s.tab, l) ==> (l in s.ent <==> l in ent')
    requires forall l :: Counted(s.dirs, s.tab, l) && l in s.ent ==> ent'[l] == s.ent[l]
    ensures Exact(s.(ent := ent')) && SameLookups(s.ent, ent', s.dirs)
  {
    Elsewhere(s.ent, ent', s.dirs, s.tab);
    var s' := s.(ent := ent');
    forall p {:trigger CountOk(s', p)} | p in s'.ref ensures CountOk(s', p) { assert CountOk(s, p); }
  }

  // ----- tearing an address space down -----

  /** The word belongs to directory `d` or to one of its tables. */
  predicate Owned(tab: map<int, Loc>, d: int, l: Loc) {
    (l.page == d && 0 <= l.idx < NUSER) || (l.page in tab && tab[l.page].page == d)
  }

  /** `s` is `s0` with some of the words and tables of directory `d` taken out, and nothing else changed. */
  ghost predicate Pruned(s0: Paging, s: Paging, d: int) {
    && (forall l {:trigger s.ent[l]} :: l in s.ent ==> l in s0.ent && s.ent[l] == s0.ent[l])
    && (forall l {:trigger s0.ent[l]} :: l in s0.ent && !Owned(s0.tab, d, l) ==> l in s.ent)
    && (forall t {:trigger s.tab[t]} :: t in s.tab ==> t in s0.tab && s.tab[t] == s0.tab[t])
    && (forall t {:trigger s0.tab[t]} :: t in s0.tab && s0.tab[t].page != d ==> t in s.tab)
    && s.ref.Keys == s0.ref.Keys
  }

  /** Other directories translate as before. */
  lemma PrunedLookups(s0: Paging, s: Paging, d: int)
    requires Structured(s0.ent, s0.dirs, s0.tab) && Pruned(s0, s, d) && d in s0.dirs
    ensures SameLookups(s0.ent, s.ent, s0.dirs - {d})
  {
    forall d', i, j | d' in s0.dirs - {d} && 0 <= i < NUSER
      ensures Lookup(s.ent, d', i, j) == Lookup(s0.ent, d', i, j)
    {
      if Loc(d', i) in s0.ent {
        var t := s0.ent[Loc(d', i)].page;
        assert !Owned(s0.tab, d, Loc(d', i)) && !Owned(s0.tab, d, Loc(t, j));
        if Loc(t, j) in s0.ent { assert s0.ent[Loc(t, j)] == s0.ent[Loc(t, j)]; }
      }
    }
  }

  /** The mappings of page `p` in the address space of `d`, and the directory entries naming it. */
  ghost function OwnRefs(s: Paging, d: int, p: int): set<Loc> {
    set l | l in s.ent && Owned(s.tab, d, l) && s.ent[l].page == p
  }

  lemma PrunedDrop(s0: Paging, s: Paging, s': Paging, d: int, l: Loc)
    requires Pruned(s0, s, d) && Owned(s0.tab, d, l)
    requires s'.ent == s.ent - {l} && s'.tab == s.tab && s'.ref.Keys == s.ref.Keys
    ensures Pruned(s0, s', d)
  {
  }

  /** Every reference is either still there or was held by `d`. */
  lemma TeardownSplits(s0: Paging, s: Paging, d: int, p: int)
    requires Exact(s0) && Exact(s) && Pruned(s0, s, d) && d in s0.dirs && s.dirs == s0.dirs - {d}
    requires forall t {:trigger s.tab[t]} :: t in s.tab ==> s.tab[t].page != d
    ensures s0.Names(p) == s.Names(p) + OwnRefs(s0, d, p)
    ensures s.Names(p) !! OwnRefs(s0, d, p)
  {
    forall l | l in s0.Names(p) ensures l in s.Names(p) + OwnRefs(s0, d, p) {
      assert s0.ent[l].page == p;
    }
    forall l | l in s.Names(p) ensures l in s0.Names(p) && l !in OwnRefs(s0, d, p) {
      assert s.ent[l].page == p;
    }
    forall l | l in OwnRefs(s0, d, p) ensures l in s0.Names(p) {}
  }

  /** After `d` is torn down other directories translate as before, and each page's count is lower by what `d` held. */
  ghost predicate TornDown(s0: Paging, s: Paging, d: int) {
    && SameLookups(s0.ent, s.ent, s.dirs)
    && forall p {:trigger s.ref[p]} :: p in s0.ref ==>
         p in s.ref && s.ref[p] == s0.ref[p] - |OwnRefs(s0, d, p)| - if p == d then 1 else 0
  }

  lemma Teardown(s0: Paging, s: Paging, d: int)
    requires Exact(s0) && Exact(s) && Pruned(s0, s, d) && d in s0.dirs
    requires s.dirs == s0.dirs - {d} && s.pins == s0.pins - multiset{d}
    ensures TornDown(s0, s, d)
  {
    forall t {:trigger s.tab[t]} | t in s.tab ensures s.tab[t].page != d {}
    PrunedLookups(s0, s, d);
    forall p {:trigger s.ref[p]} | p in s0.ref
      ensures p in s.ref && s.ref[p] == s0.ref[p] - |OwnRefs(s0, d, p)| - if p == d then 1 else 0
    {
      TeardownSplits(s0, s, d, p);
      var a, b := s.Names(p), OwnRefs(s0, d, p);
      assert |a + b| == |a| + |b|;
      assert CountOk(s0, p) && CountOk(s, p);
    }
  }
}
