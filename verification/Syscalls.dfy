/**
  The page system calls: argument checks around the page operations of the kernel.
  An environment argument is the directory envid2env finds, or None when the id is
  bad or the caller may not touch that environment.
*/
module Syscalls {
  import opened Options
  import opened PageTables
  import opened Pmap

  const UTOP: int := 0xeec00000
  const PGSIZE: int := 4096

  datatype Status = Ok | BadEnv | Inval | NoMem

  predicate VaOk(va: int) {
    0 <= va < UTOP && va % PGSIZE == 0
  }

  /** PTE_U and PTE_P are set, and no bit outside PTE_SYSCALL (0xE07) is. */
  predicate PermOk(perm: int) {
    0 <= perm < 4096 && perm % 2 == 1 && perm / 4 % 2 == 1 && perm / 8 % 64 == 0
  }

  predicate Writable(perm: int) {
    perm / 2 % 2 == 1
  }

  function Pdx(va: int): int { va / PGSIZE / NENTRIES }
  function Ptx(va: int): int { va / PGSIZE % NENTRIES }

  lemma Indices(va: int)
    requires VaOk(va)
    ensures 0 <= Pdx(va) < NUSER && 0 <= Ptx(va) < NENTRIES
  {
    assert va / PGSIZE < UTOP / PGSIZE;
    assert UTOP / PGSIZE == NUSER * NENTRIES;
  }

  /** Page (va) of directory `d` now translates to `e`, and every other page of every directory as before. */
  ghost predicate Remapped(before: Memory, after: Memory, dirs: set<int>, d: int, va: int, e: Option<Entry>) {
    LookupSet(before, after, dirs, d, Pdx(va), Ptx(va), e)
  }

  /** sys_page_alloc */
  method SysPageAlloc(k: Kernel, env: Option<int>, va: int, perm: int) returns (r: Status)
    requires k.Valid() && (env.Some? ==> env.value in k.dirs)
    modifies k
    ensures k.Valid() && k.dirs == old(k.dirs)
    ensures r == if !(VaOk(va) && PermOk(perm)) then Inval
                 else if old(k.free) == [] then NoMem
                 else if env.None? then BadEnv
                 else if |old(k.free)| > 1 || Loc(env.value, Pdx(va)) in old(k.ent) then Ok else NoMem
    ensures r.Ok? ==> Remapped(old(k.ent), k.ent, k.dirs, env.value, va, Some(Entry(old(k.free)[0], perm)))
    ensures r.Ok? ==> forall i {:trigger Loc(old(k.free)[0], i)} :: Loc(old(k.free)[0], i) !in k.ent
    ensures !r.Ok? ==> SameLookups(old(k.ent), k.ent, k.dirs)
    ensures k.held == old(k.held) <==> !(VaOk(va) && PermOk(perm) && old(k.free) != [] && env.None?)
    ensures !r.Ok? && env.Some? ==> k.free == old(k.free)
  {
    if !VaOk(va) { return Inval; }
    if !PermOk(perm) { return Inval; }
    var p := k.PageAlloc(true);
    if p.None? { return NoMem; }
    if env.None? { return BadEnv; }
    Indices(va);
    Unreferenced(k.State(), p.value);
    var ok := k.PageInsert(env.value, Pdx(va), Ptx(va), p.value, perm);
    if !ok {
      k.PageFree(p.value);
      return NoMem;
    }
    r := Ok;
  }

  /** A call for an environment that does not exist costs a page: the page at address 0, present and user accessible. */
  method BadEnvLeaks(k: Kernel) returns (r: Status)
    requires k.Valid() && k.free != []
    modifies k
    ensures k.Valid() && r == BadEnv && k.held != old(k.held)
  {
    r := SysPageAlloc(k, None, 0, 5);
  }

  /** The source page of sys_page_map: what page_lookup finds and the checks let pass. */
  ghost predicate MayMap(ent: Memory, src: Option<int>, srcva: int, dst: Option<int>, dstva: int, perm: int) {
    && src.Some? && dst.Some? && VaOk(srcva) && VaOk(dstva) && PermOk(perm)
    && Lookup(ent, src.value, Pdx(srcva), Ptx(srcva)).Some?
    && (Writable(perm) ==> Writable(Lookup(ent, src.value, Pdx(srcva), Ptx(srcva)).value.perm))
  }

  /** sys_page_map */
  method SysPageMap(k: Kernel, src: Option<int>, srcva: int, dst: Option<int>, dstva: int, perm: int)
    returns (r: Status)
    requires k.Valid() && (src.Some? ==> src.value in k.dirs) && (dst.Some? ==> dst.value in k.dirs)
    modifies k
    ensures k.Valid() && k.dirs == old(k.dirs) && k.held == old(k.held)
    ensures r == if src.None? || dst.None? then BadEnv
                 else if !MayMap(old(k.ent), src, srcva, dst, dstva, perm) then Inval
                 else if old(k.free) != [] || Loc(dst.value, Pdx(dstva)) in old(k.ent) then Ok else NoMem
    ensures r.Ok? ==>
      var page := Lookup(old(k.ent), src.value, Pdx(srcva), Ptx(srcva)).value.page;
      Remapped(old(k.ent), k.ent, k.dirs, dst.value, dstva, Some(Entry(page, perm)))
    ensures !r.Ok? ==> unchanged(k)
  {
    if src.None? || dst.None? { return BadEnv; }
    if !VaOk(srcva) || !VaOk(dstva) { return Inval; }
    Indices(srcva);
    Indices(dstva);
    var pte := k.PageLookup(src.value, Pdx(srcva), Ptx(srcva));
    if pte.None? { return Inval; }
    if Writable(perm) && !Writable(pte.value.perm) { return Inval; }
    if !PermOk(perm) { return Inval; }
    MappedPage(k, src.value, Pdx(srcva), Ptx(srcva));
    var ok := k.PageInsert(dst.value, Pdx(dstva), Ptx(dstva), pte.value.page, perm);
    r := if ok then Ok else NoMem;
  }

  /** A mapped page is a user page that is in use. */
  lemma MappedPage(k: Kernel, d: int, i: int, j: int)
    requires k.Valid() && d in k.dirs && 0 <= i < NUSER && Lookup(k.ent, d, i, j).Some?
    ensures
      var p := Lookup(k.ent, d, i, j).value.page;
      p in k.pp_ref && k.pp_ref[p] > 0 && p !in k.dirs && p !in k.tab && p !in k.free && p !in k.held
  {
    var l := Loc(k.ent[Loc(d, i)].page, j);
    assert k.ent[Loc(d, i)].page in k.tab;
    var p := k.ent[l].page;
    assert l in k.State().Names(p);
    assert CountOk(k.State(), p);
  }

  /** sys_page_unmap */
  method SysPageUnmap(k: Kernel, env: Option<int>, va: int) returns (r: Status)
    requires k.Valid() && (env.Some? ==> env.value in k.dirs)
    modifies k
    ensures k.Valid() && k.dirs == old(k.dirs) && k.held == old(k.held)
    ensures r == if env.None? then BadEnv else if !VaOk(va) then Inval else Ok
    ensures r.Ok? ==> Remapped(old(k.ent), k.ent, k.dirs, env.value, va, None)
    ensures !r.Ok? ==> unchanged(k)
  {
    if env.None? { return BadEnv; }
    if !VaOk(va) { return Inval; }
    Indices(va);
    k.PageRemove(env.value, Pdx(va), Ptx(va));
    r := Ok;
  }
}
