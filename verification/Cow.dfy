/**
  User-level fork with copy-on-write as an interleaved protocol. Every system call
  and every store of every environment is a step of its own, so any number of forks
  and page faults may be in progress at the same time.
*/
module Cow {

  // Page numbers below UTOP; the exception stack page and the fault handler's scratch page
  const NPAGES: nat := 0xeec00
  const XSTACK: nat := 0xeebff
  const PFTEMP: nat := 0x7ff

  /** A virtual page of an environment. */
  datatype Slot = Slot(env: nat, vpn: nat)

  /** A present page table entry; every one of them has PTE_U and PTE_P. */
  datatype Pte = Pte(page: nat, w: bool, cow: bool, share: bool)

  /** What duppage found in the entry it is about to copy. */
  datatype Kind = Shared(pte: Pte) | Private | ReadOnly

  /**
    Where an environment is in fork: not forking, about to look at page `at`, about to map
    page `at` into the child, or between the two mappings of a private page.
  */
  datatype Fork = Idle | Scan(child: nat, at: nat) | Chosen(child: nat, at: nat, kind: Kind) | Half(child: nat, at: nat)

  /** Where an environment is in pgfault for page `vpn`. */
  datatype Fault = NoFault | Allocated(vpn: nat) | Copied(vpn: nat) | Moved(vpn: nat)

  type Content = seq<int>

  datatype State = State(
    pt: map<Slot, Pte>,
    mem: map<nat, Content>,
    running: set<nat>,
    fork: map<nat, Fork>,
    fault: map<nat, Fault>)

  function ForkOf(fork: map<nat, Fork>, e: nat): Fork {
    if e in fork then fork[e] else Idle
  }

  function FaultOf(fault: map<nat, Fault>, e: nat): Fault {
    if e in fault then fault[e] else NoFault
  }

  /** No page table names page `p`: it is on the kernel's free list. */
  ghost predicate Free(s: State, p: nat) {
    forall x {:trigger s.pt[x]} :: x in s.pt ==> s.pt[x].page != p
  }

  predicate Mapped(s: State, e: nat, vpn: nat) {
    Slot(e, vpn) in s.pt && s.pt[Slot(e, vpn)].page in s.mem
  }

  // ----- steps -----

  datatype Action =
    | Store(c: Content, vpn: nat)          // a store that the entry allows; in pgfault, to its own stack
    | FaultAlloc(vpn: nat, page: nat)      // pgfault: sys_page_alloc(0, PFTEMP)
    | FaultCopy                            // pgfault: memmove
    | FaultMove                            // pgfault: sys_page_map(0, PFTEMP, 0, addr)
    | FaultUnmap                           // pgfault: sys_page_unmap(0, PFTEMP)
    | Alloc(vpn: nat, page: nat, perm: Pte) // sys_page_alloc(0, va, perm)
    | Unmap(vpn: nat)                      // sys_page_unmap(0, va)
    | Exofork(child: nat)                  // sys_exofork
    | Look                                 // fork's loop and duppage read uvpt
    | MapChild                             // duppage's sys_page_map into the child
    | Remark                               // duppage's sys_page_map of our own page
    | Finish(page: nat)                    // the child's exception stack, and ENV_RUNNABLE

  /** The environment runs user code outside fork and outside its fault handler. */
  predicate Plain(s: State, e: nat) {
    ForkOf(s.fork, e).Idle? && FaultOf(s.fault, e).NoFault?
  }

  /**
    A page that duppage has found to be shared or read-only is not stored to before duppage
    has mapped it: the only stores duppage itself makes go to the stack, which is private.
  */
  predicate MayStore(s: State, e: nat, vpn: nat) {
    var f := ForkOf(s.fork, e);
    f.Chosen? && f.at == vpn ==> f.kind.Private? || (f.kind.Shared? && f.kind.pte.w)
  }

  ghost predicate Enabled(s: State, e: nat, a: Action) {
    && e in s.running
    && match a
       case Store(c, vpn) =>
         && (FaultOf(s.fault, e).NoFault? || vpn == XSTACK)
         && Slot(e, vpn) in s.pt && s.pt[Slot(e, vpn)].w && MayStore(s, e, vpn)
       case FaultAlloc(vpn, page) =>
         && FaultOf(s.fault, e).NoFault? && vpn != PFTEMP && Slot(e, vpn) in s.pt && !s.pt[Slot(e, vpn)].w
         && MayStore(s, e, vpn) && Free(s, page)
       case FaultCopy => FaultOf(s.fault, e).Allocated? && Mapped(s, e, FaultOf(s.fault, e).vpn) && Mapped(s, e, PFTEMP)
       case FaultMove => FaultOf(s.fault, e).Copied? && Mapped(s, e, PFTEMP)
       case FaultUnmap => FaultOf(s.fault, e).Moved?
       case Alloc(vpn, page, perm) =>
         Plain(s, e) && vpn < NPAGES && vpn != PFTEMP && Free(s, page) && perm.page == page
       case Unmap(vpn) => Plain(s, e) && vpn < NPAGES
       case Exofork(child) =>
         && Plain(s, e) && child !in s.running && child != e
         && (forall p :: ForkOf(s.fork, p).Idle? || ForkOf(s.fork, p).child != child)
         && (forall x {:trigger s.pt[x]} :: x in s.pt ==> x.env != child)
       case Look => FaultOf(s.fault, e).NoFault? && ForkOf(s.fork, e).Scan? && ForkOf(s.fork, e).at < NPAGES
       case MapChild =>
         FaultOf(s.fault, e).NoFault? && ForkOf(s.fork, e).Chosen? && Mapped(s, e, ForkOf(s.fork, e).at)
       case Remark =>
         FaultOf(s.fault, e).NoFault? && ForkOf(s.fork, e).Half? && Mapped(s, e, ForkOf(s.fork, e).at)
       case Finish(page) =>
         FaultOf(s.fault, e).NoFault? && ForkOf(s.fork, e).Scan? && ForkOf(s.fork, e).at == NPAGES && Free(s, page)
  }

  /** The three branches of duppage. */
  function KindOf(p: Pte): Kind {
    if p.share then Shared(p) else if p.w || p.cow then Private else ReadOnly
  }

  /** The entry that duppage gives the child for the page found to be of this kind. */
  function ChildPte(kind: Kind, page: nat): Pte {
    match kind
    case Shared(pte) => pte.(page := page)
    case Private => Pte(page, false, true, false)
    case ReadOnly => Pte(page, false, false, false)
  }

  function Apply(s: State, e: nat, a: Action): State
    requires Enabled(s, e, a)
  {
    var f := ForkOf(s.fork, e);
    match a
    case Store(c, vpn) => s.(mem := s.mem[s.pt[Slot(e, vpn)].page := c])
    case FaultAlloc(vpn, page) =>
      s.(pt := s.pt[Slot(e, PFTEMP) := Pte(page, true, false, false)], mem := s.mem[page := []],
         fault := s.fault[e := Allocated(vpn)])
    case FaultCopy =>
      var vpn := FaultOf(s.fault, e).vpn;
      s.(mem := s.mem[s.pt[Slot(e, PFTEMP)].page := s.mem[s.pt[Slot(e, vpn)].page]], fault := s.fault[e := Copied(vpn)])
    case FaultMove =>
      var vpn := FaultOf(s.fault, e).vpn;
      s.(pt := s.pt[Slot(e, vpn) := Pte(s.pt[Slot(e, PFTEMP)].page, true, false, false)],
         fault := s.fault[e := Moved(vpn)])
    case FaultUnmap => s.(pt := s.pt - {Slot(e, PFTEMP)}, fault := s.fault[e := NoFault])
    case Alloc(vpn, page, perm) => s.(pt := s.pt[Slot(e, vpn) := perm], mem := s.mem[page := []])
    case Unmap(vpn) => s.(pt := s.pt - {Slot(e, vpn)})
    case Exofork(child) => s.(fork := s.fork[e := Scan(child, 0)])
    case Look =>
      if Slot(e, f.at) in s.pt && f.at != XSTACK
      then s.(fork := s.fork[e := Chosen(f.child, f.at, KindOf(s.pt[Slot(e, f.at)]))])
      else s.(fork := s.fork[e := Scan(f.child, f.at + 1)])
    case MapChild =>
      var page := s.pt[Slot(e, f.at)].page;
      s.(pt := s.pt[Slot(f.child, f.at) := ChildPte(f.kind, page)],
         fork := s.fork[e := if f.kind.Private? then Half(f.child, f.at) else Scan(f.child, f.at + 1)])
    case Remark =>
      s.(pt := s.pt[Slot(e, f.at) := Pte(s.pt[Slot(e, f.at)].page, false, true, false)],
         fork := s.fork[e := Scan(f.child, f.at + 1)])
    case Finish(page) =>
      s.(pt := s.pt[Slot(f.child, XSTACK) := Pte(page, true, false, false)], mem := s.mem[page := []],
         running := s.running + {f.child}, fork := s.fork[e := Idle])
  }

  // ----- the invariant -----

  /** The parent's and the child's entry of the page that duppage is in the middle of. */
  predicate MidPair(s: State, x: Slot, y: Slot) {
    x.vpn == y.vpn && ForkOf(s.fork, x.env) == Half(y.env, x.vpn)
  }

  /** The two entries of a page that pgfault has moved but not yet unmapped from PFTEMP. */
  predicate TempPair(s: State, x: Slot, y: Slot) {
    x.env == y.env && (
      (x.vpn == PFTEMP && FaultOf(s.fault, x.env) == Moved(y.vpn)) ||
      (y.vpn == PFTEMP && FaultOf(s.fault, x.env) == Moved(x.vpn)))
  }

  /** A page that is writable through one entry is reached through another one only if both are shared. */
  ghost predicate Guarded(s: State) {
    forall x, y {:trigger s.pt[x], s.pt[y]} ::
      x in s.pt && y in s.pt && x != y && s.pt[x].page == s.pt[y].page && s.pt[x].w ==>
        (s.pt[x].share && s.pt[y].share) || MidPair(s, x, y) || TempPair(s, x, y)
  }

  ghost predicate Backed(s: State) {
    forall x {:trigger s.pt[x]} :: x in s.pt ==> s.pt[x].page in s.mem
  }

  /** PFTEMP is mapped during a fault only. */
  ghost predicate TempClear(s: State) {
    forall x {:trigger s.pt[x]} :: x in s.pt && x.vpn == PFTEMP ==> !FaultOf(s.fault, x.env).NoFault?
  }

  /** The page chosen by duppage is still of the kind it was found to be. */
  predicate KindHolds(p: Pte, kind: Kind) {
    match kind
    case Shared(q) => p == q && p.share
    case Private => !p.share
    case ReadOnly => !p.share && !p.w
  }

  ghost predicate ForkOk(s: State, e: nat) {
    var f := ForkOf(s.fork, e);
    f.Idle? || (
      && e in s.running && f.child !in s.running && f.at <= NPAGES
      && (!f.Scan? ==> f.at < NPAGES && f.at != XSTACK && f.at != PFTEMP && Slot(e, f.at) in s.pt)
      && (f.Chosen? ==> KindHolds(s.pt[Slot(e, f.at)], f.kind))
      && (f.Half? ==> !s.pt[Slot(e, f.at)].share)
      && (f.Half? ==>
            Slot(f.child, f.at) in s.pt &&
            s.pt[Slot(f.child, f.at)] == ChildPte(Private, s.pt[Slot(f.child, f.at)].page)))
  }

  ghost predicate FaultOk(s: State, e: nat) {
    var f := FaultOf(s.fault, e);
    f.NoFault? || (
      && e in s.running && f.vpn != PFTEMP && Slot(e, f.vpn) in s.pt && (!f.Moved? ==> !s.pt[Slot(e, f.vpn)].w)
      && Slot(e, PFTEMP) in s.pt && s.pt[Slot(e, PFTEMP)].w && !s.pt[Slot(e, PFTEMP)].share
      && (ForkOf(s.fork, e).Chosen? && ForkOf(s.fork, e).at == f.vpn ==> ForkOf(s.fork, e).kind.Private?))
  }

  /** Fork has passed page `vpn`, so the child under construction may have it. */
  predicate Passed(f: Fork, vpn: nat) {
    !f.Idle? && vpn != XSTACK && (vpn < f.at || (f.Half? && vpn == f.at))
  }

  /** A child under construction has only the pages fork has passed. */
  ghost predicate Children(pt: map<Slot, Pte>, fork: map<nat, Fork>) {
    forall e, x {:trigger ForkOf(fork, e), pt[x]} ::
      x in pt && !ForkOf(fork, e).Idle? && x.env == ForkOf(fork, e).child ==> Passed(ForkOf(fork, e), x.vpn)
  }

  /** No two environments are building the same child. */
  ghost predicate OneParent(fork: map<nat, Fork>) {
    forall e, d {:trigger ForkOf(fork, e), ForkOf(fork, d)} ::
      e != d && !ForkOf(fork, e).Idle? && !ForkOf(fork, d).Idle? ==> ForkOf(fork, e).child != ForkOf(fork, d).child
  }

  ghost predicate Inv(s: State) {
    && Guarded(s) && Backed(s) && TempClear(s) && Children(s.pt, s.fork) && OneParent(s.fork)
    && (forall e :: ForkOk(s, e))
    && (forall e :: FaultOk(s, e))
  }

  // ----- every step keeps it -----

  lemma ForkUpdate(fork: map<nat, Fork>, e: nat, f: Fork)
    ensures forall d {:trigger ForkOf(fork[e := f], d)} ::
              ForkOf(fork[e := f], d) == if d == e then f else ForkOf(fork, d)
  {
  }

  /** Entries of a running environment do not belong to a child under construction. */
  lemma OwnSlot(s: State, x: Slot, p: Pte)
    requires Inv(s) && x.env in s.running
    ensures Children(s.pt[x := p], s.fork)
  {
    forall d, y {:trigger ForkOf(s.fork, d), s.pt[x := p][y]} |
      y in s.pt[x := p] && !ForkOf(s.fork, d).Idle? && y.env == ForkOf(s.fork, d).child
      ensures Passed(ForkOf(s.fork, d), y.vpn)
    {
      assert ForkOk(s, d);
    }
  }

  /** A page that a running environment outside fork's and pgfault's halves holds unshared has no writable alias. */
  lemma NoWriter(s: State, x: Slot)
    requires Inv(s) && x in s.pt && x.env in s.running && !s.pt[x].share
    requires !FaultOf(s.fault, x.env).Moved?
    ensures forall y :: y in s.pt && y != x && s.pt[y].page == s.pt[x].page ==> !s.pt[y].w
  {
    forall y | y in s.pt && y != x && s.pt[y].page == s.pt[x].page ensures !s.pt[y].w {
      assert ForkOk(s, y.env);
    }
  }

  /** Until pgfault moves it, the scratch page is mapped at PFTEMP only. */
  lemma ScratchIsPrivate(s: State, e: nat)
    requires Inv(s) && (FaultOf(s.fault, e).Allocated? || FaultOf(s.fault, e).Copied?)
    ensures Slot(e, PFTEMP) in s.pt
    ensures forall y :: y in s.pt && y != Slot(e, PFTEMP) ==> s.pt[y].page != s.pt[Slot(e, PFTEMP)].page
  {
    assert FaultOk(s, e);
    assert ForkOk(s, e);
  }

  lemma StoreKeeps(s: State, e: nat, a: Action)
    requires Inv(s) && a.Store? && Enabled(s, e, a)
    ensures Inv(Apply(s, e, a))
  {
    var s' := Apply(s, e, a);
    forall d ensures ForkOk(s', d) { assert ForkOk(s, d); }
    forall d ensures FaultOk(s', d) { assert FaultOk(s, d); assert ForkOk(s, d); }
  }

  lemma FaultAllocKeeps(s: State, e: nat, a: Action)
    requires Inv(s) && a.FaultAlloc? && Enabled(s, e, a)
    ensures Inv(Apply(s, e, a))
  {
    var s' := Apply(s, e, a);
    OwnSlot(s, Slot(e, PFTEMP), Pte(a.page, true, false, false));
    forall d ensures ForkOk(s', d) { assert ForkOk(s, d); }
    forall d ensures FaultOk(s', d) { assert FaultOk(s, d); assert ForkOk(s, d); }
  }

  lemma FaultCopyKeeps(s: State, e: nat, a: Action)
    requires Inv(s) && a.FaultCopy? && Enabled(s, e, a)
    ensures Inv(Apply(s, e, a))
  {
    var s' := Apply(s, e, a);
    forall d ensures ForkOk(s', d) { assert ForkOk(s, d); }
    forall d ensures FaultOk(s', d) { assert FaultOk(s, d); assert ForkOk(s, d); }
  }

  lemma FaultMoveGuarded(s: State, e: nat, a: Action)
    requires Inv(s) && a.FaultMove? && Enabled(s, e, a)
    ensures Guarded(Apply(s, e, a))
  {
    ScratchIsPrivate(s, e);
  }

  lemma FaultMoveKeeps(s: State, e: nat, a: Action)
    requires Inv(s) && a.FaultMove? && Enabled(s, e, a)
    ensures Inv(Apply(s, e, a))
  {
    var s' := Apply(s, e, a);
    FaultMoveGuarded(s, e, a);
    OwnSlot(s, Slot(e, FaultOf(s.fault, e).vpn), Pte(s.pt[Slot(e, PFTEMP)].page, true, false, false));
    forall d ensures ForkOk(s', d) { assert ForkOk(s, d); assert FaultOk(s, d); }
    forall d ensures FaultOk(s', d) { assert FaultOk(s, d); assert ForkOk(s, d); }
  }

  lemma FaultUnmapKeeps(s: State, e: nat, a: Action)
    requires Inv(s) && a.FaultUnmap? && Enabled(s, e, a)
    ensures Inv(Apply(s, e, a))
  {
    var s' := Apply(s, e, a);
    forall d ensures ForkOk(s', d) { assert ForkOk(s, d); }
    forall d ensures FaultOk(s', d) { assert FaultOk(s, d); assert ForkOk(s, d); }
  }

  lemma AllocKeeps(s: State, e: nat, a: Action)
    requires Inv(s) && a.Alloc? && Enabled(s, e, a)
    ensures Inv(Apply(s, e, a))
  {
    var s' := Apply(s, e, a);
    OwnSlot(s, Slot(e, a.vpn), a.perm);
    forall d ensures ForkOk(s', d) { assert ForkOk(s, d); }
    forall d ensures FaultOk(s', d) { assert FaultOk(s, d); assert ForkOk(s, d); }
  }

  lemma UnmapKeeps(s: State, e: nat, a: Action)
    requires Inv(s) && a.Unmap? && Enabled(s, e, a)
    ensures Inv(Apply(s, e, a))
  {
    var s' := Apply(s, e, a);
    forall d ensures ForkOk(s', d) { assert ForkOk(s, d); }
    forall d ensures FaultOk(s', d) { assert FaultOk(s, d); assert ForkOk(s, d); }
  }

  lemma ExoforkKeeps(s: State, e: nat, a: Action)
    requires Inv(s) && a.Exofork? && Enabled(s, e, a)
    ensures Inv(Apply(s, e, a))
  {
    var s' := Apply(s, e, a);
    ForkUpdate(s.fork, e, s'.fork[e]);
    forall d ensures ForkOk(s', d) { assert ForkOk(s, d); }
    forall d ensures FaultOk(s', d) { assert FaultOk(s, d); assert ForkOk(s, d); }
  }

  /** The kind duppage finds is the kind the page has; everybody else's fork stands where it stood. */
  lemma LookForks(s: State, e: nat, a: Action, d: nat)
    requires Inv(s) && a.Look? && Enabled(s, e, a)
    ensures ForkOk(Apply(s, e, a), d)
  {
    assert ForkOk(s, e) && ForkOk(s, d);
  }

  /** Looking at a page leaves every entry as it is, and no fork is between its two mappings then. */
  lemma LookGuarded(s: State, e: nat, a: Action)
    requires Inv(s) && a.Look? && Enabled(s, e, a)
    ensures Guarded(Apply(s, e, a))
  {
  }

  lemma LookKeeps(s: State, e: nat, a: Action)
    requires Inv(s) && a.Look? && Enabled(s, e, a)
    ensures Inv(Apply(s, e, a))
  {
    var s' := Apply(s, e, a);
    assert ForkOk(s, e);
    ForkUpdate(s.fork, e, s'.fork[e]);
    LookGuarded(s, e, a);
    forall d ensures ForkOk(s', d) { LookForks(s, e, a, d); }
    forall d ensures FaultOk(s', d) { assert FaultOk(s, d); assert ForkOk(s, d); }
  }

  lemma MapChildGuarded(s: State, e: nat, a: Action)
    requires Inv(s) && a.MapChild? && Enabled(s, e, a)
    ensures Guarded(Apply(s, e, a))
  {
    var s' := Apply(s, e, a);
    var z := Slot(ForkOf(s.fork, e).child, ForkOf(s.fork, e).at);
    assert ForkOk(s, e);
    forall x, y {:trigger s'.pt[x], s'.pt[y]} |
      x in s'.pt && y in s'.pt && x != y && s'.pt[x].page == s'.pt[y].page && s'.pt[x].w
      ensures (s'.pt[x].share && s'.pt[y].share) || MidPair(s', x, y) || TempPair(s', x, y)
    {
      assert ForkOk(s, x.env);
      var own := s.pt[Slot(e, z.vpn)];
    }
  }

  lemma MapChildKeeps(s: State, e: nat, a: Action)
    requires Inv(s) && a.MapChild? && Enabled(s, e, a)
    ensures Inv(Apply(s, e, a))
  {
    var s' := Apply(s, e, a);
    MapChildGuarded(s, e, a);
    assert ForkOk(s, e);
    ForkUpdate(s.fork, e, s'.fork[e]);
    forall d ensures ForkOk(s', d) { assert ForkOk(s, d); }
    forall d ensures FaultOk(s', d) { assert FaultOk(s, d); assert ForkOk(s, d); }
  }

  lemma RemarkGuarded(s: State, e: nat, a: Action)
    requires Inv(s) && a.Remark? && Enabled(s, e, a)
    ensures Guarded(Apply(s, e, a))
  {
    assert ForkOk(s, e);
    NoWriter(s, Slot(e, ForkOf(s.fork, e).at));
  }

  lemma RemarkKeeps(s: State, e: nat, a: Action)
    requires Inv(s) && a.Remark? && Enabled(s, e, a)
    ensures Inv(Apply(s, e, a))
  {
    var s' := Apply(s, e, a);
    RemarkGuarded(s, e, a);
    assert ForkOk(s, e);
    ForkUpdate(s.fork, e, s'.fork[e]);
    forall d ensures ForkOk(s', d) { assert ForkOk(s, d); }
    forall d ensures FaultOk(s', d) { assert FaultOk(s, d); assert ForkOk(s, d); }
  }

  lemma FinishKeeps(s: State, e: nat, a: Action)
    requires Inv(s) && a.Finish? && Enabled(s, e, a)
    ensures Inv(Apply(s, e, a))
  {
    var s' := Apply(s, e, a);
    assert ForkOk(s, e);
    ForkUpdate(s.fork, e, s'.fork[e]);
    forall d ensures ForkOk(s', d) { assert ForkOk(s, d); }
    forall d ensures FaultOk(s', d) { assert FaultOk(s, d); assert ForkOk(s, d); }
  }

  lemma StepKeeps(s: State, e: nat, a: Action)
    requires Inv(s) && Enabled(s, e, a)
    ensures Inv(Apply(s, e, a))
  {
    match a
    case Store(_, _) => StoreKeeps(s, e, a);
    case FaultAlloc(_, _) => FaultAllocKeeps(s, e, a);
    case FaultCopy => FaultCopyKeeps(s, e, a);
    case FaultMove => FaultMoveKeeps(s, e, a);
    case FaultUnmap => FaultUnmapKeeps(s, e, a);
    case Alloc(_, _, _) => AllocKeeps(s, e, a);
    case Unmap(_) => UnmapKeeps(s, e, a);
    case Exofork(_) => ExoforkKeeps(s, e, a);
    case Look => LookKeeps(s, e, a);
    case MapChild => MapChildKeeps(s, e, a);
    case Remark => RemarkKeeps(s, e, a);
    case Finish(_) => FinishKeeps(s, e, a);
  }

  // ----- isolation -----

  /** What the environment sees at a page it has mapped. */
  function View(s: State, x: Slot): Content
    requires Mapped(s, x.env, x.vpn)
  {
    s.mem[s.pt[x].page]
  }

  /** Outside the two halves, a writable unshared entry is the only mapping of its page. */
  lemma SoleMapping(s: State, x: Slot, y: Slot)
    requires Inv(s) && x in s.pt && y in s.pt && x != y
    requires s.pt[x].w && !s.pt[x].share
    requires !ForkOf(s.fork, x.env).Half? && !FaultOf(s.fault, x.env).Moved?
    ensures s.pt[x].page != s.pt[y].page
  {
  }

  /** A step by `e` leaves other environments' entries alone. */
  lemma StepFrame(s: State, e: nat, a: Action, y: Slot)
    requires Inv(s) && Enabled(s, e, a) && y in s.pt && y.env != e
    ensures y in Apply(s, e, a).pt && Apply(s, e, a).pt[y] == s.pt[y]
  {
    if a.MapChild? || a.Finish? {
      assert ForkOk(s, e);
      assert y.env == ForkOf(s.fork, e).child ==> Passed(ForkOf(s.fork, e), y.vpn);
    }
  }

  /** The entry through which `e` can still write a page of the child it is building. */
  predicate Exposed(s: State, e: nat, y: Slot) {
    ForkOf(s.fork, e) == Half(y.env, y.vpn)
  }

  /** Only a store through the exposed entry changes what another environment sees at an unshared page. */
  lemma StepView(s: State, e: nat, a: Action, y: Slot)
    requires Inv(s) && Enabled(s, e, a) && y in s.pt && y.env != e && !s.pt[y].share
    ensures
      var s' := Apply(s, e, a);
      && Mapped(s, y.env, y.vpn) && Mapped(s', y.env, y.vpn)
      && (View(s', y) == View(s, y) ||
          (Exposed(s, e, y) && a.Store? && a.vpn == y.vpn && Mapped(s', e, y.vpn) &&
           View(s', y) == View(s', Slot(e, y.vpn))))
  {
    StepFrame(s, e, a, y);
    StepKeeps(s, e, a);
    if a.FaultCopy? { ScratchIsPrivate(s, e); }
    if a.Store? {
      var x := Slot(e, a.vpn);
      assert s.pt[x].page == s.pt[y].page ==> MidPair(s, x, y);
    }
  }

  // ----- whole runs -----

  datatype Event = Event(env: nat, action: Action)

  /** Nothing is in progress and no page that is writable anywhere is mapped twice, unless shared both times. */
  ghost predicate Initial(s: State) {
    && s.fork == map[] && s.fault == map[] && Backed(s)
    && (forall x {:trigger s.pt[x]} :: x in s.pt ==> x.vpn != PFTEMP)
    && (forall x, y {:trigger s.pt[x], s.pt[y]} ::
          x in s.pt && y in s.pt && x != y && s.pt[x].page == s.pt[y].page && s.pt[x].w ==>
            s.pt[x].share && s.pt[y].share)
  }

  ghost predicate IsRun(states: seq<State>, events: seq<Event>) {
    && |states| == |events| + 1
    && forall i {:trigger events[i]} :: 0 <= i < |events| ==>
         Enabled(states[i], events[i].env, events[i].action) &&
         states[i + 1] == Apply(states[i], events[i].env, events[i].action)
  }

  lemma InitialInv(s: State)
    requires Initial(s)
    ensures Inv(s)
  {
    forall e ensures ForkOk(s, e) && FaultOk(s, e) {}
  }

  lemma {:induction false} RunKeeps(states: seq<State>, events: seq<Event>)
    requires IsRun(states, events) && Inv(states[0])
    ensures Inv(states[|events|])
    ensures states[0].running <= states[|events|].running
    decreases |events|
  {
    if |events| > 0 {
      var n := |events| - 1;
      RunKeeps(states[..n + 1], events[..n]);
      StepKeeps(states[n], events[n].env, events[n].action);
    }
  }

  /** In every run, whoever is not in the middle of duppage or pgfault has sole use of its writable unshared pages. */
  lemma RunSoleMapping(states: seq<State>, events: seq<Event>, x: Slot, y: Slot)
    requires IsRun(states, events) && Initial(states[0])
    requires var s := states[|events|];
      && x in s.pt && y in s.pt && x != y && s.pt[x].w && !s.pt[x].share
      && !ForkOf(s.fork, x.env).Half? && !FaultOf(s.fault, x.env).Moved?
    ensures states[|events|].pt[x].page != states[|events|].pt[y].page
  {
    InitialInv(states[0]);
    RunKeeps(states, events);
    SoleMapping(states[|events|], x, y);
  }

  /** What a running environment sees at an unshared page changes by its own steps only, over any run. */
  lemma {:induction false} RunIsolation(states: seq<State>, events: seq<Event>, y: Slot)
    requires IsRun(states, events) && Inv(states[0])
    requires y in states[0].pt && y.env in states[0].running && !states[0].pt[y].share
    requires forall i :: 0 <= i < |events| ==> events[i].env != y.env
    ensures
      var s, t := states[0], states[|events|];
      && Mapped(s, y.env, y.vpn) && Mapped(t, y.env, y.vpn)
      && t.pt[y] == s.pt[y] && View(t, y) == View(s, y)
    decreases |events|
  {
    if |events| > 0 {
      var n := |events| - 1;
      RunIsolation(states[..n + 1], events[..n], y);
      RunKeeps(states[..n + 1], events[..n]);
      StepFrame(states[n], events[n].env, events[n].action, y);
      StepView(states[n], events[n].env, events[n].action, y);
      assert ForkOk(states[n], events[n].env);
    }
  }

  // ----- an environment's own memory -----

  /** Once the handler has copied an unshared page, the scratch page and the page look the same. */
  ghost predicate CopyOk(s: State, e: nat) {
    var f := FaultOf(s.fault, e);
    f.Copied? && Slot(e, f.vpn) in s.pt && !s.pt[Slot(e, f.vpn)].share ==>
      && Mapped(s, e, PFTEMP) && Mapped(s, e, f.vpn)
      && View(s, Slot(e, PFTEMP)) == View(s, Slot(e, f.vpn))
  }

  /** A step by others leaves an unshared page of a running environment as it is, entry and contents. */
  lemma OtherStepView(s: State, d: nat, a: Action, y: Slot)
    requires Inv(s) && Enabled(s, d, a) && y in s.pt && y.env != d && y.env in s.running && !s.pt[y].share
    ensures
      var s' := Apply(s, d, a);
      && y in s'.pt && s'.pt[y] == s.pt[y]
      && Mapped(s, y.env, y.vpn) && Mapped(s', y.env, y.vpn) && View(s', y) == View(s, y)
  {
    StepFrame(s, d, a, y);
    StepView(s, d, a, y);
    assert ForkOk(s, d);
  }

  lemma OtherCopyOk(s: State, d: nat, a: Action, e: nat)
    requires Inv(s) && Enabled(s, d, a) && e != d && CopyOk(s, e)
    ensures CopyOk(Apply(s, d, a), e)
  {
    var f := FaultOf(s.fault, e);
    assert FaultOk(s, e) && FaultOf(Apply(s, d, a).fault, e) == f;
    if f.Copied? {
      StepFrame(s, d, a, Slot(e, f.vpn));
      OtherStepView(s, d, a, Slot(e, PFTEMP));
      if !s.pt[Slot(e, f.vpn)].share { OtherStepView(s, d, a, Slot(e, f.vpn)); }
    }
  }

  lemma OwnCopyOk(s: State, e: nat, a: Action)
    requires Inv(s) && Enabled(s, e, a) && CopyOk(s, e)
    ensures CopyOk(Apply(s, e, a), e)
  {
    var f := FaultOf(s.fault, e);
    assert FaultOk(s, e) && ForkOk(s, e);
    if f.Allocated? || f.Copied? { ScratchIsPrivate(s, e); }
    if a.Store? && f.Copied? {
      assert s.pt[Slot(e, a.vpn)].w;
      assert s.pt[Slot(e, f.vpn)].page in s.mem;
    }
  }

  /** Every step keeps what has been copied. */
  lemma CopyKept(s: State, d: nat, a: Action, e: nat)
    requires Inv(s) && Enabled(s, d, a) && CopyOk(s, e)
    ensures CopyOk(Apply(s, d, a), e)
  {
    if e == d { OwnCopyOk(s, e, a); } else { OtherCopyOk(s, d, a, e); }
  }

  /** The steps by which an environment means to change page `v`. */
  predicate Touches(a: Action, v: nat) {
    (a.Store? || a.Alloc? || a.Unmap?) && a.vpn == v
  }

  /** An environment's own faults and forks leave what it sees at an unshared page as it is. */
  lemma OwnStepView(s: State, e: nat, a: Action, v: nat)
    requires Inv(s) && Enabled(s, e, a) && CopyOk(s, e) && !Touches(a, v)
    requires v != PFTEMP && Slot(e, v) in s.pt && !s.pt[Slot(e, v)].share
    ensures
      var s', x := Apply(s, e, a), Slot(e, v);
      && x in s'.pt && !s'.pt[x].share
      && Mapped(s, e, v) && Mapped(s', e, v) && View(s', x) == View(s, x)
  {
    assert FaultOk(s, e) && ForkOk(s, e);
    if FaultOf(s.fault, e).Allocated? || FaultOf(s.fault, e).Copied? { ScratchIsPrivate(s, e); }
    if a.Store? {
      var x := Slot(e, a.vpn);
      assert s.pt[x].page == s.pt[Slot(e, v)].page ==> MidPair(s, x, Slot(e, v)) || TempPair(s, x, Slot(e, v));
    }
  }

  /** Over a run without such a step the environment sees the same. */
  lemma {:induction false} RunView(states: seq<State>, events: seq<Event>, y: Slot)
    requires IsRun(states, events) && Inv(states[0]) && CopyOk(states[0], y.env)
    requires y in states[0].pt && y.env in states[0].running && !states[0].pt[y].share && y.vpn != PFTEMP
    requires forall i {:trigger events[i]} :: 0 <= i < |events| ==>
      events[i].env == y.env ==> !Touches(events[i].action, y.vpn)
    ensures
      var s, t := states[0], states[|events|];
      && CopyOk(t, y.env) && y in t.pt && !t.pt[y].share
      && Mapped(s, y.env, y.vpn) && Mapped(t, y.env, y.vpn) && View(t, y) == View(s, y)
    decreases |events|
  {
    if |events| > 0 {
      var n := |events| - 1;
      var s, d, a := states[n], events[n].env, events[n].action;
      RunView(states[..n + 1], events[..n], y);
      RunKeeps(states[..n + 1], events[..n]);
      CopyKept(s, d, a, y.env);
      if d == y.env { OwnStepView(s, d, a, y.vpn); } else { OtherStepView(s, d, a, y); }
    }
  }

  lemma {:induction false} RunCopyOk(states: seq<State>, events: seq<Event>, e: nat)
    requires IsRun(states, events) && Inv(states[0]) && CopyOk(states[0], e)
    ensures CopyOk(states[|events|], e)
    decreases |events|
  {
    if |events| > 0 {
      var n := |events| - 1;
      RunCopyOk(states[..n + 1], events[..n], e);
      RunKeeps(states[..n + 1], events[..n]);
      CopyKept(states[n], events[n].env, events[n].action, e);
    }
  }

  /**
    Isolation, in every run and across the environment's own page faults and forks: from any moment on,
    what a running environment sees at an unshared page changes only when it stores to that page, or
    allocates or unmaps it, itself.
  */
  lemma RunMemory(states: seq<State>, events: seq<Event>, n: nat, y: Slot)
    requires IsRun(states, events) && Initial(states[0]) && n <= |events|
    requires y in states[n].pt && y.env in states[n].running && !states[n].pt[y].share && y.vpn != PFTEMP
    requires forall i {:trigger events[i]} :: n <= i < |events| ==>
      events[i].env == y.env ==> !Touches(events[i].action, y.vpn)
    ensures
      var s, t := states[n], states[|events|];
      && y in t.pt && !t.pt[y].share
      && Mapped(s, y.env, y.vpn) && Mapped(t, y.env, y.vpn) && View(t, y) == View(s, y)
  {
    InitialInv(states[0]);
    RunKeeps(states[..n + 1], events[..n]);
    RunCopyOk(states[..n + 1], events[..n], y.env);
    var later, rest := states[n..], events[n..];
    assert forall i {:trigger rest[i]} :: 0 <= i < |rest| ==> rest[i] == events[n + i];
    RunView(later, rest, y);
  }

  /** Between the copy and the move the scratch page keeps what was copied. */
  lemma ScratchStep(s: State, d: nat, a: Action, e: nat)
    requires Inv(s) && Enabled(s, d, a) && FaultOf(s.fault, e).Copied? && !(d == e && a.FaultMove?)
    ensures
      var s', x := Apply(s, d, a), Slot(e, PFTEMP);
      && FaultOf(s'.fault, e) == FaultOf(s.fault, e)
      && Mapped(s, e, PFTEMP) && Mapped(s', e, PFTEMP) && View(s', x) == View(s, x)
  {
    assert FaultOk(s, e) && ForkOk(s, e);
    ScratchIsPrivate(s, e);
    if d != e { OtherStepView(s, d, a, Slot(e, PFTEMP)); }
  }

  lemma {:induction false} RunScratch(states: seq<State>, events: seq<Event>, e: nat)
    requires IsRun(states, events) && Inv(states[0]) && FaultOf(states[0].fault, e).Copied?
    requires forall i {:trigger events[i]} :: 0 <= i < |events| ==> events[i] != Event(e, FaultMove)
    ensures
      var s, t, x := states[0], states[|events|], Slot(e, PFTEMP);
      && FaultOf(t.fault, e) == FaultOf(s.fault, e)
      && Mapped(s, e, PFTEMP) && Mapped(t, e, PFTEMP) && View(t, x) == View(s, x)
    decreases |events|
  {
    if |events| == 0 {
      assert FaultOk(states[0], e);
    } else {
      var n := |events| - 1;
      RunScratch(states[..n + 1], events[..n], e);
      RunKeeps(states[..n + 1], events[..n]);
      ScratchStep(states[n], events[n].env, events[n].action, e);
    }
  }

  /**
    What pgfault leaves at the faulting page, shared or not, whatever others do in the meantime: when
    the handler moves the scratch page there, the environment sees what it saw there at the copy.
  */
  lemma FaultResult(states: seq<State>, events: seq<Event>, e: nat)
    requires IsRun(states, events) && Inv(states[0]) && |events| > 1
    requires events[0] == Event(e, FaultCopy) && events[|events| - 1] == Event(e, FaultMove)
    requires forall i {:trigger events[i]} :: 0 <= i < |events| - 1 ==> events[i] != Event(e, FaultMove)
    ensures
      var s, t, v := states[0], states[|events|], FaultOf(states[0].fault, e).vpn;
      && Mapped(s, e, v) && Mapped(t, e, v) && View(t, Slot(e, v)) == View(s, Slot(e, v))
      && t.pt[Slot(e, v)].w && !t.pt[Slot(e, v)].share
  {
    var n := |events| - 1;
    var s, s1 := states[0], states[1];
    assert FaultOk(s, e);
    StepKeeps(s, e, FaultCopy);
    assert s1.fault[e] == Copied(FaultOf(s.fault, e).vpn);
    var rest := states[1..n + 1];
    assert forall i :: 0 <= i < n - 1 ==> events[1..n][i] == events[i + 1];
    RunScratch(rest, events[1..n], e);
    assert rest[n - 1] == states[n] && Enabled(states[n], e, FaultMove);
  }

  // ----- what the child gets -----

  /** Every page that fork has passed and the parent has is mapped in the child too. */
  ghost predicate Covered(pt: map<Slot, Pte>, fork: map<nat, Fork>) {
    forall e, x {:trigger ForkOf(fork, e), pt[x]} ::
      x in pt && x.env == e && x.vpn != PFTEMP && Passed(ForkOf(fork, e), x.vpn) ==>
        Slot(ForkOf(fork, e).child, x.vpn) in pt
  }

  lemma CoveredKeeps(s: State, e: nat, a: Action)
    requires Inv(s) && Enabled(s, e, a) && Covered(s.pt, s.fork)
    ensures Covered(Apply(s, e, a).pt, Apply(s, e, a).fork)
  {
    var s' := Apply(s, e, a);
    forall d ensures d != e ==> ForkOf(s'.fork, d) == ForkOf(s.fork, d) {}
    forall d, x {:trigger ForkOf(s'.fork, d), s'.pt[x]} |
      x in s'.pt && x.env == d && x.vpn != PFTEMP && Passed(ForkOf(s'.fork, d), x.vpn)
      ensures Slot(ForkOf(s'.fork, d).child, x.vpn) in s'.pt
    {
      assert ForkOk(s, d) && FaultOk(s, d) && ForkOk(s, e);
      assert x in s.pt;
    }
  }

  /** An entry that is shared in the parent, or shared and writable in the child, is the same in both. */
  predicate SameIfShared(parent: Pte, child: Pte) {
    parent.share || (child.share && child.w) ==> parent == child
  }

  /** Shared pages that fork has passed are aliased. */
  ghost predicate Aliased(pt: map<Slot, Pte>, fork: map<nat, Fork>) {
    forall e, x {:trigger ForkOf(fork, e), pt[x]} ::
      x in pt && x.env == e && x.vpn != PFTEMP && Passed(ForkOf(fork, e), x.vpn) &&
      Slot(ForkOf(fork, e).child, x.vpn) in pt ==>
        SameIfShared(pt[x], pt[Slot(ForkOf(fork, e).child, x.vpn)])
  }

  /** Somebody else's step leaves a parent's and its child's entries alone. */
  lemma AliasedOther(s: State, e: nat, a: Action, d: nat, v: nat)
    requires Inv(s) && Enabled(s, e, a) && Aliased(s.pt, s.fork) && d != e
    requires
      var s' := Apply(s, e, a);
      && Slot(d, v) in s'.pt && v != PFTEMP && Passed(ForkOf(s'.fork, d), v)
      && Slot(ForkOf(s'.fork, d).child, v) in s'.pt
    ensures
      var s' := Apply(s, e, a);
      SameIfShared(s'.pt[Slot(d, v)], s'.pt[Slot(ForkOf(s'.fork, d).child, v)])
  {
    assert ForkOk(s, d) && ForkOk(s, e) && ForkOf(Apply(s, e, a).fork, d) == ForkOf(s.fork, d);
    assert Slot(d, v) in s.pt && Slot(ForkOf(s.fork, d).child, v) in s.pt;
    StepFrame(s, e, a, Slot(d, v));
    StepFrame(s, e, a, Slot(ForkOf(s.fork, d).child, v));
    var p := s.pt[Slot(d, v)];
  }

  lemma AliasedOwn(s: State, e: nat, a: Action, v: nat)
    requires Inv(s) && Enabled(s, e, a) && Covered(s.pt, s.fork) && Aliased(s.pt, s.fork)
    requires
      var s' := Apply(s, e, a);
      && Slot(e, v) in s'.pt && v != PFTEMP && Passed(ForkOf(s'.fork, e), v)
      && Slot(ForkOf(s'.fork, e).child, v) in s'.pt
    ensures
      var s' := Apply(s, e, a);
      SameIfShared(s'.pt[Slot(e, v)], s'.pt[Slot(ForkOf(s'.fork, e).child, v)])
  {
    assert FaultOk(s, e) && ForkOk(s, e);
    assert Slot(e, v) in s.pt;
    var p := s.pt[Slot(e, v)];
  }

  lemma AliasedKeeps(s: State, e: nat, a: Action)
    requires Inv(s) && Enabled(s, e, a) && Covered(s.pt, s.fork) && Aliased(s.pt, s.fork)
    ensures Aliased(Apply(s, e, a).pt, Apply(s, e, a).fork)
  {
    var s' := Apply(s, e, a);
    forall d, x {:trigger ForkOf(s'.fork, d), s'.pt[x]} |
      && x in s'.pt && x.env == d && x.vpn != PFTEMP && Passed(ForkOf(s'.fork, d), x.vpn)
      && Slot(ForkOf(s'.fork, d).child, x.vpn) in s'.pt
      ensures SameIfShared(s'.pt[x], s'.pt[Slot(ForkOf(s'.fork, d).child, x.vpn)])
    {
      assert x == Slot(d, x.vpn);
      if d == e { AliasedOwn(s, e, a, x.vpn); } else { AliasedOther(s, e, a, d, x.vpn); }
    }
  }

  lemma {:induction false} RunCovered(states: seq<State>, events: seq<Event>)
    requires IsRun(states, events) && Initial(states[0])
    ensures Inv(states[|events|]) && Covered(states[|events|].pt, states[|events|].fork)
    ensures Aliased(states[|events|].pt, states[|events|].fork)
    decreases |events|
  {
    InitialInv(states[0]);
    if |events| > 0 {
      var n := |events| - 1;
      RunCovered(states[..n + 1], events[..n]);
      StepKeeps(states[n], events[n].env, events[n].action);
      CoveredKeeps(states[n], events[n].env, events[n].action);
      AliasedKeeps(states[n], events[n].env, events[n].action);
    }
  }

  /** Environment `p` is in the fork that makes `c`. */
  predicate Forking(s: State, p: nat, c: nat) {
    !ForkOf(s.fork, p).Idle? && ForkOf(s.fork, p).child == c
  }

  /** The child under construction sees at `v` what its parent sees there. */
  predicate SeesSame(s: State, t: State, p: nat, c: nat, v: nat) {
    Mapped(s, p, v) && Mapped(t, c, v) && View(t, Slot(c, v)) == View(s, Slot(p, v))
  }

  /** The child `c` that `p` is making has page `v`, unshared. */
  predicate HasUnshared(s: State, p: nat, c: nat, v: nat) {
    Forking(s, p, c) && Passed(ForkOf(s.fork, p), v) && Slot(c, v) in s.pt && !s.pt[Slot(c, v)].share
  }

  /** One step later the child's page is as it was, or as the parent has it now. */
  lemma SnapshotStep(s: State, d: nat, a: Action, p: nat, c: nat, v: nat)
    requires Inv(s) && Enabled(s, d, a) && HasUnshared(Apply(s, d, a), p, c, v)
    ensures
      var s' := Apply(s, d, a);
      || SeesSame(s', s', p, c, v)
      || (HasUnshared(s, p, c, v) && Mapped(s, c, v) && Mapped(s', c, v) && View(s', Slot(c, v)) == View(s, Slot(c, v)))
  {
    var s' := Apply(s, d, a);
    var y := Slot(c, v);
    StepKeeps(s, d, a);
    assert ForkOk(s, d) && ForkOk(s, p) && ForkOk(s', p);
    if y in s.pt {
      StepFrame(s, d, a, y);
      StepView(s, d, a, y);
    }
  }

  /**
    In every run: an unshared page of a child under construction, read-only or copy-on-write, holds what
    the parent saw there at some moment of this fork.
  */
  lemma {:induction false} ForkSnapshot(states: seq<State>, events: seq<Event>, p: nat, c: nat, v: nat) returns (j: nat)
    requires IsRun(states, events) && Inv(states[0]) && ForkOf(states[0].fork, p).Idle?
    requires HasUnshared(states[|events|], p, c, v)
    ensures j <= |events| && Forking(states[j], p, c) && SeesSame(states[j], states[|events|], p, c, v)
    decreases |events|
  {
    var n := |events| - 1;
    var t := states[|events|];
    RunKeeps(states[..n + 1], events[..n]);
    SnapshotStep(states[n], events[n].env, events[n].action, p, c, v);
    if SeesSame(t, t, p, c, v) {
      j := n + 1;
    } else {
      j := ForkSnapshot(states[..n + 1], events[..n], p, c, v);
    }
  }

  /**
    What fork gives the child. When its loop ends, the child has every page of the parent but the
    exception stack. A page that is shared in the parent has the same entry in the child, so it stays
    aliased; and every page that the child has unshared, read-only pages included, holds what the parent
    saw there at some moment of the fork.
  */
  lemma ForkCopiesAll(states: seq<State>, events: seq<Event>, e: nat, v: nat) returns (j: nat)
    requires IsRun(states, events) && Initial(states[0])
    requires ForkOf(states[|events|].fork, e).Scan? && ForkOf(states[|events|].fork, e).at == NPAGES
    requires v < NPAGES && v != XSTACK && v != PFTEMP && Slot(e, v) in states[|events|].pt
    ensures
      var t := states[|events|];
      var c := ForkOf(t.fork, e).child;
      && Slot(c, v) in t.pt
      && (t.pt[Slot(e, v)].share ==> t.pt[Slot(c, v)] == t.pt[Slot(e, v)])
      && (t.pt[Slot(c, v)].share && t.pt[Slot(c, v)].w ==> t.pt[Slot(c, v)] == t.pt[Slot(e, v)])
      && (!t.pt[Slot(c, v)].share ==> j <= |events| && Forking(states[j], e, c) && SeesSame(states[j], t, e, c, v))
  {
    var t := states[|events|];
    InitialInv(states[0]);
    RunCovered(states, events);
    assert Passed(ForkOf(t.fork, e), v);
    var p := t.pt[Slot(e, v)];
    j := 0;
    var c := ForkOf(t.fork, e).child;
    if !t.pt[Slot(c, v)].share { j := ForkSnapshot(states, events, e, c, v); }
  }

  /** Making the child runnable changes none of the pages it has got from its parent. */
  lemma FinishView(s: State, p: nat, a: Action, v: nat)
    requires Inv(s) && a.Finish? && Enabled(s, p, a) && HasUnshared(s, p, ForkOf(s.fork, p).child, v)
    ensures
      var s', y := Apply(s, p, a), Slot(ForkOf(s.fork, p).child, v);
      && Inv(s') && y.env in s'.running && y in s'.pt && !s'.pt[y].share && CopyOk(s', y.env)
      && Mapped(s, y.env, v) && Mapped(s', y.env, v) && View(s', y) == View(s, y)
  {
    var c := ForkOf(s.fork, p).child;
    StepKeeps(s, p, a);
    assert ForkOk(s, p) && FaultOk(s, c);
    StepFrame(s, p, a, Slot(c, v));
    StepView(s, p, a, Slot(c, v));
  }

  /**
    What fork means to the child: whatever anybody does after it was made runnable, at a page that it
    has unshared it sees what its parent saw there at some moment of the fork, until it stores to the
    page, allocates it or unmaps it itself. Event `n` is the one that makes it runnable.
  */
  lemma ChildSees(states: seq<State>, events: seq<Event>, n: nat, p: nat, c: nat, v: nat) returns (j: nat)
    requires IsRun(states, events) && Inv(states[0]) && ForkOf(states[0].fork, p).Idle?
    requires n < |events| && events[n].env == p && events[n].action.Finish? && v != PFTEMP
    requires HasUnshared(states[n], p, c, v)
    requires forall i {:trigger events[i]} :: n < i < |events| ==>
      events[i].env == c ==> !Touches(events[i].action, v)
    ensures j <= n && Forking(states[j], p, c) && SeesSame(states[j], states[|events|], p, c, v)
  {
    j := ForkSnapshot(states[..n + 1], events[..n], p, c, v);
    RunKeeps(states[..n + 1], events[..n]);
    FinishView(states[n], p, events[n].action, v);
    var later, rest := states[n + 1..], events[n + 1..];
    assert forall i {:trigger rest[i]} :: 0 <= i < |rest| ==> rest[i] == events[n + 1 + i];
    RunView(later, rest, Slot(c, v));
  }

  // ----- why duppage has the shape it has -----

  /** The four steps of pgfault, run through: the page is private and writable afterwards. */
  lemma WholeFault(s: State, e: nat, v: nat, page: nat) returns (states: seq<State>, events: seq<Event>)
    requires e in s.running && FaultOf(s.fault, e).NoFault? && v != PFTEMP && Mapped(s, e, v) && !s.pt[Slot(e, v)].w
    requires MayStore(s, e, v) && Free(s, page)
    ensures IsRun(states, events) && states[0] == s && |events| == 4
    ensures forall i :: 0 <= i < |events| ==> events[i].env == e && !events[i].action.Remark?
    ensures
      var t := states[|events|];
      && t.running == s.running && t.fork == s.fork && FaultOf(t.fault, e).NoFault?
      && Mapped(t, e, v) && t.pt[Slot(e, v)] == Pte(page, true, false, false)
      && View(t, Slot(e, v)) == View(s, Slot(e, v))
  {
    var s1 := Apply(s, e, FaultAlloc(v, page));
    var s2 := Apply(s1, e, FaultCopy);
    var s3 := Apply(s2, e, FaultMove);
    var s4 := Apply(s3, e, FaultUnmap);
    states := [s, s1, s2, s3, s4];
    events := [Event(e, FaultAlloc(v, page)), Event(e, FaultCopy), Event(e, FaultMove), Event(e, FaultUnmap)];
  }

  lemma RunOn(states: seq<State>, events: seq<Event>, e: nat, a: Action)
    requires IsRun(states, events) && Enabled(states[|events|], e, a)
    ensures IsRun(states + [Apply(states[|events|], e, a)], events + [Event(e, a)])
  {
    var states', events' := states + [Apply(states[|events|], e, a)], events + [Event(e, a)];
    forall i {:trigger events'[i]} | 0 <= i < |events'|
      ensures Enabled(states'[i], events'[i].env, events'[i].action) &&
              states'[i + 1] == Apply(states'[i], events'[i].env, events'[i].action)
    {
      if i < |events| { assert events'[i] == events[i]; }
    }
  }

  /**
    Marking our own entry copy-on-write is needed even when it was copy-on-write at the test: a fault
    between the test and the child's mapping leaves us with a writable page that the child then sees.
  */
  lemma RemarkNeeded(s: State, e: nat, c: nat, v: nat, page: nat, content: Content)
    returns (states: seq<State>, events: seq<Event>)
    requires Inv(s) && e in s.running && FaultOf(s.fault, e).NoFault?
    requires ForkOf(s.fork, e) == Chosen(c, v, Private)
    requires Mapped(s, e, v) && s.pt[Slot(e, v)].cow && !s.pt[Slot(e, v)].w
    requires Free(s, page)
    ensures IsRun(states, events) && states[0] == s
    ensures forall i :: 0 <= i < |events| ==> events[i].env == e && !events[i].action.Remark?
    ensures ForkOf(states[|events|].fork, e) == Half(c, v)
    ensures Mapped(states[|events|], c, v) && View(states[|events|], Slot(c, v)) == content
  {
    assert ForkOk(s, e);
    states, events := WholeFault(s, e, v, page);
    var s4 := states[4];
    var s5 := Apply(s4, e, MapChild);
    assert s5.pt[Slot(e, v)].w && s5.pt[Slot(c, v)].page == s5.pt[Slot(e, v)].page;
    var s6 := Apply(s5, e, Store(content, v));
    RunOn(states, events, e, MapChild);
    states, events := states + [s5], events + [Event(e, MapChild)];
    RunOn(states, events, e, Store(content, v));
    states, events := states + [s6], events + [Event(e, Store(content, v))];
  }

  /** A page found read-only must still be read-only when it is mapped, or the two entries alias a writable page. */
  lemma StillnessNeeded(s: State, e: nat)
    requires Enabled(s, e, MapChild) && ForkOf(s.fork, e).kind.ReadOnly? && ForkOf(s.fork, e).child != e
    requires s.pt[Slot(e, ForkOf(s.fork, e).at)].w
    ensures !Guarded(Apply(s, e, MapChild))
  {
    var f := ForkOf(s.fork, e);
    var s' := Apply(s, e, MapChild);
    assert s'.pt[Slot(e, f.at)].w && s'.pt[Slot(f.child, f.at)].page == s'.pt[Slot(e, f.at)].page;
  }
}
