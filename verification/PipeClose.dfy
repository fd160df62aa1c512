/**
  When is the other end of a pipe closed? A pipe is three pages: a descriptor page for each end,
  and the pipe page, mapped once beside every mapping of a descriptor. The test compares reference
  counts while other environments map and unmap these pages, one system call at a time, and while
  fork and spawn copy them to a child, page by page in address order.
*/
module PipeClose {

  /** Descriptor `fd` of environment `env`. */
  datatype Slot = Slot(env: int, fd: int)

  // The pages of the pipe; every other number is some other page.
  const RFD: int := 1
  const WFD: int := 2
  const PIPE: int := 3

  const MAXFD: int := 32

  /** What an environment is in the middle of. */
  datatype Doing =
    | Idle
    | Closing(fd: int)                    // descriptor page unmapped, data page not yet
    | DupClosing(src: int, fd: int)       // the same, for the target of dup
    | DupData(src: int, fd: int)          // about to map the data page
    | DupFd(src: int, fd: int)            // about to map the descriptor page
    | DupErr(fd: int)                     // a mapping failed, about to unmap the descriptor page
    | DupUndo(fd: int)                    // about to unmap the data page
    | Reading(fd: int, runs: int)                        // env_runs read
    | Comparing(fd: int, runs: int, refs: int)           // pageref(fd) read as well
    | Returning(fd: int, runs: int, refs: int, pipeRefs: int)  // and pageref(p)
    | Copying(child: int, at: int)        // fork or spawn: at < MAXFD descriptor pages, then the data pages

  datatype State = State(
    fdAt: map<Slot, int>,      // the descriptor page of each slot
    dataAt: map<Slot, int>,    // its data page
    doing: map<int, Doing>,    // the live environments
    runs: map<int, int>,       // their env_runs
    cur: int)                  // the environment on the processor

  predicate IsEnd(page: int) {
    page == RFD || page == WFD
  }

  function OtherEnd(page: int): int {
    if page == RFD then WFD else RFD
  }

  ghost function At(m: map<Slot, int>, page: int): set<Slot> {
    set s | s in m && m[s] == page
  }

  /** pageref of a descriptor page and of the pipe page. */
  ghost function FdRefs(s: State, page: int): nat {
    |At(s.fdAt, page)|
  }

  ghost function PipeRefs(s: State): nat {
    |At(s.dataAt, PIPE)|
  }

  ghost predicate HasEnd(s: State, l: Slot) {
    l in s.fdAt && IsEnd(s.fdAt[l])
  }

  ghost predicate HasPipe(s: State, l: Slot) {
    l in s.dataAt && s.dataAt[l] == PIPE
  }

  // ----- steps -----

  datatype Action =
    | Switch(env: int)             // env_run
    | Kill(env: int)               // env_destroy, by the running environment: everything is unmapped in one go
    | Close(fd: int)               // fd_close up to the first sys_page_unmap
    | CloseData                    // devpipe_close: the second
    | Dup(src: int, fd: int)       // dup: fd_lookup, and close of the target up to its first sys_page_unmap
    | MapData(ok: bool)            // dup: sys_page_map of the data page, which may fail
    | MapFd(ok: bool)              // dup: sys_page_map of the descriptor page
    | UndoFd                       // dup: the error path
    | UndoData
    | ReadRuns(fd: int)            // _pipeisclosed
    | ReadRefs
    | ReadPipeRefs
    | Return
    | Fork(child: int)             // fork or spawn: sys_exofork
    | CopyPage                     // the next page in address order, all descriptor pages before the data pages
    | Release                      // all pages copied: the child may run

  function Set(s: State, d: Doing): State {
    s.(doing := s.doing[s.cur := d])
  }

  ghost predicate Enabled(s: State, a: Action) {
    match a
    case Switch(e) => e in s.doing && e in s.runs
    case Kill(e) => e in s.doing && (e == s.cur || (s.cur in s.doing && s.doing[s.cur].Idle?))
    case Close(k) => s.cur in s.doing && s.doing[s.cur].Idle? && Slot(s.cur, k) in s.fdAt
    case CloseData => s.cur in s.doing && (s.doing[s.cur].Closing? || s.doing[s.cur].DupClosing?)
    case Dup(src, k) => s.cur in s.doing && s.doing[s.cur].Idle? && Slot(s.cur, src) in s.fdAt && 0 <= k < MAXFD
    case MapData(_) => s.cur in s.doing && s.doing[s.cur].DupData?
    case MapFd(ok) => s.cur in s.doing && s.doing[s.cur].DupFd? && (ok ==> Slot(s.cur, s.doing[s.cur].src) in s.fdAt)
    case UndoFd => s.cur in s.doing && s.doing[s.cur].DupErr?
    case UndoData => s.cur in s.doing && s.doing[s.cur].DupUndo?
    case ReadRuns(k) => s.cur in s.doing && s.cur in s.runs && s.doing[s.cur].Idle? && HasEnd(s, Slot(s.cur, k))
    case ReadRefs => s.cur in s.doing && s.doing[s.cur].Reading? && HasEnd(s, Slot(s.cur, s.doing[s.cur].fd))
    case ReadPipeRefs => s.cur in s.doing && s.doing[s.cur].Comparing?
    case Return => s.cur in s.doing && s.cur in s.runs && s.doing[s.cur].Returning?
    case Fork(c) => s.cur in s.doing && s.doing[s.cur].Idle? && Unused(s, c)
    case CopyPage => s.cur in s.doing && s.doing[s.cur].Copying? && s.doing[s.cur].at < 2 * MAXFD
    case Release => s.cur in s.doing && s.doing[s.cur].Copying? && s.doing[s.cur].at == 2 * MAXFD
  }

  /** No environment has this number, none is being made, and nothing is left of an earlier one. */
  ghost predicate Unused(s: State, c: int) {
    && c != NOBODY && c !in s.doing
    && (forall e :: e in s.doing && s.doing[e].Copying? ==> s.doing[e].child != c)
    && (forall l :: l in s.fdAt || l in s.dataAt ==> l.env != c)
  }

  /** The mapping at `from`, if there is one, is made at `to` as well. */
  function Copied(m: map<Slot, int>, from: Slot, to: Slot): map<Slot, int> {
    if from in m then m[to := m[from]] else m
  }

  const NOBODY: int := -1

  /** Every mapping of one environment. */
  ghost function Drop(m: map<Slot, int>, e: int): map<Slot, int> {
    map l | l in m && l.env != e :: m[l]
  }

  ghost function Next(s: State, a: Action): State
    requires Enabled(s, a)
  {
    match a
    case Switch(e) => if e == s.cur then s else s.(cur := e, runs := s.runs[e := s.runs[e] + 1])
    case Kill(e) =>
      s.(fdAt := Drop(s.fdAt, e), dataAt := Drop(s.dataAt, e), doing := s.doing - {e},
         cur := if e == s.cur then NOBODY else s.cur)
    case Close(k) =>
      var l := Slot(s.cur, k);
      Set(s.(fdAt := s.fdAt - {l}), if IsEnd(s.fdAt[l]) then Closing(k) else Idle)
    case CloseData =>
      var d := s.doing[s.cur];
      Set(s.(dataAt := s.dataAt - {Slot(s.cur, d.fd)}), if d.Closing? then Idle else DupData(d.src, d.fd))
    case Dup(src, k) =>
      var l := Slot(s.cur, k);
      Set(s.(fdAt := s.fdAt - {l}), if HasEnd(s, l) then DupClosing(src, k) else DupData(src, k))
    case MapData(ok) =>
      var d := s.doing[s.cur];
      var from, to := Slot(s.cur, d.src), Slot(s.cur, d.fd);
      if from !in s.dataAt then Set(s, DupFd(d.src, d.fd))
      else if ok then Set(s.(dataAt := s.dataAt[to := s.dataAt[from]]), DupFd(d.src, d.fd))
      else Set(s, DupErr(d.fd))
    case MapFd(ok) =>
      var d := s.doing[s.cur];
      var from, to := Slot(s.cur, d.src), Slot(s.cur, d.fd);
      if ok then Set(s.(fdAt := s.fdAt[to := s.fdAt[from]]), Idle) else Set(s, DupErr(d.fd))
    case UndoFd => Set(s.(fdAt := s.fdAt - {Slot(s.cur, s.doing[s.cur].fd)}), DupUndo(s.doing[s.cur].fd))
    case UndoData => Set(s.(dataAt := s.dataAt - {Slot(s.cur, s.doing[s.cur].fd)}), Idle)
    case ReadRuns(k) => Set(s, Reading(k, s.runs[s.cur]))
    case ReadRefs =>
      var d := s.doing[s.cur];
      Set(s, Comparing(d.fd, d.runs, FdRefs(s, s.fdAt[Slot(s.cur, d.fd)])))
    case ReadPipeRefs =>
      var d := s.doing[s.cur];
      Set(s, Returning(d.fd, d.runs, d.refs, PipeRefs(s)))
    case Return =>
      var d := s.doing[s.cur];
      Set(s, if d.runs == s.runs[s.cur] then Idle else Reading(d.fd, s.runs[s.cur]))
    case Fork(c) => Set(s, Copying(c, 0))
    case CopyPage =>
      var d := s.doing[s.cur];
      var k := if d.at < MAXFD then d.at else d.at - MAXFD;
      var from, to := Slot(s.cur, k), Slot(d.child, k);
      Set(if d.at < MAXFD then s.(fdAt := Copied(s.fdAt, from, to)) else s.(dataAt := Copied(s.dataAt, from, to)),
          Copying(d.child, d.at + 1))
    case Release =>
      var c := s.doing[s.cur].child;
      Set(s.(runs := s.runs[c := 0], doing := s.doing[c := Idle]), Idle)
  }

  // ----- the invariant -----

  /** The slot whose two mappings an environment is taking apart or putting together. */
  predicate InFlight(d: Doing, k: int) {
    match d
    case Closing(fd) => fd == k
    case DupClosing(_, fd) => fd == k
    case DupData(_, fd) => fd == k
    case DupFd(_, fd) => fd == k
    case DupErr(fd) => fd == k
    case DupUndo(fd) => fd == k
    case _ => false
  }

  /**
    In an environment that may run, no descriptor of the pipe without the pipe page. Outside a slot in
    flight, no pipe page without a descriptor.
  */
  ghost predicate SlotOk(s: State, l: Slot) {
    && (HasEnd(s, l) && l.env in s.doing ==> HasPipe(s, l))
    && (HasPipe(s, l) && !HasEnd(s, l) ==> l.env in s.doing && InFlight(s.doing[l.env], l.fd))
    && (l in s.fdAt || l in s.dataAt ==> 0 <= l.fd < MAXFD)
  }

  /** The mapping of `x` has been copied to `y` if `done`, and nothing is at `y` otherwise. */
  ghost predicate CopyAt(m: map<Slot, int>, x: Slot, y: Slot, done: bool) {
    (y in m <==> x in m && done) && (x in m && y in m ==> m[y] == m[x])
  }

  /** A child under construction has its parent's pages as far as the copying has come. */
  ghost predicate ChildOk(s: State, e: int, k: int) {
    e in s.doing && s.doing[e].Copying? ==>
      var d := s.doing[e];
      && d.child !in s.doing && d.child != NOBODY && 0 <= d.at
      && CopyAt(s.fdAt, Slot(e, k), Slot(d.child, k), k < d.at)
      && CopyAt(s.dataAt, Slot(e, k), Slot(d.child, k), MAXFD + k < d.at)
  }

  /** No two environments make the same child. */
  ghost predicate Siblings(s: State, e: int, d: int) {
    e != d && e in s.doing && d in s.doing && s.doing[e].Copying? && s.doing[d].Copying? ==>
      s.doing[e].child != s.doing[d].child
  }

  ghost predicate DoingOk(s: State, e: int) {
    e in s.doing ==>
      match s.doing[e]
      case Closing(k) => Slot(e, k) !in s.fdAt
      case DupClosing(_, k) => Slot(e, k) !in s.fdAt && 0 <= k < MAXFD
      case DupData(_, k) => Slot(e, k) !in s.fdAt && 0 <= k < MAXFD && !HasPipe(s, Slot(e, k))
      case DupFd(src, k) =>
        Slot(e, k) !in s.fdAt && 0 <= k < MAXFD && (HasEnd(s, Slot(e, src)) <==> HasPipe(s, Slot(e, k)))
      case DupErr(k) => Slot(e, k) !in s.fdAt
      case DupUndo(k) => Slot(e, k) !in s.fdAt
      case _ => true
  }

  ghost predicate Mapped(s: State) {
    && (forall l {:trigger SlotOk(s, l)} :: SlotOk(s, l))
    && (forall e {:trigger DoingOk(s, e)} :: DoingOk(s, e))
    && (forall e, k {:trigger ChildOk(s, e, k)} :: ChildOk(s, e, k))
    && (forall e, d {:trigger Siblings(s, e, d)} :: Siblings(s, e, d))
  }

  /** Outside slot `l` and what its environment is doing, nothing differs. */
  ghost predicate SameBut(s: State, s': State, l: Slot) {
    && (forall m {:trigger m in s'.fdAt} {:trigger m in s.fdAt} :: m != l ==> (m in s'.fdAt <==> m in s.fdAt))
    && (forall m {:trigger s'.fdAt[m]} :: m != l && m in s.fdAt && m in s'.fdAt ==> s'.fdAt[m] == s.fdAt[m])
    && (forall m {:trigger m in s'.dataAt} {:trigger m in s.dataAt} :: m != l ==> (m in s'.dataAt <==> m in s.dataAt))
    && (forall m {:trigger s'.dataAt[m]} :: m != l && m in s.dataAt && m in s'.dataAt ==> s'.dataAt[m] == s.dataAt[m])
    && (forall e {:trigger s'.doing[e]} :: e != l.env && e in s.doing ==> e in s'.doing && s'.doing[e] == s.doing[e])
    && (forall e {:trigger e in s'.doing} :: e in s'.doing <==> e in s.doing)
  }

  /** A step that touches one slot keeps the invariant if it keeps it there. */
  lemma LocalKeeps(s: State, s': State, l: Slot)
    requires Mapped(s) && SameBut(s, s', l) && l.env in s.doing && l.env in s'.doing
    requires forall k :: k != l.fd ==> !InFlight(s.doing[l.env], k)
    requires SlotOk(s', l) && DoingOk(s', l.env) && !s'.doing[l.env].Copying?
    ensures Mapped(s')
  {
    forall m {:trigger SlotOk(s', m)} ensures SlotOk(s', m) {
      assert SlotOk(s, m);
      if m != l { assert HasEnd(s', m) == HasEnd(s, m) && HasPipe(s', m) == HasPipe(s, m); }
    }
    forall e {:trigger DoingOk(s', e)} ensures DoingOk(s', e) {
      assert DoingOk(s, e);
    }
    forall e, k {:trigger ChildOk(s', e, k)} ensures ChildOk(s', e, k) {
      assert ChildOk(s, e, k);
    }
    forall e, d {:trigger Siblings(s', e, d)} ensures Siblings(s', e, d) {
      assert Siblings(s, e, d);
    }
  }

  lemma CloseMapped(s: State, k: int)
    requires Mapped(s) && Enabled(s, Close(k))
    ensures Mapped(Next(s, Close(k)))
  {
    var l := Slot(s.cur, k);
    assert SlotOk(s, l);
    LocalKeeps(s, Next(s, Close(k)), l);
  }

  lemma CloseDataMapped(s: State)
    requires Mapped(s) && Enabled(s, CloseData)
    ensures Mapped(Next(s, CloseData))
  {
    assert DoingOk(s, s.cur);
    LocalKeeps(s, Next(s, CloseData), Slot(s.cur, s.doing[s.cur].fd));
  }

  lemma DupMapped(s: State, src: int, k: int)
    requires Mapped(s) && Enabled(s, Dup(src, k))
    ensures Mapped(Next(s, Dup(src, k)))
  {
    var l := Slot(s.cur, k);
    assert SlotOk(s, l);
    LocalKeeps(s, Next(s, Dup(src, k)), l);
  }

  lemma MapDataMapped(s: State, ok: bool)
    requires Mapped(s) && Enabled(s, MapData(ok))
    ensures Mapped(Next(s, MapData(ok)))
  {
    var d := s.doing[s.cur];
    assert SlotOk(s, Slot(s.cur, d.src)) && SlotOk(s, Slot(s.cur, d.fd)) && DoingOk(s, s.cur);
    LocalKeeps(s, Next(s, MapData(ok)), Slot(s.cur, d.fd));
  }

  lemma MapFdMapped(s: State, ok: bool)
    requires Mapped(s) && Enabled(s, MapFd(ok))
    ensures Mapped(Next(s, MapFd(ok)))
  {
    var d := s.doing[s.cur];
    assert SlotOk(s, Slot(s.cur, d.src)) && SlotOk(s, Slot(s.cur, d.fd)) && DoingOk(s, s.cur);
    LocalKeeps(s, Next(s, MapFd(ok)), Slot(s.cur, d.fd));
  }

  lemma UndoMapped(s: State)
    requires Mapped(s)
    ensures Enabled(s, UndoFd) ==> Mapped(Next(s, UndoFd))
    ensures Enabled(s, UndoData) ==> Mapped(Next(s, UndoData))
  {
    assert DoingOk(s, s.cur);
    if Enabled(s, UndoFd) {
      var l := Slot(s.cur, s.doing[s.cur].fd);
      assert SlotOk(s, l);
      LocalKeeps(s, Next(s, UndoFd), l);
    }
    if Enabled(s, UndoData) {
      var l := Slot(s.cur, s.doing[s.cur].fd);
      LocalKeeps(s, Next(s, UndoData), l);
    }
  }

  lemma KillMapped(s: State, e: int)
    requires Mapped(s) && Enabled(s, Kill(e))
    ensures Mapped(Next(s, Kill(e)))
  {
    var s' := Next(s, Kill(e));
    forall m {:trigger SlotOk(s', m)} ensures SlotOk(s', m) {
      assert SlotOk(s, m);
    }
    forall f {:trigger DoingOk(s', f)} ensures DoingOk(s', f) {
      assert DoingOk(s, f);
    }
    forall f, k {:trigger ChildOk(s', f, k)} ensures ChildOk(s', f, k) {
      assert ChildOk(s, f, k);
    }
    forall f, d {:trigger Siblings(s', f, d)} ensures Siblings(s', f, d) {
      assert Siblings(s, f, d);
    }
  }

  /** Steps of the test, and switches, leave the mappings alone. */
  lemma TestMapped(s: State, a: Action)
    requires Mapped(s) && Enabled(s, a) && (a.Switch? || a.ReadRuns? || a.ReadRefs? || a.ReadPipeRefs? || a.Return?)
    ensures Mapped(Next(s, a))
  {
    var s' := Next(s, a);
    forall m {:trigger SlotOk(s', m)} ensures SlotOk(s', m) {
      assert SlotOk(s, m);
    }
    forall f {:trigger DoingOk(s', f)} ensures DoingOk(s', f) {
      assert DoingOk(s, f);
    }
    forall f, k {:trigger ChildOk(s', f, k)} ensures ChildOk(s', f, k) {
      assert ChildOk(s, f, k);
    }
    forall f, d {:trigger Siblings(s', f, d)} ensures Siblings(s', f, d) {
      assert Siblings(s, f, d);
    }
  }

  lemma ForkMapped(s: State, c: int)
    requires Mapped(s) && Enabled(s, Fork(c))
    ensures Mapped(Next(s, Fork(c)))
  {
    var s' := Next(s, Fork(c));
    forall m {:trigger SlotOk(s', m)} ensures SlotOk(s', m) {
      assert SlotOk(s, m);
    }
    forall f {:trigger DoingOk(s', f)} ensures DoingOk(s', f) {
      assert DoingOk(s, f);
    }
    forall f, k {:trigger ChildOk(s', f, k)} ensures ChildOk(s', f, k) {
      assert ChildOk(s, f, k) && SlotOk(s, Slot(f, k));
    }
    forall f, d {:trigger Siblings(s', f, d)} ensures Siblings(s', f, d) {
      assert Siblings(s, f, d);
    }
  }

  lemma CopyPageChildren(s: State, f: int, k: int)
    requires Mapped(s) && Enabled(s, CopyPage)
    ensures ChildOk(Next(s, CopyPage), f, k)
  {
    assert ChildOk(s, f, k) && ChildOk(s, s.cur, k) && Siblings(s, f, s.cur) && SlotOk(s, Slot(s.cur, k));
  }

  lemma CopyPageMapped(s: State)
    requires Mapped(s) && Enabled(s, CopyPage)
    ensures Mapped(Next(s, CopyPage))
  {
    var s' := Next(s, CopyPage);
    forall m {:trigger SlotOk(s', m)} ensures SlotOk(s', m) {
      assert SlotOk(s, m) && ChildOk(s, s.cur, m.fd) && SlotOk(s, Slot(s.cur, m.fd));
    }
    forall f {:trigger DoingOk(s', f)} ensures DoingOk(s', f) {
      assert DoingOk(s, f) && ChildOk(s, s.cur, 0);
    }
    forall f, k {:trigger ChildOk(s', f, k)} ensures ChildOk(s', f, k) {
      CopyPageChildren(s, f, k);
    }
    forall f, e {:trigger Siblings(s', f, e)} ensures Siblings(s', f, e) {
      assert Siblings(s, f, e);
    }
  }

  lemma ReleaseMapped(s: State)
    requires Mapped(s) && Enabled(s, Release)
    ensures Mapped(Next(s, Release))
  {
    var s' := Next(s, Release);
    forall m {:trigger SlotOk(s', m)} ensures SlotOk(s', m) {
      assert SlotOk(s, m) && ChildOk(s, s.cur, m.fd) && SlotOk(s, Slot(s.cur, m.fd));
    }
    forall f {:trigger DoingOk(s', f)} ensures DoingOk(s', f) {
      assert DoingOk(s, f);
    }
    forall f, k {:trigger ChildOk(s', f, k)} ensures ChildOk(s', f, k) {
      assert ChildOk(s, f, k) && Siblings(s, f, s.cur);
    }
    forall f, d {:trigger Siblings(s', f, d)} ensures Siblings(s', f, d) {
      assert Siblings(s, f, d);
    }
  }

  lemma StepMapped(s: State, a: Action)
    requires Mapped(s) && Enabled(s, a)
    ensures Mapped(Next(s, a))
  {
    match a
    case Kill(e) => KillMapped(s, e);
    case Close(k) => CloseMapped(s, k);
    case CloseData => CloseDataMapped(s);
    case Dup(src, k) => DupMapped(s, src, k);
    case MapData(ok) => MapDataMapped(s, ok);
    case MapFd(ok) => MapFdMapped(s, ok);
    case UndoFd => UndoMapped(s);
    case UndoData => UndoMapped(s);
    case Fork(c) => ForkMapped(s, c);
    case CopyPage => CopyPageMapped(s);
    case Release => ReleaseMapped(s);
    case _ => TestMapped(s, a);
  }

  // ----- the test -----

  /** As long as env_runs has not moved and the environment is running, what it read still holds. */
  ghost predicate ReadingOk(s: State, e: int) {
    e in s.doing && e in s.runs ==>
      match s.doing[e]
      case Reading(k, n) => n <= s.runs[e] && HasEnd(s, Slot(e, k))
      case Comparing(k, n, refs) =>
        && n <= s.runs[e] && HasEnd(s, Slot(e, k))
        && (s.cur == e && s.runs[e] == n ==> refs == FdRefs(s, s.fdAt[Slot(e, k)]))
      case Returning(k, n, refs, pipeRefs) =>
        && n <= s.runs[e] && HasEnd(s, Slot(e, k))
        && (s.cur == e && s.runs[e] == n ==> refs == FdRefs(s, s.fdAt[Slot(e, k)]) && pipeRefs == PipeRefs(s))
      case _ => true
  }

  ghost predicate Fair(s: State) {
    && s.doing.Keys <= s.runs.Keys && NOBODY !in s.doing
    && (forall e {:trigger ReadingOk(s, e)} :: ReadingOk(s, e))
  }

  /** What other environments do never touches this one's slots, and the processor is not here meanwhile. */
  lemma OthersFair(s: State, a: Action, e: int)
    requires Fair(s) && Enabled(s, a) && e != s.cur && e in Next(s, a).doing
    requires !(a.Fork? || a.CopyPage? || a.Release?)
    ensures ReadingOk(Next(s, a), e)
  {
    assert ReadingOk(s, e);
  }

  lemma ForksFair(s: State, a: Action, e: int)
    requires Mapped(s) && Fair(s) && Enabled(s, a) && e != s.cur && e in Next(s, a).doing
    requires a.Fork? || a.CopyPage? || a.Release?
    ensures ReadingOk(Next(s, a), e)
  {
    assert ReadingOk(s, e) && ChildOk(s, s.cur, 0);
  }

  lemma OwnFair(s: State, a: Action)
    requires Fair(s) && Enabled(s, a) && s.cur in Next(s, a).doing
    ensures ReadingOk(Next(s, a), s.cur)
  {
    assert ReadingOk(s, s.cur);
  }

  lemma StepFair(s: State, a: Action)
    requires Mapped(s) && Fair(s) && Enabled(s, a)
    ensures Fair(Next(s, a))
  {
    var s' := Next(s, a);
    assert ChildOk(s, s.cur, 0);
    forall e {:trigger ReadingOk(s', e)} ensures ReadingOk(s', e) {
      if e in s'.doing {
        if e == s.cur {
          OwnFair(s, a);
        } else if a.Fork? || a.CopyPage? || a.Release? {
          ForksFair(s, a, e);
        } else {
          OthersFair(s, a, e);
        }
      }
    }
  }

  // ----- what the test tells -----

  /** No descriptor is being opened or closed. */
  ghost predicate Quiet(s: State) {
    forall e, k :: e in s.doing ==> !InFlight(s.doing[e], k)
  }

  /** No child is being made. */
  ghost predicate NoneMade(s: State) {
    forall e :: e in s.doing ==> !s.doing[e].Copying?
  }

  /** The slots with a descriptor of the pipe but not the pipe page. */
  ghost function Bare(s: State): set<Slot> {
    set l | l in s.fdAt && HasEnd(s, l) && !HasPipe(s, l)
  }

  /** The slots with the pipe page but no descriptor of the pipe. */
  ghost function Loose(s: State): set<Slot> {
    set l | l in s.dataAt && HasPipe(s, l) && !HasEnd(s, l)
  }

  /** The reference counts differ by the slots that are only half mapped. */
  lemma Counts(s: State)
    ensures PipeRefs(s) + |Bare(s)| == FdRefs(s, RFD) + FdRefs(s, WFD) + |Loose(s)|
  {
    var r, w, p := At(s.fdAt, RFD), At(s.fdAt, WFD), At(s.dataAt, PIPE);
    var bare, loose := Bare(s), Loose(s);
    forall l ensures (l in p) == HasPipe(s, l) && (l in r + w) == HasEnd(s, l) {}
    forall l ensures (l in bare) == (HasEnd(s, l) && !HasPipe(s, l)) {}
    forall l ensures (l in loose) == (HasPipe(s, l) && !HasEnd(s, l)) {}
    Sizes(r, w, p, bare, loose);
  }

  lemma Sizes<T>(r: set<T>, w: set<T>, p: set<T>, bare: set<T>, loose: set<T>)
    requires r !! w && p !! bare && (r + w) !! loose
    requires forall l :: l in p || l in bare <==> l in r + w || l in loose
    ensures |p| + |bare| == |r| + |w| + |loose|
  {
    assert p + bare == (r + w) + loose;
    assert |r + w| == |r| + |w|;
    assert |p + bare| == |p| + |bare|;
  }

  /** Where half-mapped slots can be. */
  lemma Halves(s: State)
    requires Mapped(s)
    ensures forall l :: l in Bare(s) ==> l.env !in s.doing
    ensures forall l :: l in Loose(s) ==> l.env in s.doing && InFlight(s.doing[l.env], l.fd)
    ensures Quiet(s) ==> Loose(s) == {}
  {
    forall l | l in Bare(s) ensures l.env !in s.doing { assert SlotOk(s, l); }
    forall l | l in Loose(s) ensures l.env in s.doing && InFlight(s.doing[l.env], l.fd) { assert SlotOk(s, l); }
  }

  /** All mappings are complete and nobody is in the middle of anything. */
  ghost predicate Start(s: State) {
    && s.doing.Keys <= s.runs.Keys && NOBODY !in s.doing
    && (forall e :: e in s.doing ==> s.doing[e].Idle?)
    && (forall l {:trigger HasEnd(s, l)} {:trigger HasPipe(s, l)} :: HasEnd(s, l) <==> HasPipe(s, l))
    && (forall l :: l in s.fdAt || l in s.dataAt ==> 0 <= l.fd < MAXFD)
  }

  ghost function Run(s: State, acts: seq<Action>): (r: State)
    requires IsRun(s, acts)
    decreases |acts|
  {
    if acts == [] then s else Run(Next(s, acts[0]), acts[1..])
  }

  ghost predicate IsRun(s: State, acts: seq<Action>)
    decreases |acts|
  {
    acts == [] || (Enabled(s, acts[0]) && IsRun(Next(s, acts[0]), acts[1..]))
  }

  lemma {:induction false} RunKeeps(s: State, acts: seq<Action>)
    requires Mapped(s) && Fair(s) && IsRun(s, acts)
    ensures Mapped(Run(s, acts)) && Fair(Run(s, acts))
    decreases |acts|
  {
    if acts != [] {
      StepFair(s, acts[0]);
      StepMapped(s, acts[0]);
      RunKeeps(Next(s, acts[0]), acts[1..]);
    }
  }

  /**
    In every state of every run: the pipe-page references are the descriptor references but for the
    half-mapped slots; a bare descriptor is in a child that may not run yet or never will, a pipe page
    alone is in a slot that its environment is opening or closing.
  */
  lemma RunCounts(s: State, acts: seq<Action>)
    requires Start(s) && IsRun(s, acts)
    ensures
      var r := Run(s, acts);
      && PipeRefs(r) + |Bare(r)| == FdRefs(r, RFD) + FdRefs(r, WFD) + |Loose(r)|
      && (forall l :: l in Bare(r) ==> l.env !in r.doing)
      && (forall l :: l in Loose(r) ==> l.env in r.doing && InFlight(r.doing[l.env], l.fd))
  {
    Starting(s);
    RunKeeps(s, acts);
    Counts(Run(s, acts));
    Halves(Run(s, acts));
  }

  lemma Starting(s: State)
    requires Start(s)
    ensures Mapped(s) && Fair(s)
  {
    forall l {:trigger SlotOk(s, l)} ensures SlotOk(s, l) {}
  }

  /** The value _pipeisclosed is about to return, if the counter has not moved. */
  ghost predicate Returns(s: State, closed: bool) {
    && s.cur in s.doing && s.cur in s.runs && s.doing[s.cur].Returning?
    && s.doing[s.cur].runs == s.runs[s.cur] && closed == (s.doing[s.cur].refs == s.doing[s.cur].pipeRefs)
  }

  /** The descriptors of the end that the caller of _pipeisclosed does not hold. */
  ghost function OtherRefs(s: State): nat
    requires s.cur in s.doing && s.doing[s.cur].Returning? && HasEnd(s, Slot(s.cur, s.doing[s.cur].fd))
  {
    FdRefs(s, OtherEnd(s.fdAt[Slot(s.cur, s.doing[s.cur].fd)]))
  }

  /**
    In every run, forks included: _pipeisclosed says "closed" exactly when the other end's descriptors
    and the loose pipe pages make up for the bare descriptors.
  */
  lemma ReturnsExactly(s: State, acts: seq<Action>, closed: bool)
    requires Start(s) && IsRun(s, acts) && Returns(Run(s, acts), closed)
    ensures
      var r := Run(s, acts);
      && HasEnd(r, Slot(r.cur, r.doing[r.cur].fd))
      && (closed <==> OtherRefs(r) + |Loose(r)| == |Bare(r)|)
      && (Quiet(r) ==> Loose(r) == {})
  {
    Starting(s);
    RunKeeps(s, acts);
    var r := Run(s, acts);
    Counts(r);
    Halves(r);
    assert ReadingOk(r, r.cur);
  }

  /**
    In every run, as long as no descriptor is without its pipe page: "closed" means that no descriptor
    of the other end is mapped anywhere, and "open", while no descriptor is being opened or closed,
    that one is. And only then: while no descriptor is being opened or closed, a right "closed" means
    that no descriptor is without its pipe page.
  */
  lemma ClosedMeansClosed(s: State, acts: seq<Action>, closed: bool)
    requires Start(s) && IsRun(s, acts) && Returns(Run(s, acts), closed)
    ensures
      var r := Run(s, acts);
      && HasEnd(r, Slot(r.cur, r.doing[r.cur].fd))
      && (Bare(r) == {} && closed ==> OtherRefs(r) == 0)
      && (Bare(r) == {} && !closed && Quiet(r) ==> OtherRefs(r) > 0)
      && (closed ==> (OtherRefs(r) == 0 <==> |Bare(r)| == |Loose(r)|))
      && (closed && Quiet(r) ==> (OtherRefs(r) == 0 <==> Bare(r) == {}))
  {
    ReturnsExactly(s, acts, closed);
  }

  // ----- forks -----

  /** Every bare descriptor is in a child that some environment is still making. */
  ghost predicate Attended(s: State) {
    forall l {:trigger l in Bare(s)} :: l in Bare(s) ==>
      exists e :: e in s.doing && s.doing[e].Copying? && s.doing[e].child == l.env
  }

  /** No step kills an environment in the middle of a fork. */
  ghost predicate Spared(s: State, acts: seq<Action>)
    requires IsRun(s, acts)
    decreases |acts|
  {
    acts != [] ==>
      && (acts[0].Kill? ==> !s.doing[acts[0].env].Copying?)
      && Spared(Next(s, acts[0]), acts[1..])
  }

  /** A bare descriptor after a step was one before, or is the page just copied. */
  lemma BareBefore(s: State, a: Action, l: Slot)
    requires Mapped(s) && Enabled(s, a) && Mapped(Next(s, a)) && l in Bare(Next(s, a))
    ensures l.env !in Next(s, a).doing
    ensures l in Bare(s) || (a.CopyPage? && l.env == s.doing[s.cur].child)
  {
    Halves(Next(s, a));
  }

  /** A fork goes on until its child may run or its environment is killed. */
  lemma StillMaking(s: State, a: Action, e: int)
    requires Mapped(s) && Enabled(s, a)
    requires e in s.doing && s.doing[e].Copying? && s.doing[e].child !in Next(s, a).doing
    requires a.Kill? ==> !s.doing[a.env].Copying?
    ensures
      var s' := Next(s, a);
      e in s'.doing && s'.doing[e].Copying? && s'.doing[e].child == s.doing[e].child
  {
    assert ChildOk(s, s.cur, 0);
  }

  lemma StepAttended(s: State, a: Action)
    requires Mapped(s) && Enabled(s, a) && Attended(s) && (a.Kill? ==> !s.doing[a.env].Copying?)
    ensures Attended(Next(s, a))
  {
    StepMapped(s, a);
    var s' := Next(s, a);
    forall l {:trigger l in Bare(s')} | l in Bare(s')
      ensures exists e :: e in s'.doing && s'.doing[e].Copying? && s'.doing[e].child == l.env
    {
      BareBefore(s, a, l);
      if a.CopyPage? && l.env == s.doing[s.cur].child {
        assert s'.doing[s.cur].Copying?;
      } else {
        var e :| e in s.doing && s.doing[e].Copying? && s.doing[e].child == l.env;
        StillMaking(s, a, e);
      }
    }
  }

  lemma {:induction false} RunAttended(s: State, acts: seq<Action>)
    requires Mapped(s) && Attended(s) && IsRun(s, acts) && Spared(s, acts)
    ensures Attended(Run(s, acts))
    decreases |acts|
  {
    if acts != [] {
      StepAttended(s, acts[0]);
      StepMapped(s, acts[0]);
      RunAttended(Next(s, acts[0]), acts[1..]);
    }
  }

  /**
    In every run that kills nobody in the middle of a fork, "closed" is right whenever no fork is
    under way, however many forks the run has completed.
  */
  lemma ClosedBetweenForks(s: State, acts: seq<Action>)
    requires Start(s) && IsRun(s, acts) && Spared(s, acts)
    requires Returns(Run(s, acts), true) && NoneMade(Run(s, acts))
    ensures
      var r := Run(s, acts);
      HasEnd(r, Slot(r.cur, r.doing[r.cur].fd)) && OtherRefs(r) == 0
  {
    var r := Run(s, acts);
    Starting(s);
    assert Bare(s) == {};
    RunAttended(s, acts);
    assert Bare(r) == {} by {
      if l :| l in Bare(r) { assert false; }
    }
    ClosedMeansClosed(s, acts, true);
  }

  /** The two counts read are equal although the other end is open. */
  ghost predicate Stale(s: State) {
    && s.cur in s.doing && s.doing[s.cur].Returning? && HasEnd(s, Slot(s.cur, s.doing[s.cur].fd))
    && s.doing[s.cur].refs == s.doing[s.cur].pipeRefs && OtherRefs(s) > 0
  }

  lemma RunCons(s: State, a: Action, rest: seq<Action>)
    requires Enabled(s, a) && IsRun(Next(s, a), rest)
    ensures IsRun(s, [a] + rest) && Run(s, [a] + rest) == Run(Next(s, a), rest)
  {
    assert ([a] + rest)[1..] == rest;
  }

  /** Two readers, environments 1 and 3, and a writer, environment 2; the first reader runs. */
  ghost function TwoReaders(): State {
    var idle := map[1 := Idle, 2 := Idle, 3 := Idle];
    State(map[Slot(1, 0) := RFD, Slot(2, 0) := WFD, Slot(3, 0) := RFD],
          map[Slot(1, 0) := PIPE, Slot(2, 0) := PIPE, Slot(3, 0) := PIPE], idle, map[1 := 1, 2 := 1, 3 := 1], 1)
  }

  /** The first reader has read its own count, and the second is about to run. */
  ghost function HalfWay(): State {
    TwoReaders().(doing := map[1 := Comparing(0, 1, 2), 2 := Idle, 3 := Idle], cur := 3,
                  runs := map[1 := 1, 2 := 1, 3 := 2])
  }

  lemma FirstHalf(rest: seq<Action>)
    requires IsRun(HalfWay(), rest)
    ensures
      var acts := [ReadRuns(0)] + ([ReadRefs] + ([Switch(3)] + rest));
      IsRun(TwoReaders(), acts) && Run(TwoReaders(), acts) == Run(HalfWay(), rest)
  {
    var s0 := TwoReaders();
    var s1 := Next(s0, ReadRuns(0));
    assert At(s1.fdAt, RFD) == {Slot(1, 0), Slot(3, 0)} && FdRefs(s1, RFD) == 2;
    var s2 := Next(s1, ReadRefs);
    assert Next(s2, Switch(3)) == HalfWay();
    RunCons(s2, Switch(3), rest);
    RunCons(s1, ReadRefs, [Switch(3)] + rest);
    RunCons(s0, ReadRuns(0), [ReadRefs] + ([Switch(3)] + rest));
  }

  lemma SecondHalf() returns (acts: seq<Action>)
    ensures IsRun(HalfWay(), acts) && Stale(Run(HalfWay(), acts))
  {
    var s3 := HalfWay();
    var s4 := Next(s3, Close(0));
    var s5 := Next(s4, CloseData);
    var s6 := Next(s5, Switch(1));
    assert At(s6.dataAt, PIPE) == {Slot(1, 0), Slot(2, 0)} && PipeRefs(s6) == 2;
    var s7 := Next(s6, ReadPipeRefs);
    assert At(s7.fdAt, WFD) == {Slot(2, 0)} && FdRefs(s7, WFD) == 1;
    RunCons(s6, ReadPipeRefs, []);
    RunCons(s5, Switch(1), [ReadPipeRefs] + []);
    RunCons(s4, CloseData, [Switch(1)] + ([ReadPipeRefs] + []));
    RunCons(s3, Close(0), [CloseData] + ([Switch(1)] + ([ReadPipeRefs] + [])));
    acts := [Close(0)] + ([CloseData] + ([Switch(1)] + ([ReadPipeRefs] + [])));
  }

  /**
    Without the second look at env_runs the test would be wrong: between the two reads of a reader,
    another reader closes its descriptor, and the counts agree although the writer is there.
  */
  lemma RecheckNeeded()
    ensures exists s, acts :: Start(s) && IsRun(s, acts) && Stale(Run(s, acts))
  {
    var rest := SecondHalf();
    FirstHalf(rest);
    TwoReadersStart();
  }

  lemma TwoReadersStart()
    ensures Start(TwoReaders())
  {
  }

  /** A reader, environment 1, and environment 3 with both ends, which runs and is about to fork. */
  ghost function BeforeFork(): State {
    State(map[Slot(1, 0) := RFD, Slot(3, 0) := RFD, Slot(3, 1) := WFD],
          map[Slot(1, 0) := PIPE, Slot(3, 0) := PIPE, Slot(3, 1) := PIPE],
          map[1 := Idle, 3 := Idle], map[1 := 1, 3 := 1], 3)
  }

  /** The child, environment 4, has got the read descriptor and nothing else, and the reader runs. */
  ghost function AmidFork(): State {
    State(map[Slot(1, 0) := RFD, Slot(3, 0) := RFD, Slot(3, 1) := WFD, Slot(4, 0) := RFD],
          BeforeFork().dataAt, map[1 := Idle, 3 := Copying(4, 1)], map[1 := 2, 3 := 1], 1)
  }

  lemma ForkStarts(rest: seq<Action>)
    requires IsRun(AmidFork(), rest)
    ensures
      var acts := [Fork(4)] + ([CopyPage] + ([Switch(1)] + rest));
      IsRun(BeforeFork(), acts) && Run(BeforeFork(), acts) == Run(AmidFork(), rest)
  {
    var s0 := BeforeFork();
    var s1 := Next(s0, Fork(4));
    var s2 := Next(s1, CopyPage);
    assert Next(s2, Switch(1)) == AmidFork();
    RunCons(s2, Switch(1), rest);
    RunCons(s1, CopyPage, [Switch(1)] + rest);
    RunCons(s0, Fork(4), [CopyPage] + ([Switch(1)] + rest));
  }

  lemma ReaderAsks() returns (acts: seq<Action>)
    ensures IsRun(AmidFork(), acts) && Returns(Run(AmidFork(), acts), true) && Stale(Run(AmidFork(), acts))
  {
    var s3 := AmidFork();
    var s4 := Next(s3, ReadRuns(0));
    assert At(s4.fdAt, RFD) == {Slot(1, 0), Slot(3, 0), Slot(4, 0)} && FdRefs(s4, RFD) == 3;
    var s5 := Next(s4, ReadRefs);
    assert At(s5.dataAt, PIPE) == {Slot(1, 0), Slot(3, 0), Slot(3, 1)} && PipeRefs(s5) == 3;
    var s6 := Next(s5, ReadPipeRefs);
    assert At(s6.fdAt, WFD) == {Slot(3, 1)} && FdRefs(s6, WFD) == 1;
    RunCons(s5, ReadPipeRefs, []);
    RunCons(s4, ReadRefs, [ReadPipeRefs] + []);
    RunCons(s3, ReadRuns(0), [ReadRefs] + ([ReadPipeRefs] + []));
    acts := [ReadRuns(0)] + ([ReadRefs] + ([ReadPipeRefs] + []));
  }

  /**
    fork and spawn map a descriptor page before the pipe page, and this does break the test: a reader
    that asks in between is told that the other end is closed, although env_runs has not moved and the
    forking environment holds the write end.
  */
  lemma OrderMatters()
    ensures exists s, acts :: Start(s) && IsRun(s, acts) && Returns(Run(s, acts), true) && Stale(Run(s, acts))
  {
    var rest := ReaderAsks();
    ForkStarts(rest);
    BeforeForkStart();
  }

  lemma BeforeForkStart()
    ensures Start(BeforeFork())
  {
  }
}
