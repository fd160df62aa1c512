/**
  The ring buffer of a pipe between one reader and one writer. The two run interleaved, preempted
  at any point: each test, each copy of a byte and each increment of a position is a step.
*/
module PipeFifo {

  const BUFSIZ: int := 32
  const MAX_POS: int := 0x7fff_ffff   // positions are 32-bit signed integers

  datatype Writer = WTest | WRoom | WStored(byte: int)
  datatype Reader = RTest | RByte | RTaken

  datatype State = State(
    rpos: int, wpos: int, buf: seq<int>,
    writer: Writer, reader: Reader,
    stored: seq<int>,   // every byte the writer has put in, in order
    taken: seq<int>)    // every byte the reader has taken out, in order

  datatype Action = SeeRoom | StoreByte(byte: int) | BumpW | SeeByte | TakeByte | BumpR

  ghost predicate Enabled(s: State, a: Action) {
    |s.buf| == BUFSIZ && 0 <= s.rpos <= MAX_POS && 0 <= s.wpos <= MAX_POS &&
    match a
    case SeeRoom => s.writer.WTest? && !(s.wpos >= s.rpos + BUFSIZ)
    case StoreByte(_) => s.writer.WRoom?
    case BumpW => s.writer.WStored? && s.wpos < MAX_POS
    case SeeByte => s.reader.RTest? && s.rpos != s.wpos
    case TakeByte => s.reader.RByte?
    case BumpR => s.reader.RTaken? && s.rpos < MAX_POS
  }

  ghost function Next(s: State, a: Action): State
    requires Enabled(s, a)
  {
    match a
    case SeeRoom => s.(writer := WRoom)
    case StoreByte(b) => s.(buf := s.buf[s.wpos % BUFSIZ := b], writer := WStored(b))
    case BumpW => s.(wpos := s.wpos + 1, writer := WTest, stored := s.stored + [s.writer.byte])
    case SeeByte => s.(reader := RByte)
    case TakeByte => s.(taken := s.taken + [s.buf[s.rpos % BUFSIZ]], reader := RTaken)
    case BumpR => s.(rpos := s.rpos + 1, reader := RTest)
  }

  /** What lies between the positions is what was stored and not yet read. */
  ghost predicate Window(s: State) {
    && |s.buf| == BUFSIZ && 0 <= s.rpos <= s.wpos <= s.rpos + BUFSIZ && s.wpos == |s.stored| <= MAX_POS
    && forall i :: s.rpos <= i < s.wpos ==> s.buf[i % BUFSIZ] == s.stored[i]
  }

  ghost predicate Inv(s: State) {
    && Window(s)
    && (!s.writer.WTest? ==> s.wpos < s.rpos + BUFSIZ)
    && (s.writer.WStored? ==> s.buf[s.wpos % BUFSIZ] == s.writer.byte)
    && (!s.reader.RTest? ==> s.rpos < s.wpos)
    && s.taken == s.stored[..if s.reader.RTaken? then s.rpos + 1 else s.rpos]
  }

  /** Positions less than a buffer apart have slots of their own. */
  lemma OwnSlot(i: int, j: int)
    requires i < j < i + BUFSIZ
    ensures i % BUFSIZ != j % BUFSIZ
  {
  }

  lemma StoreKeeps(s: State, b: int)
    requires Inv(s) && Enabled(s, StoreByte(b))
    ensures Inv(Next(s, StoreByte(b)))
  {
    var s' := Next(s, StoreByte(b));
    forall i | s.rpos <= i < s.wpos ensures s'.buf[i % BUFSIZ] == s'.stored[i] {
      OwnSlot(i, s.wpos);
    }
  }

  lemma StepKeeps(s: State, a: Action)
    requires Inv(s) && Enabled(s, a)
    ensures Inv(Next(s, a))
  {
    match a
    case StoreByte(b) => StoreKeeps(s, b);
    case BumpW =>
      var s' := Next(s, a);
      forall i | s'.rpos <= i < s'.wpos ensures s'.buf[i % BUFSIZ] == s'.stored[i] {}
    case _ =>
  }

  // ----- runs -----

  ghost predicate Start(s: State) {
    |s.buf| == BUFSIZ && s.rpos == s.wpos == 0 && s.writer.WTest? && s.reader.RTest? && s.stored == s.taken == []
  }

  ghost predicate IsRun(s: State, acts: seq<Action>)
    decreases |acts|
  {
    acts == [] || (Enabled(s, acts[0]) && IsRun(Next(s, acts[0]), acts[1..]))
  }

  ghost function Run(s: State, acts: seq<Action>): (r: State)
    requires IsRun(s, acts)
    decreases |acts|
  {
    if acts == [] then s else Run(Next(s, acts[0]), acts[1..])
  }

  lemma {:induction false} RunKeeps(s: State, acts: seq<Action>)
    requires Inv(s) && IsRun(s, acts)
    ensures Inv(Run(s, acts))
    decreases |acts|
  {
    if acts != [] {
      StepKeeps(s, acts[0]);
      RunKeeps(Next(s, acts[0]), acts[1..]);
    }
  }

  /** The bytes the writer was asked to write, as far as it got. */
  function Written(acts: seq<Action>): seq<int> {
    if acts == [] then [] else (if acts[0].StoreByte? then [acts[0].byte] else []) + Written(acts[1..])
  }

  /** What has been put into the ring, the byte whose position is not yet counted included. */
  function Pending(s: State): seq<int> {
    if s.writer.WStored? then s.stored + [s.writer.byte] else s.stored
  }

  /** A run puts in what the writer wrote, in order. */
  lemma {:induction false} RunStores(s: State, acts: seq<Action>)
    requires IsRun(s, acts)
    ensures Pending(Run(s, acts)) == Pending(s) + Written(acts)
    decreases |acts|
  {
    if acts != [] {
      var s' := Next(s, acts[0]);
      RunStores(s', acts[1..]);
      var w := if acts[0].StoreByte? then [acts[0].byte] else [];
      assert Pending(s') == Pending(s) + w;
      assert (Pending(s) + w) + Written(acts[1..]) == Pending(s) + (w + Written(acts[1..]));
    }
  }

  /**
    For every interleaving: the reader is never ahead of the writer nor more than a buffer behind,
    the window holds exactly the unread bytes, and what the reader has is a prefix of what the writer wrote.
  */
  lemma Fifo(s: State, acts: seq<Action>)
    requires Start(s) && IsRun(s, acts)
    ensures
      var r := Run(s, acts);
      && 0 <= r.wpos - r.rpos <= BUFSIZ
      && Window(r)
      && r.taken <= r.stored <= Written(acts)
      && |Written(acts)| - |r.taken| <= BUFSIZ + 1
  {
    RunKeeps(s, acts);
    RunStores(s, acts);
    assert Pending(s) + Written(acts) == Written(acts);
  }

  /**
    Why the position moves only after the byte is taken: had the reader of a full ring moved first,
    the writer could see room and overwrite the very byte.
  */
  lemma MovingFirstLoses(s: State, b: int)
    requires Inv(s) && s.wpos == s.rpos + BUFSIZ && s.writer.WTest? && s.reader.RByte? && s.wpos < MAX_POS
    requires b != s.stored[s.rpos]
    ensures
      var early := s.(rpos := s.rpos + 1);
      && Enabled(early, SeeRoom) && Enabled(Next(early, SeeRoom), StoreByte(b))
      && Next(Next(early, SeeRoom), StoreByte(b)).buf[s.rpos % BUFSIZ] != s.stored[s.rpos]
  {
    assert s.wpos % BUFSIZ == s.rpos % BUFSIZ;
  }
}
