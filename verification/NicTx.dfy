/**
  The transmit ring of the e1000 driver as a protocol between driver and hardware. The driver
  hands out descriptors by moving TDT; the hardware fetches them by moving TDH, reads and sends
  the buffers, and writes back the done bit. Hardware steps fall anywhere between driver steps.
  How the hardware works is taken from section 3.4 of the Intel PCI/PCI-X Family of Gigabit
  Ethernet Controllers Software Developer's Manual.
*/
module NicTx {
  import opened Ring

  const MAX_PACKET: int := 1518

  type Packet = seq<int>

  /** Where the driver is inside e1000_tx. */
  datatype Driver =
    | Ready
    | Free(packet: Packet)      // the next descriptor passed both tests
    | Copied(packet: Packet)    // buffer and length are written
    | Cleared(packet: Packet)   // the done bit is cleared as well

  datatype State = State(
    tdt: int, tdh: int,
    dd: seq<bool>, bufs: seq<Packet>,   // the done bit of each descriptor, and the packet in its buffer
    driver: Driver,
    accepted: seq<Packet>,              // packets e1000_tx has taken, in order
    sent: seq<Packet>,                  // packets on the wire, in order
    fetched: int, done: int)            // how many descriptors were fetched and written back

  datatype Result = Invalid | Again | Length(len: int)

  datatype Action =
    | Test(packet: Packet)  // e1000_tx up to the tests
    | Copy                  // memcpy and length
    | Clear                 // clear the done bit
    | Publish               // move TDT and return
    | Fetch                 // hardware: take the descriptor at TDH
    | Send                  // hardware: send the buffer of the oldest fetched descriptor
    | WriteBack             // hardware: set the done bit of the oldest sent descriptor

  /** What e1000_tx returns, if it returns at once; Length means that the packet goes into the ring. */
  ghost function Answer(s: State, packet: Packet): Result
    requires |s.dd| == N && 0 <= s.tdt < N
  {
    if |packet| > MAX_PACKET then Invalid
    else if (s.tdt + 1) % N == s.tdh then Again
    else if !s.dd[s.tdt % N] then Again
    else Length(|packet|)
  }

  ghost predicate Shape(s: State) {
    |s.dd| == N && |s.bufs| == N && 0 <= s.tdt < N && 0 <= s.tdh < N && 0 <= s.done && 0 <= s.fetched
  }

  ghost predicate Enabled(s: State, a: Action) {
    Shape(s) &&
    match a
    case Test(p) => s.driver.Ready?
    case Copy => s.driver.Free?
    case Clear => s.driver.Copied?
    case Publish => s.driver.Cleared?
    case Fetch => s.tdh != s.tdt
    case Send => |s.sent| < s.fetched
    case WriteBack => s.done < |s.sent|
  }

  ghost function Next(s: State, a: Action): State
    requires Enabled(s, a)
  {
    match a
    case Test(p) => if Answer(s, p).Length? then s.(driver := Free(p)) else s
    case Copy => s.(bufs := s.bufs[s.tdt := s.driver.packet], driver := Copied(s.driver.packet))
    case Clear => s.(dd := s.dd[s.tdt := false], driver := Cleared(s.driver.packet))
    case Publish => s.(tdt := (s.tdt + 1) % N, accepted := s.accepted + [s.driver.packet], driver := Ready)
    case Fetch => s.(tdh := (s.tdh + 1) % N, fetched := s.fetched + 1)
    case Send => s.(sent := s.sent + [s.bufs[|s.sent| % N]])
    case WriteBack => s.(dd := s.dd[s.done % N := true], done := s.done + 1)
  }

  // ----- the invariant -----

  /** Written back, sent, fetched, accepted: each is at most the next, and the ring holds what lies between. */
  ghost predicate Ordered(s: State) {
    && 0 <= s.done <= |s.sent| <= s.fetched <= |s.accepted| <= s.done + N && |s.accepted| < s.fetched + N
    && s.tdt == |s.accepted| % N && s.tdh == s.fetched % N
  }

  /** The done bit is clear exactly for the descriptors handed out and not written back. */
  ghost predicate Bits(s: State)
    requires |s.dd| == N
  {
    && (forall k {:trigger s.dd[k % N]} :: s.done <= k < |s.accepted| ==> !s.dd[k % N])
    && (forall k {:trigger s.dd[k % N]} :: |s.accepted| < k < s.done + N ==> s.dd[k % N])
    && (|s.accepted| < s.done + N ==> (s.dd[|s.accepted| % N] <==> !s.driver.Cleared?))
  }

  /** A buffer keeps its packet until the descriptor is written back. */
  ghost predicate Buffers(s: State)
    requires |s.bufs| == N
  {
    forall k {:trigger s.accepted[k]} :: 0 <= k && s.done <= k < |s.accepted| ==> s.bufs[k % N] == s.accepted[k]
  }

  ghost predicate Inv(s: State) {
    && Shape(s) && Ordered(s) && Bits(s) && Buffers(s)
    && s.sent == s.accepted[..|s.sent|]
    && (!s.driver.Ready? ==>
          |s.accepted| < s.done + N && |s.accepted| + 1 < s.fetched + N && |s.driver.packet| <= MAX_PACKET)
    && (s.driver.Copied? || s.driver.Cleared? ==> s.bufs[s.tdt] == s.driver.packet)
  }

  lemma TestKeeps(s: State, p: Packet)
    requires Inv(s) && Enabled(s, Test(p))
    ensures Inv(Next(s, Test(p)))
  {
    Around(|s.accepted|);
    Around(s.fetched);
    Around(s.done);
    assert s.done < |s.accepted| ==> !s.dd[s.done % N];
  }

  lemma CopyKeeps(s: State)
    requires Inv(s) && Enabled(s, Copy)
    ensures Inv(Next(s, Copy))
  {
    var s' := Next(s, Copy);
    forall k {:trigger s'.accepted[k]} | s.done <= k < |s.accepted| ensures s'.bufs[k % N] == s'.accepted[k] {
      OwnSlot(k, |s.accepted|);
      assert s.bufs[k % N] == s.accepted[k];
    }
  }

  lemma ClearKeeps(s: State)
    requires Inv(s) && Enabled(s, Clear)
    ensures Inv(Next(s, Clear))
  {
    var s' := Next(s, Clear);
    forall k {:trigger s'.dd[k % N]} | s.done <= k < |s.accepted| ensures !s'.dd[k % N] {
      OwnSlot(k, |s.accepted|);
    }
    forall k {:trigger s'.dd[k % N]} | |s.accepted| < k < s.done + N ensures s'.dd[k % N] {
      OwnSlot(|s.accepted|, k);
    }
  }

  lemma PublishKeeps(s: State)
    requires Inv(s) && Enabled(s, Publish)
    ensures Inv(Next(s, Publish))
  {
    var s' := Next(s, Publish);
    Around(|s.accepted|);
    forall k {:trigger s'.dd[k % N]} | s'.done <= k < |s'.accepted| ensures !s'.dd[k % N] {}
    forall k {:trigger s'.dd[k % N]} | |s'.accepted| < k < s'.done + N ensures s'.dd[k % N] {}
    assert s.sent == s'.accepted[..|s.sent|];
  }

  lemma FetchKeeps(s: State)
    requires Inv(s) && Enabled(s, Fetch)
    ensures Inv(Next(s, Fetch))
  {
    Around(s.fetched);
  }

  /** Sending reads the buffer while it still holds the accepted packet. */
  lemma SendKeeps(s: State)
    requires Inv(s) && Enabled(s, Send)
    ensures Inv(Next(s, Send))
  {
    var i := |s.sent|;
    assert s.bufs[i % N] == s.accepted[i];
    assert s.accepted[..i + 1] == s.accepted[..i] + [s.accepted[i]];
  }

  lemma WriteBackKeeps(s: State)
    requires Inv(s) && Enabled(s, WriteBack)
    ensures Inv(Next(s, WriteBack))
  {
    var s' := Next(s, WriteBack);
    Around(s.done);
    forall k {:trigger s'.dd[k % N]} | s'.done <= k < |s'.accepted| ensures !s'.dd[k % N] {
      if k < s.done + N { OwnSlot(s.done, k); }
    }
    forall k {:trigger s'.dd[k % N]} | |s'.accepted| < k < s'.done + N ensures s'.dd[k % N] {
      if k < s.done + N { OwnSlot(s.done, k); }
    }
    if |s.accepted| < s.done + N { OwnSlot(s.done, |s.accepted|); }
  }

  lemma StepKeeps(s: State, a: Action)
    requires Inv(s) && Enabled(s, a)
    ensures Inv(Next(s, a))
  {
    match a
    case Test(p) => TestKeeps(s, p);
    case Copy => CopyKeeps(s);
    case Clear => ClearKeeps(s);
    case Publish => PublishKeeps(s);
    case Fetch => FetchKeeps(s);
    case Send => SendKeeps(s);
    case WriteBack => WriteBackKeeps(s);
  }

  lemma RingFull(a: int, f: int)
    requires f <= a < f + N
    ensures (a % N + 1) % N == f % N <==> a == f + N - 1
  {
    Around(a);
    Around(f);
    if a + 1 < f + N { OwnSlot(f, a + 1); }
  }

  lemma NotDone(s: State)
    requires Inv(s) && s.driver.Ready?
    ensures !s.dd[s.tdt] <==> |s.accepted| == s.done + N
  {
    Around(s.done);
    assert s.done < |s.accepted| ==> !s.dd[s.done % N];
  }

  /**
    e1000_tx turns a packet of legal size away precisely when the hardware has not fetched enough
    (one descriptor always stays out of its hands) or has not written the next descriptor back.
  */
  lemma AgainMeansBusy(s: State, p: Packet)
    requires Inv(s) && s.driver.Ready? && |p| <= MAX_PACKET
    ensures Answer(s, p).Again? <==> |s.accepted| == s.fetched + N - 1 || |s.accepted| == s.done + N
  {
    RingFull(|s.accepted|, s.fetched);
    NotDone(s);
  }

  /** The buffer the driver is about to fill belongs to no packet on its way. */
  lemma NotOverwritten(s: State, k: int)
    requires Inv(s) && Enabled(s, Copy) && s.done <= k < |s.accepted|
    ensures k % N != s.tdt
  {
    OwnSlot(k, |s.accepted|);
  }

  // ----- runs -----

  /** The state e1000_tx_init leaves. */
  ghost predicate Start(s: State) {
    && Shape(s) && s.tdt == s.tdh == s.done == s.fetched == 0 && s.driver.Ready? && s.accepted == s.sent == []
    && forall i :: 0 <= i < N ==> s.dd[i]
  }

  lemma StartInv(s: State)
    requires Start(s)
    ensures Inv(s)
  {
  }

  ghost predicate IsRun(s: State, acts: seq<Action>)
    decreases |acts|
  {
    acts == [] || (Enabled(s, acts[0]) && IsRun(Next(s, acts[0]), acts[1..]))
  }

  ghost function Run(s: State, acts: seq<Action>): (r: State)
    requires IsRun(s, acts)
    decreases |acts|
  {
    if acts == [] then s else Run(Next(s, acts[0]), acts[1..])
  }

  lemma {:induction false} RunKeeps(s: State, acts: seq<Action>)
    requires Inv(s) && IsRun(s, acts)
    ensures Inv(Run(s, acts))
    decreases |acts|
  {
    if acts != [] {
      StepKeeps(s, acts[0]);
      RunKeeps(Next(s, acts[0]), acts[1..]);
    }
  }

  /** The packet, if the step is a call of e1000_tx that does not turn its packet away. */
  ghost function Grant(s: State, a: Action): seq<Packet>
    requires Enabled(s, a)
  {
    if a.Test? && Answer(s, a.packet).Length? then [a.packet] else []
  }

  /** The packets e1000_tx did not turn away, in order. */
  ghost function Granted(s: State, acts: seq<Action>): seq<Packet>
    requires IsRun(s, acts)
    decreases |acts|
  {
    if acts == [] then [] else Grant(s, acts[0]) + Granted(Next(s, acts[0]), acts[1..])
  }

  /** The packets taken so far, the one in hand included. */
  function Taken(s: State): seq<Packet> {
    if s.driver.Ready? then s.accepted else s.accepted + [s.driver.packet]
  }

  lemma {:induction false} RunTakes(s: State, acts: seq<Action>)
    requires IsRun(s, acts)
    ensures Taken(Run(s, acts)) == Taken(s) + Granted(s, acts)
    decreases |acts|
  {
    if acts == [] {
      assert Taken(s) + [] == Taken(s);
    } else {
      var s' := Next(s, acts[0]);
      RunTakes(s', acts[1..]);
      StepTakes(s, acts[0]);
      assert (Taken(s) + Grant(s, acts[0])) + Granted(s', acts[1..]) == Taken(s) + Granted(s, acts);
    }
  }

  lemma StepTakes(s: State, a: Action)
    requires Enabled(s, a)
    ensures Taken(Next(s, a)) == Taken(s) + Grant(s, a)
  {
  }

  /** For every interleaving: what is on the wire is an unaltered, in-order prefix of what e1000_tx took. */
  lemma SentInOrder(s: State, acts: seq<Action>)
    requires Start(s) && IsRun(s, acts)
    ensures
      var r := Run(s, acts);
      r.sent <= r.accepted <= Granted(s, acts) && |Granted(s, acts)| <= |r.accepted| + 1
  {
    StartInv(s);
    RunKeeps(s, acts);
    RunTakes(s, acts);
    assert Taken(s) + Granted(s, acts) == Granted(s, acts);
  }
}
