/**
  The receive ring of the e1000 driver: the hardware fills buffers from RDH on and writes back
  the done bit; the driver takes packets in ring order and gives descriptors back by moving RDT.
  How the hardware works is taken from section 3.2.6 of the Intel PCI/PCI-X Family of Gigabit
  Ethernet Controllers Software Developer's Manual.
*/
module NicRx {
  import opened Ring

  const BUFFER: int := 2048
  const MAX_PACKET: int := 1518

  type Packet = seq<int>

  /** Where the driver is inside e1000_rx. */
  datatype Driver =
    | Ready
    | Found      // the done bit of the next descriptor is set
    | Handed     // the packet is copied to the caller
    | Cleared    // the status is cleared as well

  datatype State = State(
    rdt: int, rdh: int,
    dd: seq<bool>, bufs: seq<Packet>,
    driver: Driver,
    received: seq<Packet>,     // packets the hardware has put into buffers, in order
    delivered: seq<Packet>,    // packets handed to callers of e1000_rx, in order
    done: int, returned: int)  // how many descriptors were written back and given back

  datatype Action =
    | Poll                     // e1000_rx: look at the next descriptor
    | HandOut                  // copy the packet
    | Clear                    // clear the status
    | Publish                  // move RDT
    | Receive(packet: Packet)  // hardware: put a packet into the buffer at RDH
    | WriteBack                // hardware: set the done bit

  /** The packet a caller sees. */
  function Cut(p: Packet): (r: Packet)
    ensures r <= p && |r| <= MAX_PACKET && (|p| <= MAX_PACKET ==> r == p)
  {
    if |p| > MAX_PACKET then p[..MAX_PACKET] else p
  }

  ghost predicate Shape(s: State) {
    |s.dd| == N && |s.bufs| == N && 0 <= s.rdt < N && 0 <= s.rdh < N && 0 <= s.done && 0 <= s.returned
  }

  ghost predicate Enabled(s: State, a: Action) {
    Shape(s) &&
    match a
    case Poll => s.driver.Ready?
    case HandOut => s.driver.Found?
    case Clear => s.driver.Handed?
    case Publish => s.driver.Cleared?
    case Receive(p) => s.rdh != s.rdt && |p| <= BUFFER
    case WriteBack => s.done < |s.received|
  }

  /** The descriptor e1000_rx looks at. */
  function NextIndex(s: State): int {
    (s.rdt + 1) % N
  }

  ghost function Next(s: State, a: Action): State
    requires Enabled(s, a)
  {
    var i := NextIndex(s);
    match a
    case Poll => if s.dd[i] then s.(driver := Found) else s
    case HandOut => s.(delivered := s.delivered + [Cut(s.bufs[i])], driver := Handed)
    case Clear => s.(dd := s.dd[i := false], driver := Cleared)
    case Publish => s.(rdt := i, returned := s.returned + 1, driver := Ready)
    case Receive(p) => s.(bufs := s.bufs[s.rdh := p], rdh := (s.rdh + 1) % N, received := s.received + [p])
    case WriteBack => s.(dd := s.dd[s.done % N := true], done := s.done + 1)
  }

  // ----- the invariant -----

  ghost predicate Ordered(s: State) {
    && 0 <= s.returned <= s.done <= |s.received| < s.returned + N
    && s.rdh == |s.received| % N && s.rdt == (s.returned + N - 1) % N
  }

  /** The done bit is set exactly for the packets written back and not yet taken. */
  ghost predicate Bits(s: State)
    requires |s.dd| == N
  {
    && (forall k {:trigger s.dd[k % N]} :: s.returned < k < s.done ==> s.dd[k % N])
    && (forall k {:trigger s.dd[k % N]} :: s.done <= k < s.returned + N ==> !s.dd[k % N])
    && (s.returned < s.done ==> (s.dd[s.returned % N] <==> !s.driver.Cleared?))
  }

  ghost predicate Buffers(s: State)
    requires |s.bufs| == N
  {
    forall k {:trigger s.received[k]} :: 0 <= k && s.returned <= k < |s.received| ==> s.bufs[k % N] == s.received[k]
  }

  /** How many packets callers have got. */
  function Out(s: State): int {
    if s.driver.Handed? || s.driver.Cleared? then s.returned + 1 else s.returned
  }

  /** Each packet once, in order, cut to what a caller may get. */
  ghost predicate InOrder(s: State) {
    && |s.delivered| == Out(s) <= |s.received|
    && forall k :: 0 <= k < |s.delivered| ==> s.delivered[k] == Cut(s.received[k])
  }

  ghost predicate Inv(s: State) {
    Shape(s) && Ordered(s) && Bits(s) && Buffers(s) && (!s.driver.Ready? ==> s.returned < s.done) && InOrder(s)
  }

  /** e1000_rx looks at the oldest packet that was not taken. */
  lemma LooksAtOldest(s: State)
    requires Shape(s) && Ordered(s)
    ensures NextIndex(s) == s.returned % N
  {
    Around(s.returned + N - 1);
    Around(s.returned);
  }

  lemma PollKeeps(s: State)
    requires Inv(s) && Enabled(s, Poll)
    ensures Inv(Next(s, Poll))
    ensures Next(s, Poll).driver.Found? <==> s.returned < s.done
  {
    LooksAtOldest(s);
  }

  lemma HandOutKeeps(s: State)
    requires Inv(s) && Enabled(s, HandOut)
    ensures Inv(Next(s, HandOut))
  {
    LooksAtOldest(s);
    assert s.bufs[s.returned % N] == s.received[s.returned];
  }

  lemma ClearKeeps(s: State)
    requires Inv(s) && Enabled(s, Clear)
    ensures Inv(Next(s, Clear))
  {
    LooksAtOldest(s);
    var s' := Next(s, Clear);
    forall k {:trigger s'.dd[k % N]} | s'.returned < k < s'.done ensures s'.dd[k % N] { OwnSlot(s.returned, k); }
    forall k {:trigger s'.dd[k % N]} | s'.done <= k < s'.returned + N ensures !s'.dd[k % N] { OwnSlot(s.returned, k); }
  }

  lemma PublishKeeps(s: State)
    requires Inv(s) && Enabled(s, Publish)
    ensures Inv(Next(s, Publish))
  {
    LooksAtOldest(s);
    Around(s.returned);
    var s' := Next(s, Publish);
    forall k {:trigger s'.dd[k % N]} | s'.done <= k < s'.returned + N ensures !s'.dd[k % N] {
      if k == s.returned + N { assert k % N == s.returned % N; }
    }
  }

  lemma ReceiveKeeps(s: State, p: Packet)
    requires Inv(s) && Enabled(s, Receive(p))
    ensures Inv(Next(s, Receive(p)))
  {
    var s' := Next(s, Receive(p));
    var r := |s.received|;
    Around(r);
    assert r < s.returned + N - 1;
    forall k {:trigger s'.received[k]} | s.returned <= k < r ensures s'.bufs[k % N] == s'.received[k] {
      OwnSlot(k, r);
      assert s.bufs[k % N] == s.received[k];
    }
  }

  lemma WriteBackKeeps(s: State)
    requires Inv(s) && Enabled(s, WriteBack)
    ensures Inv(Next(s, WriteBack))
  {
    var s' := Next(s, WriteBack);
    forall k {:trigger s'.dd[k % N]} | s'.returned < k < s'.done ensures s'.dd[k % N] {}
    forall k {:trigger s'.dd[k % N]} | s'.done <= k < s'.returned + N ensures !s'.dd[k % N] { OwnSlot(s.done, k); }
    if s.returned < s.done { OwnSlot(s.returned, s.done); }
  }

  lemma StepKeeps(s: State, a: Action)
    requires Inv(s) && Enabled(s, a)
    ensures Inv(Next(s, a))
  {
    match a
    case Poll => PollKeeps(s);
    case HandOut => HandOutKeeps(s);
    case Clear => ClearKeeps(s);
    case Publish => PublishKeeps(s);
    case Receive(p) => ReceiveKeeps(s, p);
    case WriteBack => WriteBackKeeps(s);
  }

  /** A packet never goes into a buffer whose packet has not been taken. */
  lemma NotOverwritten(s: State, p: Packet, k: int)
    requires Inv(s) && Enabled(s, Receive(p)) && s.returned <= k < |s.received|
    ensures k % N != s.rdh
  {
    OwnSlot(k, |s.received|);
  }

  // ----- runs -----

  /** The state e1000_rx_init leaves. */
  ghost predicate Start(s: State) {
    && Shape(s) && s.rdh == s.done == s.returned == 0 && s.rdt == N - 1
    && s.driver.Ready? && s.received == s.delivered == []
    && forall i :: 0 <= i < N ==> !s.dd[i]
  }

  ghost predicate IsRun(s: State, acts: seq<Action>)
    decreases |acts|
  {
    acts == [] || (Enabled(s, acts[0]) && IsRun(Next(s, acts[0]), acts[1..]))
  }

  ghost function Run(s: State, acts: seq<Action>): (r: State)
    requires IsRun(s, acts)
    decreases |acts|
  {
    if acts == [] then s else Run(Next(s, acts[0]), acts[1..])
  }

  lemma {:induction false} RunKeeps(s: State, acts: seq<Action>)
    requires Inv(s) && IsRun(s, acts)
    ensures Inv(Run(s, acts))
    decreases |acts|
  {
    if acts != [] {
      StepKeeps(s, acts[0]);
      RunKeeps(Next(s, acts[0]), acts[1..]);
    }
  }

  /** The packets that arrived while a buffer was free. */
  function Arrived(acts: seq<Action>): seq<Packet> {
    if acts == [] then [] else (if acts[0].Receive? then [acts[0].packet] else []) + Arrived(acts[1..])
  }

  lemma {:induction false} RunReceives(s: State, acts: seq<Action>)
    requires IsRun(s, acts)
    ensures Run(s, acts).received == s.received + Arrived(acts)
    decreases |acts|
  {
    if acts == [] {
      assert s.received + [] == s.received;
    } else {
      var s' := Next(s, acts[0]);
      RunReceives(s', acts[1..]);
      var p := if acts[0].Receive? then [acts[0].packet] else [];
      assert s'.received == s.received + p;
      assert (s.received + p) + Arrived(acts[1..]) == s.received + (p + Arrived(acts[1..]));
    }
  }

  /** For every interleaving: callers get each packet that arrived once, in order, cut to 1518 bytes. */
  lemma DeliveredInOrder(s: State, acts: seq<Action>)
    requires Start(s) && IsRun(s, acts)
    ensures
      var r := Run(s, acts);
      && |r.delivered| <= |Arrived(acts)| <= |r.delivered| + N - 1
      && forall k :: 0 <= k < |r.delivered| ==> r.delivered[k] == Cut(Arrived(acts)[k])
  {
    assert Inv(s);
    RunKeeps(s, acts);
    RunReceives(s, acts);
    assert s.received + Arrived(acts) == Arrived(acts);
  }
}
