/**
  The walk of pbuf_copy over two chains at once, by lengths alone. A chain is given by its partial
  sums: s[k] bytes are in its first k pbufs. The walk moves on in whichever chain comes to the end of
  a pbuf first, and it is stopped when a pbuf that ends its packet is followed by another one, or when
  the target ends before the source. Only empty pbufs can bring that about.
*/
module CopyWalk {

  ghost predicate Sums(s: seq<int>) {
    && |s| > 1 && s[0] == 0
    && (forall k, l {:trigger s[k], s[l]} :: 0 <= k <= l < |s| ==> s[k] <= s[l])
  }

  /** All the bytes of a chain. */
  function Full(s: seq<int>): int
    requires |s| > 0
  {
    s[|s| - 1]
  }

  /** Pbuf `k` ends the packet, but another pbuf follows. */
  predicate Early(s: seq<int>, k: int) {
    0 <= k && k + 2 < |s| && s[k + 1] == Full(s)
  }

  /** How many pbufs of the source end at its last byte, if it has at most two pbufs. */
  function EndRank(b: seq<int>): int
    requires |b| > 1
  {
    if |b| == 3 && b[1] == Full(b) then 2 else 1
  }

  /** Before the source is done, the walk gets to pbuf `k` of the target. */
  predicate Reached(a: seq<int>, b: seq<int>, k: int)
    requires |b| > 1 && 1 <= k < |a|
  {
    a[k] <= Full(b) && (k <= EndRank(b) || a[k - EndRank(b)] < Full(b))
  }

  /** An empty pbuf at the end of the source stops the walk. */
  predicate SourceStops(a: seq<int>, b: seq<int>)
    requires |a| > 1 && |b| > 1
  {
    && |b| > 2 && b[|b| - 2] == Full(b)
    && (|b| > 3 || a[1] < b[1] || (|a| == 2 && a[1] == b[1]))
  }

  /** So does an empty pbuf at the end of the target, if the walk comes that far. */
  ghost predicate TargetStops(a: seq<int>, b: seq<int>)
    requires |a| > 1 && |b| > 1
  {
    || (b[1] < a[1] && Early(a, 0))
    || (exists k :: 1 <= k < |a| && Early(a, k) && Reached(a, b, k))
  }

  ghost predicate Stopped(a: seq<int>, b: seq<int>)
    requires |a| > 1 && |b| > 1
  {
    SourceStops(a, b) || TargetStops(a, b)
  }

  /** Where the walk stands after a round that began at pbuf `i` of the target and pbuf `j` of the source. */
  function StepTo(a: seq<int>, b: seq<int>, i: nat, j: nat): nat
    requires i + 1 < |a| && j + 1 < |b|
  {
    if a[i + 1] <= b[j + 1] then i + 1 else i
  }

  function StepFrom(a: seq<int>, b: seq<int>, i: nat, j: nat): nat
    requires i + 1 < |a| && j + 1 < |b|
  {
    if b[j + 1] <= a[i + 1] then j + 1 else j
  }

  /** The tests after a round, and the one that the target has not ended. */
  predicate Caught(a: seq<int>, b: seq<int>, i: nat, j: nat)
    requires i < |a| && j < |b|
  {
    Early(b, j) || Early(a, i) || (i == |a| - 1 && j < |b| - 1)
  }

  /** The next byte to copy is in pbuf `i` of the target and in pbuf `j` of the source. */
  ghost predicate Placed(a: seq<int>, b: seq<int>, i: nat, j: nat)
    requires |a| > 1 && |b| > 1
  {
    && i < |a| && j < |b|
    && (i + 1 < |a| ==> b[j] < a[i + 1] || b[j] <= a[i])
    && (j + 1 < |b| ==> a[i] < b[j + 1] || a[i] <= b[j])
    && (i == 0 && j > 0 ==> b[1] < a[1])
    && (j == 0 && i > 0 ==> a[1] < b[1])
    && (j + 1 < |b| ==> i + 1 < |a|)
  }

  /** No test has caught anything so far. */
  ghost predicate Uncaught(a: seq<int>, b: seq<int>, i: nat, j: nat)
    requires |a| > 1 && |b| > 1
  {
    && (forall k {:trigger Early(b, k)} :: 1 <= k <= j ==> !Early(b, k))
    && (forall k {:trigger Early(a, k)} :: 1 <= k <= i ==> !Early(a, k))
    && (i + j > 0 && a[1] < b[1] ==> !Early(b, 0))
    && (i + j > 0 && b[1] < a[1] ==> !Early(a, 0))
    && (EndRank(b) == 2 && j == 1 ==> a[1] >= b[1] && i == if a[1] == b[1] then 1 else 0)
    && (EndRank(b) == 2 && j > 0 && a[1] == b[1] ==> |a| > 2)
  }

  /** The pbufs of the target that the walk has got to are those it was to reach. */
  ghost predicate Ranked(a: seq<int>, b: seq<int>, i: nat, j: nat)
    requires |a| > 1 && |b| > 1 && i < |a|
  {
    && (i > 0 ==> Reached(a, b, i))
    && (j == |b| - 1 && i + 1 < |a| ==> !Reached(a, b, i + 1))
  }

  ghost predicate Walking(a: seq<int>, b: seq<int>, i: nat, j: nat) {
    Sums(a) && Sums(b) && Full(b) <= Full(a) && Placed(a, b, i, j) && Uncaught(a, b, i, j) && Ranked(a, b, i, j)
  }

  lemma WalkStarts(a: seq<int>, b: seq<int>)
    requires Sums(a) && Sums(b) && Full(b) <= Full(a)
    ensures Walking(a, b, 0, 0)
  {
  }

  /** If no pbuf of the source ends early, an empty last one is the second of two. */
  lemma LastOfSource(a: seq<int>, b: seq<int>, i: nat, j: nat)
    requires Walking(a, b, i, j) && j + 2 >= |b| && b[|b| - 2] == Full(b) && |b| > 2 && i + j > 0
    ensures |b| == 3 && a[1] >= b[1]
  {
    if |b| > 3 { assert Early(b, |b| - 3); }
    if a[1] < b[1] { assert Early(b, 0); }
  }

  lemma StepPlaced(a: seq<int>, b: seq<int>, i: nat, j: nat)
    requires Walking(a, b, i, j) && i + 1 < |a| && j + 1 < |b|
    requires !Caught(a, b, StepTo(a, b, i, j), StepFrom(a, b, i, j))
    ensures Placed(a, b, StepTo(a, b, i, j), StepFrom(a, b, i, j))
    ensures Uncaught(a, b, StepTo(a, b, i, j), StepFrom(a, b, i, j))
  {
  }

  /** A pbuf of the target that the walk moves on to was to be reached. */
  lemma StepReaches(a: seq<int>, b: seq<int>, i: nat, j: nat)
    requires Walking(a, b, i, j) && i + 1 < |a| && j + 1 < |b| && StepTo(a, b, i, j) == i + 1
    ensures Reached(a, b, i + 1)
  {
    if i > 0 && a[i] == Full(b) {
      assert !Early(b, j);
      LastOfSource(a, b, i, j);
    }
  }

  /** When the source is done, the next pbuf of the target was not to be reached. */
  lemma StepEnds(a: seq<int>, b: seq<int>, i: nat, j: nat)
    requires Walking(a, b, i, j) && i + 1 < |a| && j + 2 == |b| && StepFrom(a, b, i, j) == j + 1
    requires StepTo(a, b, i, j) + 1 < |a|
    ensures !Reached(a, b, StepTo(a, b, i, j) + 1)
  {
  }

  lemma StepWalks(a: seq<int>, b: seq<int>, i: nat, j: nat)
    requires Walking(a, b, i, j) && i + 1 < |a| && j + 1 < |b|
    requires !Caught(a, b, StepTo(a, b, i, j), StepFrom(a, b, i, j))
    ensures Walking(a, b, StepTo(a, b, i, j), StepFrom(a, b, i, j))
  {
    StepPlaced(a, b, i, j);
    if StepTo(a, b, i, j) == i + 1 { StepReaches(a, b, i, j); }
    if StepFrom(a, b, i, j) == |b| - 1 && StepTo(a, b, i, j) + 1 < |a| { StepEnds(a, b, i, j); }
  }

  /** What the tests catch is foreseen. */
  lemma CaughtIsStopped(a: seq<int>, b: seq<int>, i: nat, j: nat)
    requires Walking(a, b, i, j) && i + 1 < |a| && j + 1 < |b|
    requires Caught(a, b, StepTo(a, b, i, j), StepFrom(a, b, i, j))
    ensures Stopped(a, b)
  {
    var i', j' := StepTo(a, b, i, j), StepFrom(a, b, i, j);
    if Early(b, j') {
      assert b[|b| - 2] == Full(b);
    } else if Early(a, i') {
      if i' > i { StepReaches(a, b, i, j); }
    } else {
      StepReaches(a, b, i, j);
    }
  }

  lemma ReachedBefore(a: seq<int>, b: seq<int>, l: nat, k: nat)
    requires Sums(a) && Sums(b) && 1 <= l <= k < |a| && Reached(a, b, k)
    ensures Reached(a, b, l)
  {
  }

  /** What is foreseen is caught. */
  lemma DoneIsNotStopped(a: seq<int>, b: seq<int>, i: nat, j: nat)
    requires Walking(a, b, i, j) && j == |b| - 1
    ensures !Stopped(a, b)
  {
    if SourceStops(a, b) { LastOfSource(a, b, i, j); }
    if k :| 1 <= k < |a| && Early(a, k) && Reached(a, b, k) {
      if k > i { ReachedBefore(a, b, i + 1, k); }
    }
  }

  /**
    A source of 5 bytes in its first pbuf and two empty ones behind it is not copied to a target of one
    pbuf of 5 bytes: the first of the empty pbufs ends the packet, and another one follows.
  */
  lemma StopsOnEmpty()
    ensures
      var a, b := [0, 5], [0, 5, 5, 5];
      Sums(a) && Sums(b) && Full(b) <= Full(a) && Stopped(a, b)
  {
    assert SourceStops([0, 5], [0, 5, 5, 5]);
  }

  /** Without empty pbufs the walk is never stopped. */
  lemma NeverStopped(a: seq<int>, b: seq<int>)
    requires Sums(a) && Sums(b) && Full(b) <= Full(a)
    requires forall k {:trigger a[k]} :: 0 <= k < |a| - 1 ==> a[k] < a[k + 1]
    requires forall k {:trigger b[k]} :: 0 <= k < |b| - 1 ==> b[k] < b[k + 1]
    ensures !Stopped(a, b)
  {
    assert b[|b| - 2] < b[|b| - 2 + 1];
    assert a[|a| - 2] < a[|a| - 2 + 1];
  }
}
