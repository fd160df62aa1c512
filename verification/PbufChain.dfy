/**
  Chains of packet buffers as lists of nodes, the bytes such a chain carries, and how both
  change when a field of one node changes. The class in Pbuf.dfy works on the linked nodes.
*/
module PbufChain {
  import opened Words

  const NULL: int := 0

  /** Following `next` from `p` meets the nodes `ns` and then NULL. */
  ghost predicate IsChain(next: map<int, int>, p: int, ns: seq<int>)
    decreases |ns|
  {
    if ns == [] then p == NULL
    else p == ns[0] && p != NULL && p in next && IsChain(next, next[p], ns[1..])
  }

  lemma {:induction false} ChainUnique(next: map<int, int>, p: int, ns: seq<int>, ms: seq<int>)
    requires IsChain(next, p, ns) && IsChain(next, p, ms)
    ensures ns == ms
    decreases |ns|
  {
    if ns != [] { ChainUnique(next, next[p], ns[1..], ms[1..]); }
  }

  /** The chain from a node of a chain is the rest of that chain. */
  lemma {:induction false} ChainFrom(next: map<int, int>, p: int, ns: seq<int>, i: nat)
    requires IsChain(next, p, ns) && i <= |ns|
    ensures IsChain(next, if i < |ns| then ns[i] else NULL, ns[i..])
    decreases i
  {
    if i > 0 {
      ChainFrom(next, next[p], ns[1..], i - 1);
      assert ns[1..][i - 1..] == ns[i..];
    }
  }

  /** A chain never comes back to a node. */
  lemma ChainDistinct(next: map<int, int>, p: int, ns: seq<int>, i: nat, j: nat)
    requires IsChain(next, p, ns) && i < j < |ns|
    ensures ns[i] != ns[j]
  {
    ChainFrom(next, p, ns, i);
    ChainFrom(next, p, ns, j);
    if ns[i] == ns[j] { ChainUnique(next, ns[i], ns[i..], ns[j..]); }
  }

  lemma Earlier(next: map<int, int>, p: int, ns: seq<int>, i: nat)
    requires IsChain(next, p, ns) && i < |ns|
    ensures ns[i] !in ns[..i]
    ensures forall a, b :: 0 <= a < b < i ==> ns[..i][a] != ns[..i][b]
  {
    forall a | 0 <= a < i ensures ns[a] != ns[i] { ChainDistinct(next, p, ns, a, i); }
    forall a, b | 0 <= a < b < i ensures ns[..i][a] != ns[..i][b] { ChainDistinct(next, p, ns, a, b); }
  }

  /** Changing `next` of nodes outside the chain does not change the chain. */
  lemma {:induction false} ChainFrame(next: map<int, int>, next': map<int, int>, p: int, ns: seq<int>)
    requires IsChain(next, p, ns)
    requires forall n :: n in ns && n in next ==> n in next' && next'[n] == next[n]
    ensures IsChain(next', p, ns)
    decreases |ns|
  {
    if ns != [] {
      assert p in ns;
      ChainFrame(next, next', next[p], ns[1..]);
    }
  }

  /** Cutting behind the first node leaves it alone and the rest as it was. */
  lemma CutChain(next: map<int, int>, p: int, ns: seq<int>)
    requires IsChain(next, p, ns) && p != NULL
    ensures IsChain(next[p := NULL], p, [p]) && IsChain(next[p := NULL], next[p], ns[1..]) && p !in ns[1..]
    ensures next[p] == if |ns| == 1 then NULL else ns[1]
  {
    forall i | 1 <= i < |ns| ensures ns[i] != p { ChainDistinct(next, p, ns, 0, i); }
    ChainFrame(next, next[p := NULL], next[p], ns[1..]);
  }

  // ----- lengths and bytes -----

  /** The bytes of one node: the first `len` of its payload. */
  function Part(len: map<int, int>, data: map<int, seq<int>>, n: int): seq<int> {
    if n in len && n in data && 0 <= len[n] <= |data[n]| then data[n][..len[n]] else []
  }

  /** The bytes the chain carries. */
  function Bytes(len: map<int, int>, data: map<int, seq<int>>, ns: seq<int>): seq<int> {
    if ns == [] then [] else Part(len, data, ns[0]) + Bytes(len, data, ns[1..])
  }

  /** The tot_len field of every node is the length of the chain from that node on. */
  ghost predicate Totals(len: map<int, int>, data: map<int, seq<int>>, tot: map<int, int>, ns: seq<int>) {
    ns == [] || (ns[0] in tot && tot[ns[0]] == |Bytes(len, data, ns)| && Totals(len, data, tot, ns[1..]))
  }

  lemma {:induction false} BytesConcat(len: map<int, int>, data: map<int, seq<int>>, ns: seq<int>, ms: seq<int>)
    ensures Bytes(len, data, ns + ms) == Bytes(len, data, ns) + Bytes(len, data, ms)
  {
    if ns == [] {
      assert ns + ms == ms;
    } else {
      BytesConcat(len, data, ns[1..], ms);
      assert (ns + ms)[1..] == ns[1..] + ms && (ns + ms)[0] == ns[0];
      var a, b, c := Part(len, data, ns[0]), Bytes(len, data, ns[1..]), Bytes(len, data, ms);
      assert a + (b + c) == (a + b) + c;
    }
  }

  /** Only the nodes of the chain matter. */
  lemma {:induction false} BytesFrame(len: map<int, int>, data: map<int, seq<int>>, len': map<int, int>,
                                      data': map<int, seq<int>>, ns: seq<int>)
    requires forall n :: n in ns ==> Part(len', data', n) == Part(len, data, n)
    ensures Bytes(len', data', ns) == Bytes(len, data, ns)
  {
    if ns != [] {
      assert ns[0] in ns;
      BytesFrame(len, data, len', data', ns[1..]);
    }
  }

  lemma {:induction false} TotalsFrame(len: map<int, int>, data: map<int, seq<int>>, tot: map<int, int>,
                                       len': map<int, int>, data': map<int, seq<int>>, tot': map<int, int>,
                                       ns: seq<int>)
    requires Totals(len, data, tot, ns)
    requires forall n :: n in ns ==> Part(len', data', n) == Part(len, data, n)
    requires forall n :: n in ns && n in tot ==> n in tot' && tot'[n] == tot[n]
    ensures Totals(len', data', tot', ns)
  {
    if ns != [] {
      assert ns[0] in ns;
      BytesFrame(len, data, len', data', ns);
      TotalsFrame(len, data, tot, len', data', tot', ns[1..]);
    }
  }

  lemma BytesLast(len: map<int, int>, data: map<int, seq<int>>, ns: seq<int>, i: nat)
    requires i < |ns|
    ensures Bytes(len, data, ns[..i + 1]) == Bytes(len, data, ns[..i]) + Part(len, data, ns[i])
  {
    assert ns[..i + 1] == ns[..i] + [ns[i]];
    BytesConcat(len, data, ns[..i], [ns[i]]);
    assert Bytes(len, data, [ns[i]]) == Part(len, data, ns[i]) + Bytes(len, data, []);
  }

  /** Splitting a chain before node `i`. */
  lemma BytesSplit(len: map<int, int>, data: map<int, seq<int>>, ns: seq<int>, i: nat)
    requires i < |ns|
    ensures Bytes(len, data, ns) == Bytes(len, data, ns[..i]) + Bytes(len, data, ns[i..])
    ensures Bytes(len, data, ns[i..]) == Part(len, data, ns[i]) + Bytes(len, data, ns[i + 1..])
  {
    assert ns == ns[..i] + ns[i..];
    BytesConcat(len, data, ns[..i], ns[i..]);
    assert ns[i..][1..] == ns[i + 1..];
  }

  // ----- reference counts -----

  /** The nodes whose `next` is `p`. */
  ghost function Before(next: map<int, int>, p: int): set<int> {
    set q | q in next && next[q] == p
  }

  ghost predicate CountOk(next: map<int, int>, ref: map<int, int>, handles: multiset<int>, p: int)
    requires p in ref
  {
    ref[p] == |Before(next, p)| + handles[p]
  }

  /**
    Counts are exact: `ref` of a pbuf is the number of `next` fields that name it plus the number
    of handles callers hold. Every pbuf in use has a reference, and no reference leads elsewhere.
  */
  ghost predicate Exact(next: map<int, int>, ref: map<int, int>, handles: multiset<int>) {
    && next.Keys == ref.Keys && NULL !in ref
    && (forall p {:trigger CountOk(next, ref, handles, p)} :: p in ref ==> CountOk(next, ref, handles, p))
    && (forall p {:trigger ref[p]} :: p in ref ==> ref[p] > 0)
    && (forall p {:trigger next[p]} :: p in next ==> next[p] == NULL || next[p] in ref)
    && (forall p :: p in handles ==> p in ref)
  }

  /** The number of pbufs at the head of the chain that go away when one reference to the first is dropped. */
  function RunLength(ref: map<int, int>, ns: seq<int>): (k: nat)
    ensures k <= |ns|
  {
    if ns == [] || ns[0] !in ref || ref[ns[0]] != 1 then 0 else 1 + RunLength(ref, ns[1..])
  }

  lemma {:induction false} RunLengthFrame(ref: map<int, int>, ref': map<int, int>, ns: seq<int>)
    requires forall n :: n in ns ==> (n in ref <==> n in ref') && (n in ref && n in ref' ==> ref[n] == ref'[n])
    ensures RunLength(ref', ns) == RunLength(ref, ns)
  {
    if ns != [] {
      var n := ns[0];
      assert n in ns;
      assert n in ref <==> n in ref';
      RunLengthFrame(ref, ref', ns[1..]);
    }
  }

  lemma AddHandle(next: map<int, int>, ref: map<int, int>, handles: multiset<int>, p: int)
    requires Exact(next, ref, handles) && p in ref
    ensures Exact(next, ref[p := ref[p] + 1], handles + multiset{p})
  {
    var ref', handles' := ref[p := ref[p] + 1], handles + multiset{p};
    forall n {:trigger CountOk(next, ref', handles', n)} | n in ref' ensures CountOk(next, ref', handles', n) {
      assert CountOk(next, ref, handles, n);
    }
  }

  lemma DropHandle(next: map<int, int>, ref: map<int, int>, handles: multiset<int>, p: int)
    requires Exact(next, ref, handles) && p in handles && ref[p] > 1
    ensures Exact(next, ref[p := ref[p] - 1], handles - multiset{p})
  {
    var ref', handles' := ref[p := ref[p] - 1], handles - multiset{p};
    forall n {:trigger CountOk(next, ref', handles', n)} | n in ref' ensures CountOk(next, ref', handles', n) {
      assert CountOk(next, ref, handles, n);
    }
  }

  /** The handle on `p` is given up for one on `q`. */
  ghost function Passed(handles: multiset<int>, p: int, q: int): multiset<int> {
    if q == NULL then handles - multiset{p} else handles - multiset{p} + multiset{q}
  }

  lemma PassedOn(handles: multiset<int>, p: int, q: int, r: int)
    requires q != NULL
    ensures Passed(Passed(handles, p, q), q, r) == Passed(handles, p, r)
  {
  }

  /** The last handle on `p` goes, and with it `p`; its reference to the next pbuf passes to the caller. */
  lemma Dealloc(next: map<int, int>, ref: map<int, int>, handles: multiset<int>, p: int)
    requires Exact(next, ref, handles) && p in handles && ref[p] == 1
    ensures Exact(next - {p}, ref - {p}, Passed(handles, p, next[p]))
  {
    var next', ref' := next - {p}, ref - {p};
    var handles' := Passed(handles, p, next[p]);
    assert CountOk(next, ref, handles, p) && Before(next, p) == {};
    forall n {:trigger next'[n]} | n in next' ensures next'[n] == NULL || next'[n] in ref' {
      assert n !in Before(next, p);
    }
    forall n {:trigger CountOk(next', ref', handles', n)} | n in ref' ensures CountOk(next', ref', handles', n) {
      assert CountOk(next, ref, handles, n);
      assert Before(next', n) == Before(next, n) - {p};
    }
    assert next[p] != p by { assert p !in Before(next, p); }
  }

  /** A caller's handle on `p` becomes the `next` field of `q`. */
  lemma LinkTo(next: map<int, int>, ref: map<int, int>, handles: multiset<int>, q: int, p: int)
    requires Exact(next, ref, handles) && p in handles && q in next && next[q] == NULL
    ensures Exact(next[q := p], ref, handles - multiset{p})
  {
    var next', handles' := next[q := p], handles - multiset{p};
    forall n {:trigger CountOk(next', ref, handles', n)} | n in ref ensures CountOk(next', ref, handles', n) {
      assert CountOk(next, ref, handles, n);
      assert Before(next', n) == if n == p then Before(next, n) + {q} else Before(next, n);
    }
  }

  /** The reference in the `next` field of `q` becomes a handle. */
  lemma Unlink(next: map<int, int>, ref: map<int, int>, handles: multiset<int>, q: int)
    requires Exact(next, ref, handles) && q in next && next[q] != NULL
    ensures Exact(next[q := NULL], ref, handles + multiset{next[q]})
  {
    var next', handles' := next[q := NULL], handles + multiset{next[q]};
    assert next[q] in ref;
    forall n {:trigger CountOk(next', ref, handles', n)} | n in ref ensures CountOk(next', ref, handles', n) {
      assert CountOk(next, ref, handles, n);
      assert Before(next', n) == if n == next[q] then Before(next, n) - {q} else Before(next, n);
    }
  }

  /** A new pbuf with one handle on it. */
  lemma NewNode(next: map<int, int>, ref: map<int, int>, handles: multiset<int>, p: int)
    requires Exact(next, ref, handles) && p !in ref && p != NULL
    ensures Exact(next[p := NULL], ref[p := 1], handles + multiset{p})
  {
    var next', ref', handles' := next[p := NULL], ref[p := 1], handles + multiset{p};
    forall q | q in next ensures next[q] != p {}
    assert Before(next, p) == {} && handles[p] == 0;
    forall n {:trigger CountOk(next', ref', handles', n)} | n in ref' ensures CountOk(next', ref', handles', n) {
      if n != p { assert CountOk(next, ref, handles, n); }
      assert Before(next', n) == Before(next, n);
    }
  }

  // ----- freeing -----

  /** The nodes of `ns` are gone. */
  function Without<T>(m: map<int, T>, ns: seq<int>): map<int, T> {
    if ns == [] then m else Without(m - {ns[0]}, ns[1..])
  }

  /** A reference to the first node is dropped: the head run is gone, the count of the first survivor is one less. */
  function Dropped(ref: map<int, int>, ns: seq<int>): map<int, int> {
    if ns == [] || ns[0] !in ref then ref
    else if ref[ns[0]] == 1 then Dropped(ref - {ns[0]}, ns[1..])
    else ref[ns[0] := ref[ns[0]] - 1]
  }

  /** Exactly the nodes of `ns` are missing. */
  lemma {:induction false} WithoutIs<T>(m: map<int, T>, ns: seq<int>, n: int)
    ensures n in Without(m, ns) <==> n in m && n !in ns
    ensures n in Without(m, ns) ==> Without(m, ns)[n] == m[n]
    decreases |ns|
  {
    if ns != [] {
      WithoutIs(m - {ns[0]}, ns[1..], n);
      assert n in ns <==> n == ns[0] || n in ns[1..];
    }
  }

  /** Which counts change: the run goes away, the node after it loses one, every other count stays. */
  lemma {:induction false} DroppedIs(next: map<int, int>, ref: map<int, int>, p: int, ns: seq<int>, n: int)
    requires IsChain(next, p, ns) && next.Keys == ref.Keys
    ensures
      var k := RunLength(ref, ns);
      && (n in Dropped(ref, ns) <==> n in ref && n !in ns[..k])
      && (n in Dropped(ref, ns) ==> Dropped(ref, ns)[n] == if k < |ns| && n == ns[k] then ref[n] - 1 else ref[n])
    decreases |ns|
  {
    var k := RunLength(ref, ns);
    if ns != [] && ref[p] == 1 {
      FreeHead(next, ref, p, ns);
      DroppedIs(next - {p}, ref - {p}, next[p], ns[1..], n);
      assert ns[..k] == [p] + ns[1..][..k - 1];
      if k < |ns| { ChainDistinct(next, p, ns, 0, k); }
    }
  }

  /** Taking away the first node of a chain leaves the rest of the chain. */
  lemma FreeHead(next: map<int, int>, ref: map<int, int>, p: int, ns: seq<int>)
    requires IsChain(next, p, ns) && p != NULL && p in ref && ref[p] == 1
    ensures IsChain(next - {p}, next[p], ns[1..])
    ensures RunLength(ref, ns) == 1 + RunLength(ref - {p}, ns[1..])
  {
    forall i | 1 <= i < |ns| ensures ns[i] != p { ChainDistinct(next, p, ns, 0, i); }
    ChainFrame(next, next - {p}, next[p], ns[1..]);
    RunLengthFrame(ref, ref - {p}, ns[1..]);
  }

  /** A chain that somebody still refers to loses no node when others are freed. */
  lemma {:induction false} SurvivingChain(next: map<int, int>, next': map<int, int>, ref': map<int, int>,
                                          handles': multiset<int>, q: int, ms: seq<int>)
    requires IsChain(next, q, ms) && Exact(next', ref', handles') && (q == NULL || q in ref')
    requires forall n :: n in next' && n in next ==> next'[n] == next[n]
    ensures IsChain(next', q, ms)
    decreases |ms|
  {
    if ms != [] {
      assert q in next' && next'[q] == next[q];
      SurvivingChain(next, next', ref', handles', next[q], ms[1..]);
    }
  }

  // ----- joining chains -----

  const U16: int := 0x1_0000

  function Last(ns: seq<int>): int
    requires ns != []
  {
    ns[|ns| - 1]
  }

  /** `d` is added to the 16-bit tot_len of every node. */
  function Raised(tot: map<int, int>, ns: seq<int>, d: int): map<int, int> {
    if ns == [] then tot
    else Raised(if ns[0] in tot then tot[ns[0] := (tot[ns[0]] + d) % U16] else tot, ns[1..], d)
  }

  lemma {:induction false} RaisedIs(tot: map<int, int>, ns: seq<int>, d: int, n: int)
    requires forall i, j :: 0 <= i < j < |ns| ==> ns[i] != ns[j]
    ensures Raised(tot, ns, d).Keys == tot.Keys
    ensures n in tot ==> Raised(tot, ns, d)[n] == if n in ns then (tot[n] + d) % U16 else tot[n]
    decreases |ns|
  {
    if ns != [] {
      var tot' := if ns[0] in tot then tot[ns[0] := (tot[ns[0]] + d) % U16] else tot;
      RaisedIs(tot', ns[1..], d, n);
      assert n in ns <==> n == ns[0] || n in ns[1..];
    }
  }

  /** Chains that end apart share no node. */
  lemma ChainsApart(next: map<int, int>, h: int, hs: seq<int>, t: int, ts: seq<int>, i: nat, j: nat)
    requires IsChain(next, h, hs) && IsChain(next, t, ts) && i < |hs| && j < |ts| && Last(hs) !in ts
    ensures hs[i] != ts[j]
  {
    ChainFrom(next, h, hs, i);
    ChainFrom(next, t, ts, j);
    if hs[i] == ts[j] { ChainUnique(next, hs[i], hs[i..], ts[j..]); }
  }

  /** Pointing the last node of one chain to the first of another joins the chains. */
  lemma {:induction false} ChainCat(next: map<int, int>, h: int, hs: seq<int>, t: int, ts: seq<int>)
    requires IsChain(next, h, hs) && IsChain(next, t, ts) && hs != [] && Last(hs) !in ts
    ensures IsChain(next[Last(hs) := t], h, hs + ts)
    decreases |hs|
  {
    var next' := next[Last(hs) := t];
    assert (hs + ts)[1..] == hs[1..] + ts && (hs + ts)[0] == h;
    if |hs| == 1 {
      ChainFrame(next, next', t, ts);
      assert hs[1..] + ts == ts;
    } else {
      ChainDistinct(next, h, hs, 0, |hs| - 1);
      ChainCat(next, next[h], hs[1..], t, ts);
    }
  }

  /** The tot_len of the joined chain: the totals of its second part count for every node of its first. */
  lemma {:induction false} TotalsCat(len: map<int, int>, data: map<int, seq<int>>, tot: map<int, int>,
                                     tot': map<int, int>, hs: seq<int>, ts: seq<int>, d: int)
    requires Totals(len, data, tot, hs) && Totals(len, data, tot', ts)
    requires d == |Bytes(len, data, ts)| && |Bytes(len, data, hs)| + d < U16
    requires forall n :: n in hs && n in tot ==> n in tot' && tot'[n] == (tot[n] + d) % U16
    ensures Totals(len, data, tot', hs + ts)
    decreases |hs|
  {
    if hs == [] {
      assert hs + ts == ts;
    } else {
      var n := hs[0];
      assert n in hs && tot'[n] == tot[n] + d;
      TotalsCat(len, data, tot, tot', hs[1..], ts, d);
      assert |Bytes(len, data, hs + ts)| == tot[n] + d by { BytesConcat(len, data, hs, ts); }
      assert (hs + ts)[1..] == hs[1..] + ts && (hs + ts)[0] == n;
    }
  }

  // ----- shortening a chain -----

  lemma {:induction false} RaisedSnoc(tot: map<int, int>, ns: seq<int>, d: int, i: nat)
    requires i < |ns|
    ensures
      var t := Raised(tot, ns[..i], d);
      Raised(tot, ns[..i + 1], d) == if ns[i] in t then t[ns[i] := (t[ns[i]] + d) % U16] else t
    decreases i
  {
    if i > 0 {
      var tot' := if ns[0] in tot then tot[ns[0] := (tot[ns[0]] + d) % U16] else tot;
      RaisedSnoc(tot', ns[1..], d, i - 1);
      assert ns[..i][1..] == ns[1..][..i - 1] && ns[..i + 1][1..] == ns[1..][..i];
    }
  }

  /** The first nodes of a chain, cut behind the last of them, are a chain. */
  lemma {:induction false} ChainPrefix(next: map<int, int>, p: int, ns: seq<int>, i: nat)
    requires IsChain(next, p, ns) && i < |ns|
    ensures IsChain(next[ns[i] := NULL], p, ns[..i + 1])
    ensures ns[i] in next && IsChain(next[ns[i] := NULL], next[ns[i]], ns[i + 1..])
    ensures next[ns[i]] == if i + 1 < |ns| then ns[i + 1] else NULL
    decreases i
  {
    if i == 0 {
      CutChain(next, p, ns);
      assert ns[..1] == [p];
    } else {
      ChainPrefix(next, next[p], ns[1..], i - 1);
      ChainDistinct(next, p, ns, 0, i);
      assert ns[..i + 1][1..] == ns[1..][..i] && ns[1..][i..] == ns[i + 1..];
    }
  }

  /** Freeing nodes of what was cut off leaves the first part alone. */
  lemma ChainKept(next: map<int, int>, p: int, ns: seq<int>, i: nat, k: nat)
    requires IsChain(next, p, ns) && i < |ns| && k <= |ns| - i - 1
    ensures IsChain(Without(next[ns[i] := NULL], ns[i + 1..][..k]), p, ns[..i + 1])
  {
    var next', run := next[ns[i] := NULL], ns[i + 1..][..k];
    ChainPrefix(next, p, ns, i);
    forall n | n in ns[..i + 1] && n in next' ensures n in Without(next', run) && Without(next', run)[n] == next'[n] {
      var a :| 0 <= a <= i && ns[a] == n;
      forall b | 0 <= b < k ensures run[b] != n { ChainDistinct(next, p, ns, a, i + 1 + b); }
      WithoutIs(next', run, n);
    }
    ChainFrame(next', Without(next', run), p, ns[..i + 1]);
  }

  /** The bytes after the chain is cut behind node `i` and that node is cut to `rem` bytes. */
  lemma TrimmedBytes(len: map<int, int>, data: map<int, seq<int>>, len': map<int, int>, data': map<int, seq<int>>,
                     ns: seq<int>, i: nat, rem: nat)
    requires i < |ns| && rem <= |Part(len, data, ns[i])| && Part(len', data', ns[i]) == Part(len, data, ns[i])[..rem]
    requires forall n :: n in ns[..i] ==> Part(len', data', n) == Part(len, data, n)
    ensures
      var n := |Bytes(len, data, ns[..i])| + rem;
      n <= |Bytes(len, data, ns)| && Bytes(len', data', ns[..i + 1]) == Bytes(len, data, ns)[..n]
  {
    BytesLast(len', data', ns, i);
    BytesFrame(len, data, len', data', ns[..i]);
    BytesSplit(len, data, ns, i);
    var a, b, c := Bytes(len, data, ns[..i]), Part(len, data, ns[i]), Bytes(len, data, ns[i + 1..]);
    assert (a + (b + c))[..|a| + rem] == a + b[..rem];
  }

  lemma TrimmedLength(len: map<int, int>, data: map<int, seq<int>>, len': map<int, int>, data': map<int, seq<int>>,
                      hs: seq<int>, ts: seq<int>, ts': seq<int>, lost: int)
    requires |Bytes(len', data', ts')| == |Bytes(len, data, ts)| - lost
    requires forall n :: n in hs ==> Part(len', data', n) == Part(len, data, n)
    ensures |Bytes(len', data', hs + ts')| == |Bytes(len, data, hs + ts)| - lost
    ensures |Bytes(len, data, hs + ts)| >= |Bytes(len, data, ts)|
  {
    BytesConcat(len, data, hs, ts);
    BytesConcat(len', data', hs, ts');
    BytesFrame(len, data, len', data', hs);
  }

  /** Lowering the totals of the kept nodes by what the chain loses makes them exact, in spite of the wrapping. */
  lemma {:induction false} TrimmedTotals(len: map<int, int>, data: map<int, seq<int>>, tot: map<int, int>,
                                         len': map<int, int>, data': map<int, seq<int>>, tot': map<int, int>,
                                         hs: seq<int>, ts: seq<int>, ts': seq<int>, lost: int)
    requires Totals(len, data, tot, hs + ts) && |Bytes(len, data, hs + ts)| < U16
    requires Totals(len', data', tot', ts') && |Bytes(len', data', ts')| == |Bytes(len, data, ts)| - lost
    requires 0 < lost <= |Bytes(len, data, ts)|
    requires forall n :: n in hs ==> Part(len', data', n) == Part(len, data, n)
    requires forall n :: n in hs && n in tot ==> n in tot' && tot'[n] == (tot[n] + (U16 - lost)) % U16
    ensures Totals(len', data', tot', hs + ts')
    decreases |hs|
  {
    if hs == [] {
      assert hs + ts' == ts';
    } else {
      var n := hs[0];
      assert n in hs;
      assert (hs + ts)[0] == n && (hs + ts)[1..] == hs[1..] + ts;
      assert (hs + ts')[0] == n && (hs + ts')[1..] == hs[1..] + ts';
      TrimmedLength(len, data, len', data', hs, ts, ts', lost);
      Wraps(tot[n], lost);
      TrimmedTotals(len, data, tot, len', data', tot', hs[1..], ts, ts', lost);
    }
  }

  lemma Wraps(t: int, lost: int)
    requires 0 < lost <= t < U16
    ensures (t + (U16 - lost)) % U16 == t - lost
  {
  }

  lemma OneNode(len: map<int, int>, data: map<int, seq<int>>, tot: map<int, int>, q: int)
    ensures Bytes(len, data, [q]) == Part(len, data, q)
    ensures Totals(len, data, tot, [q]) <==> q in tot && tot[q] == |Part(len, data, q)|
  {
    assert [q][1..] == [];
    assert Bytes(len, data, [q]) == Part(len, data, q) + Bytes(len, data, []);
  }

  lemma LoweredTotals(next: map<int, int>, p: int, ns: seq<int>, i: nat, rem: int, tot: map<int, int>, d: int)
    requires IsChain(next, p, ns) && i < |ns|
    ensures
      var tot' := Raised(tot, ns[..i], d)[ns[i] := rem];
      forall n :: n in ns[..i] && n in tot ==> n in tot' && tot'[n] == (tot[n] + d) % U16
  {
    var tot' := Raised(tot, ns[..i], d)[ns[i] := rem];
    forall n | n in ns[..i] && n in tot ensures n in tot' && tot'[n] == (tot[n] + d) % U16 {
      Earlier(next, p, ns, i);
      RaisedIs(tot, ns[..i], d, n);
    }
  }

  /** Only the totals of the kept nodes change. */
  lemma OtherTotals(next: map<int, int>, p: int, ns: seq<int>, i: nat, d: int, rem: int, tot: map<int, int>)
    requires IsChain(next, p, ns) && i < |ns|
    ensures
      var tot' := Raised(tot, ns[..i], d)[ns[i] := rem];
      forall n :: n in tot && n !in ns[..i + 1] ==> n in tot' && tot'[n] == tot[n]
  {
    Earlier(next, p, ns, i);
    var tot' := Raised(tot, ns[..i], d)[ns[i] := rem];
    forall n | n in tot && n !in ns[..i + 1] ensures n in tot' && tot'[n] == tot[n] {
      RaisedIs(tot, ns[..i], d, n);
      assert ns[..i + 1] == ns[..i] + [ns[i]];
    }
  }

  /** The kept nodes keep their parts. */
  lemma SameParts(next: map<int, int>, p: int, ns: seq<int>, i: nat,
                  len: map<int, int>, data: map<int, seq<int>>, len': map<int, int>, data': map<int, seq<int>>)
    requires IsChain(next, p, ns) && i < |ns| && ns[i] in len' && ns[i] in data'
    requires len' == len[ns[i] := len'[ns[i]]] && data' == data[ns[i] := data'[ns[i]]]
    ensures forall n :: n in ns[..i] ==> Part(len', data', n) == Part(len, data, n)
  {
    Earlier(next, p, ns, i);
  }

  lemma TrimmedAt(len: map<int, int>, data: map<int, seq<int>>, tot: map<int, int>,
                  len': map<int, int>, data': map<int, seq<int>>, tot': map<int, int>, ns: seq<int>, i: nat, lost: int)
    requires i < |ns| && Totals(len, data, tot, ns) && |Bytes(len, data, ns)| < U16
    requires forall n :: n in ns[..i] ==> Part(len', data', n) == Part(len, data, n)
    requires forall n :: n in ns[..i] && n in tot ==> n in tot' && tot'[n] == (tot[n] + (U16 - lost)) % U16
    requires 0 < lost <= |Bytes(len, data, ns[i..])|
    requires ns[i] in tot' && tot'[ns[i]] == |Part(len', data', ns[i])| == |Bytes(len, data, ns[i..])| - lost
    ensures Totals(len', data', tot', ns[..i + 1])
  {
    OneNode(len', data', tot', ns[i]);
    assert ns[..i] + ns[i..] == ns && ns[..i] + [ns[i]] == ns[..i + 1];
    TrimmedTotals(len, data, tot, len', data', tot', ns[..i], ns[i..], [ns[i]], lost);
  }

  /** The kept nodes after pbuf_realloc: bytes and totals. */
  lemma Trimmed(next: map<int, int>, p: int, ns: seq<int>, i: nat, rem: int, newLen: int,
                len: map<int, int>, data: map<int, seq<int>>, tot: map<int, int>,
                len': map<int, int>, data': map<int, seq<int>>, tot': map<int, int>)
    requires IsChain(next, p, ns) && i < |ns|
    requires Totals(len, data, tot, ns) && newLen < |Bytes(len, data, ns)| < U16
    requires 0 <= rem <= |Part(len, data, ns[i])| && rem == newLen - |Bytes(len, data, ns[..i])|
    requires len' == len[ns[i] := rem] && ns[i] in data' && data' == data[ns[i] := data'[ns[i]]]
    requires Part(len', data', ns[i]) == Part(len, data, ns[i])[..rem]
    requires tot' == Raised(tot, ns[..i], U16 - (|Bytes(len, data, ns)| - newLen))[ns[i] := rem]
    ensures Totals(len', data', tot', ns[..i + 1]) && Bytes(len', data', ns[..i + 1]) == Bytes(len, data, ns)[..newLen]
  {
    var lost := |Bytes(len, data, ns)| - newLen;
    SameParts(next, p, ns, i, len, data, len', data');
    TrimmedBytes(len, data, len', data', ns, i, rem);
    LoweredTotals(next, p, ns, i, rem, tot, U16 - lost);
    BytesSplit(len, data, ns, i);
    TrimmedAt(len, data, tot, len', data', tot', ns, i, lost);
  }

  // ----- copying out -----

  /** At most `n` bytes from `offset` on. */
  function Slice(bs: seq<int>, offset: nat, n: nat): (r: seq<int>)
    ensures |r| <= n
  {
    if offset >= |bs| then [] else if offset + n <= |bs| then bs[offset..offset + n] else bs[offset..]
  }

  /** The slice after the bytes `bs` of the first node have been taken, and where it begins in the next. */
  ghost predicate TakesOff(len: map<int, int>, data: map<int, seq<int>>, ms: seq<int>, offset: nat, n: nat,
                           bs: seq<int>, offset': nat)
    requires ms != []
  {
    |bs| <= n &&
    Slice(Bytes(len, data, ms), offset, n) == bs + Slice(Bytes(len, data, ms[1..]), offset', n - |bs|)
  }

  lemma SliceSkip(len: map<int, int>, data: map<int, seq<int>>, ms: seq<int>, offset: nat, n: nat, offset': nat)
    requires ms != [] && offset >= |Part(len, data, ms[0])| && offset' == offset - |Part(len, data, ms[0])|
    ensures TakesOff(len, data, ms, offset, n, [], offset')
  {
    SliceOfSecond(Bytes(len, data, ms), Part(len, data, ms[0]), Bytes(len, data, ms[1..]), offset, n);
  }

  lemma SliceOfSecond(t: seq<int>, a: seq<int>, b: seq<int>, offset: nat, n: nat)
    requires t == a + b && offset >= |a|
    ensures Slice(t, offset, n) == [] + Slice(b, offset - |a|, n)
  {
  }

  lemma SliceTake(len: map<int, int>, data: map<int, seq<int>>, ms: seq<int>, offset: nat, n: nat, k: nat)
    requires ms != [] && ms[0] in len && ms[0] in data && offset <= len[ms[0]] <= |data[ms[0]]|
    requires k == if len[ms[0]] - offset > n then n else len[ms[0]] - offset
    ensures TakesOff(len, data, ms, offset, n, data[ms[0]][offset..offset + k], 0)
  {
    SliceOfPrefix(data[ms[0]], len[ms[0]], offset, k);
    SliceOfFirst(Bytes(len, data, ms), Part(len, data, ms[0]), Bytes(len, data, ms[1..]), offset, n, k,
                 data[ms[0]][offset..offset + k]);
  }

  lemma SliceOfPrefix(d: seq<int>, l: nat, offset: nat, k: nat)
    requires offset + k <= l <= |d|
    ensures d[..l][offset..offset + k] == d[offset..offset + k]
  {
  }

  lemma SliceOfFirst(t: seq<int>, a: seq<int>, b: seq<int>, offset: nat, n: nat, k: nat, bs: seq<int>)
    requires t == a + b && offset <= |a| && k == (if |a| - offset > n then n else |a| - offset)
    requires bs == a[offset..offset + k]
    ensures Slice(t, offset, n) == bs + Slice(b, 0, n - k)
  {
  }

  lemma PatchedTwice(s: seq<int>, i: nat, a: seq<int>, b: seq<int>)
    requires i + |a| + |b| <= |s|
    ensures Patched(Patched(s, i, a), i + |a|, b) == Patched(s, i, a + b)
  {
  }

  // ----- copying from chain to chain -----

  /** The first `off` bytes of node `i` and all bytes of the nodes before it lie behind. */
  function Behind(len: map<int, int>, data: map<int, seq<int>>, ns: seq<int>, i: nat, off: nat): nat
    requires i <= |ns|
  {
    |Bytes(len, data, ns[..i])| + off
  }

  function Ahead(len: map<int, int>, data: map<int, seq<int>>, ns: seq<int>, i: nat, off: nat): seq<int>
    requires i <= |ns|
  {
    var rest := Bytes(len, data, ns[i..]);
    if off <= |rest| then rest[off..] else []
  }

  /** Moving from the end of a node to the start of the next changes nothing. */
  lemma NextNode(len: map<int, int>, data: map<int, seq<int>>, ns: seq<int>, i: nat, off: nat)
    requires i < |ns| && off == |Part(len, data, ns[i])|
    ensures Behind(len, data, ns, i + 1, 0) == Behind(len, data, ns, i, off)
    ensures Ahead(len, data, ns, i + 1, 0) == Ahead(len, data, ns, i, off)
  {
    BytesSplit(len, data, ns, i);
    BytesLast(len, data, ns, i);
  }

  /** The bytes from `off` to `off'` of node `i` come next. */
  lemma AheadSplit(len: map<int, int>, data: map<int, seq<int>>, ns: seq<int>, i: nat, off: nat, off': nat)
    requires i < |ns| && ns[i] in len && ns[i] in data && off <= off' <= len[ns[i]] <= |data[ns[i]]|
    ensures Ahead(len, data, ns, i, off) == data[ns[i]][off..off'] + Ahead(len, data, ns, i, off')
  {
    BytesSplit(len, data, ns, i);
    SplitFirst(data[ns[i]], len[ns[i]], Bytes(len, data, ns[i + 1..]), off, off', Bytes(len, data, ns[i..]));
  }

  lemma SplitFirst(d: seq<int>, l: nat, b: seq<int>, off: nat, off': nat, t: seq<int>)
    requires off <= off' <= l <= |d| && t == d[..l] + b
    ensures t[off..] == d[off..off'] + t[off'..]
  {
  }

  lemma OtherNodes(next: map<int, int>, p: int, len: map<int, int>, data: map<int, seq<int>>, ns: seq<int>, i: nat,
                   d: seq<int>)
    requires IsChain(next, p, ns) && i < |ns|
    ensures Bytes(len, data[ns[i] := d], ns[..i]) == Bytes(len, data, ns[..i])
    ensures Bytes(len, data[ns[i] := d], ns[i + 1..]) == Bytes(len, data, ns[i + 1..])
  {
    forall j | 0 <= j < i ensures ns[j] != ns[i] { ChainDistinct(next, p, ns, j, i); }
    forall j | i < j < |ns| ensures ns[j] != ns[i] { ChainDistinct(next, p, ns, i, j); }
    BytesFrame(len, data, len, data[ns[i] := d], ns[..i]);
    BytesFrame(len, data, len, data[ns[i] := d], ns[i + 1..]);
  }

  lemma PatchPart(len: map<int, int>, data: map<int, seq<int>>, q: int, off: nat, bs: seq<int>)
    requires q in len && q in data && off + |bs| <= len[q] <= |data[q]|
    ensures Part(len, data[q := Patched(data[q], off, bs)], q) == Patched(Part(len, data, q), off, bs)
  {
  }

  lemma PatchMiddle(t: seq<int>, t': seq<int>, a: seq<int>, b: seq<int>, c: seq<int>, off: nat, bs: seq<int>, at: nat)
    requires off + |bs| <= |b| && t == a + (b + c) && t' == a + (Patched(b, off, bs) + c) && at == |a| + off
    ensures at + |bs| <= |t| && t' == Patched(t, at, bs)
  {
  }

  /** Writing inside one node of a chain writes inside the bytes of the chain. */
  lemma PatchNode(next: map<int, int>, p: int, len: map<int, int>, data: map<int, seq<int>>, ns: seq<int>, i: nat,
                  off: nat, bs: seq<int>)
    requires IsChain(next, p, ns) && i < |ns|
    requires ns[i] in len && ns[i] in data && off + |bs| <= len[ns[i]] <= |data[ns[i]]|
    ensures
      var data' := data[ns[i] := Patched(data[ns[i]], off, bs)];
      && Behind(len, data, ns, i, off) + |bs| <= |Bytes(len, data, ns)|
      && Bytes(len, data', ns) == Patched(Bytes(len, data, ns), Behind(len, data, ns, i, off), bs)
      && Bytes(len, data', ns[..i]) == Bytes(len, data, ns[..i])
  {
    var q := ns[i];
    var data' := data[q := Patched(data[q], off, bs)];
    var a, b, c := Bytes(len, data, ns[..i]), Part(len, data, q), Bytes(len, data, ns[i + 1..]);
    OtherNodes(next, p, len, data, ns, i, Patched(data[q], off, bs));
    assert Bytes(len, data, ns) == a + (b + c) by { BytesSplit(len, data, ns, i); }
    assert Bytes(len, data', ns) == a + (Patched(b, off, bs) + c) by {
      BytesSplit(len, data', ns, i);
      PatchPart(len, data, q, off, bs);
    }
    PatchMiddle(Bytes(len, data, ns), Bytes(len, data', ns), a, b, c, off, bs, Behind(len, data, ns, i, off));
  }

  /** A copy in progress: when the bytes ahead in the source have been written too, the target holds `goal`. */
  ghost predicate Copying(len: map<int, int>, data: map<int, seq<int>>, ts: seq<int>, i: nat, offTo: nat,
                          fs: seq<int>, j: nat, offFrom: nat, goal: seq<int>) {
    && i <= |ts| && j <= |fs|
    && Behind(len, data, ts, i, offTo) + |Ahead(len, data, fs, j, offFrom)| <= |Bytes(len, data, ts)|
    && Patched(Bytes(len, data, ts), Behind(len, data, ts, i, offTo), Ahead(len, data, fs, j, offFrom)) == goal
  }

  lemma PatchedOn(t: seq<int>, t': seq<int>, at: nat, at': nat, bs: seq<int>, rest: seq<int>, all: seq<int>,
                  goal: seq<int>)
    requires at + |all| <= |t| && Patched(t, at, all) == goal && all == bs + rest
    requires t' == Patched(t, at, bs) && at' == at + |bs|
    ensures at' + |rest| <= |t'| && Patched(t', at', rest) == goal
  {
    PatchedTwice(t, at, bs, rest);
  }

  lemma CopyStep(next: map<int, int>, h: int, len: map<int, int>, data: map<int, seq<int>>, ts: seq<int>, i: nat,
                 offTo: nat, offTo': nat, fs: seq<int>, j: nat, offFrom: nat, offFrom': nat, bs: seq<int>,
                 goal: seq<int>)
    requires IsChain(next, h, ts) && Copying(len, data, ts, i, offTo, fs, j, offFrom, goal) && i < |ts| && j < |fs|
    requires offTo' == offTo + |bs| && offFrom' == offFrom + |bs|
    requires ts[i] in len && ts[i] in data && offTo' <= len[ts[i]] <= |data[ts[i]]| && ts[i] !in fs
    requires fs[j] in len && fs[j] in data && offFrom' <= len[fs[j]] <= |data[fs[j]]|
    requires bs == data[fs[j]][offFrom..offFrom']
    ensures Copying(len, data[ts[i] := Patched(data[ts[i]], offTo, bs)], ts, i, offTo', fs, j, offFrom', goal)
  {
    var data' := data[ts[i] := Patched(data[ts[i]], offTo, bs)];
    assert Ahead(len, data, fs, j, offFrom) == bs + Ahead(len, data, fs, j, offFrom') by {
      AheadSplit(len, data, fs, j, offFrom, offFrom');
    }
    assert Ahead(len, data', fs, j, offFrom') == Ahead(len, data, fs, j, offFrom') by {
      BytesFrame(len, data, len, data', fs[j..]);
    }
    PatchNode(next, h, len, data, ts, i, offTo, bs);
    PatchedOn(Bytes(len, data, ts), Bytes(len, data', ts),
              Behind(len, data, ts, i, offTo), Behind(len, data', ts, i, offTo'), bs,
              Ahead(len, data', fs, j, offFrom'), Ahead(len, data, fs, j, offFrom), goal);
  }

  lemma CopyNextTo(len: map<int, int>, data: map<int, seq<int>>, ts: seq<int>, i: nat, offTo: nat,
                   fs: seq<int>, j: nat, offFrom: nat, goal: seq<int>)
    requires Copying(len, data, ts, i, offTo, fs, j, offFrom, goal) && i < |ts| && offTo == |Part(len, data, ts[i])|
    ensures Copying(len, data, ts, i + 1, 0, fs, j, offFrom, goal)
  {
    NextNode(len, data, ts, i, offTo);
  }

  lemma CopyNextFrom(len: map<int, int>, data: map<int, seq<int>>, ts: seq<int>, i: nat, offTo: nat,
                     fs: seq<int>, j: nat, offFrom: nat, goal: seq<int>)
    requires Copying(len, data, ts, i, offTo, fs, j, offFrom, goal) && j < |fs| && offFrom == |Part(len, data, fs[j])|
    ensures Copying(len, data, ts, i, offTo, fs, j + 1, 0, goal)
  {
    NextNode(len, data, fs, j, offFrom);
  }

  lemma {:induction false} TotalAt(len: map<int, int>, data: map<int, seq<int>>, tot: map<int, int>, ns: seq<int>,
                                   i: nat)
    requires Totals(len, data, tot, ns) && i < |ns|
    ensures ns[i] in tot && tot[ns[i]] == |Bytes(len, data, ns[i..])|
  {
    if i == 0 {
      assert ns[0..] == ns;
    } else {
      TotalAt(len, data, tot, ns[1..], i - 1);
      assert ns[1..][i - 1..] == ns[i..];
    }
  }

  lemma CopyDone(len: map<int, int>, data: map<int, seq<int>>, ts: seq<int>, i: nat, offTo: nat, fs: seq<int>, j: nat,
                 goal: seq<int>)
    requires Copying(len, data, ts, i, offTo, fs, j, 0, goal) && j == |fs|
    ensures Bytes(len, data, ts) == goal
  {
    assert Ahead(len, data, fs, j, 0) == [];
  }

  // ----- building a chain -----

  /** As Totals, for a chain that still lacks `rem` bytes at its end. */
  ghost predicate TotalsBut(len: map<int, int>, data: map<int, seq<int>>, tot: map<int, int>, ns: seq<int>, rem: int) {
    ns == [] || (ns[0] in tot && tot[ns[0]] == |Bytes(len, data, ns)| + rem && TotalsBut(len, data, tot, ns[1..], rem))
  }

  lemma {:induction false} TotalsDone(len: map<int, int>, data: map<int, seq<int>>, tot: map<int, int>, ns: seq<int>)
    requires TotalsBut(len, data, tot, ns, 0)
    ensures Totals(len, data, tot, ns)
  {
    if ns != [] { TotalsDone(len, data, tot, ns[1..]); }
  }

  /** A node that claims the missing bytes and brings some of them is put at the end. */
  lemma {:induction false} TotalsMore(len: map<int, int>, data: map<int, seq<int>>, tot: map<int, int>,
                                      len': map<int, int>, data': map<int, seq<int>>, tot': map<int, int>,
                                      ns: seq<int>, q: int, rem: int, rem': int)
    requires TotalsBut(len, data, tot, ns, rem)
    requires forall n :: n in ns ==> Part(len', data', n) == Part(len, data, n)
    requires forall n :: n in ns && n in tot ==> n in tot' && tot'[n] == tot[n]
    requires q in tot' && tot'[q] == rem && |Part(len', data', q)| == rem - rem'
    ensures TotalsBut(len', data', tot', ns + [q], rem')
    ensures |Bytes(len', data', ns + [q])| == |Bytes(len, data, ns)| + (rem - rem')
    decreases |ns|
  {
    assert |Bytes(len', data', ns + [q])| == |Bytes(len, data, ns)| + (rem - rem') by {
      OneNode(len', data', tot', q);
      BytesConcat(len', data', ns, [q]);
      BytesFrame(len, data, len', data', ns);
    }
    if ns == [] {
      assert ns + [q] == [q] && [q][1..] == [];
    } else {
      assert ns[0] in ns && (ns + [q])[1..] == ns[1..] + [q] && (ns + [q])[0] == ns[0];
      TotalsMore(len, data, tot, len', data', tot', ns[1..], q, rem, rem');
    }
  }

  /** The nodes of `ns` are new, each with one reference, and the older ones are as they were. */
  ghost predicate Added(next: map<int, int>, ref: map<int, int>, next0: map<int, int>, ref0: map<int, int>,
                        ns: seq<int>) {
    && (forall n {:trigger n in next} {:trigger n in next0} :: n in next <==> n in next0 || n in ns)
    && (forall n {:trigger n in ref} {:trigger n in ref0} :: n in ref <==> n in ref0 || n in ns)
    && (forall n {:trigger next[n]} :: n in next0 ==> n !in ns && n in next && next[n] == next0[n])
    && (forall n {:trigger ref[n]} :: n in ref0 ==> n !in ns && n in ref && ref[n] == ref0[n])
    && (forall n {:trigger ref[n]} :: n in ns ==> n in ref && ref[n] == 1)
  }

  lemma {:induction false} RunIsAll(ref: map<int, int>, ns: seq<int>)
    requires forall n :: n in ns ==> n in ref && ref[n] == 1
    ensures RunLength(ref, ns) == |ns|
  {
    if ns != [] {
      var n := ns[0];
      assert n in ns;
      assert n in ref && ref[n] == 1;
      RunIsAll(ref, ns[1..]);
    }
  }

  /** Giving up the only reference to a chain of new nodes takes every one of them away again. */
  lemma AddedUndone(next: map<int, int>, ref: map<int, int>, next0: map<int, int>, ref0: map<int, int>, p: int,
                    ns: seq<int>)
    requires Added(next, ref, next0, ref0, ns) && IsChain(next, p, ns) && next.Keys == ref.Keys
    ensures RunLength(ref, ns) == |ns| && Without(next, ns) == next0 && Dropped(ref, ns) == ref0
  {
    RunIsAll(ref, ns);
    forall n ensures n in Without(next, ns) <==> n in next0 {
      WithoutIs(next, ns, n);
    }
    forall n | n in next0 ensures n in Without(next, ns) && Without(next, ns)[n] == next0[n] {
      WithoutIs(next, ns, n);
    }
    DroppedAll(next, ref, next0, ref0, p, ns);
  }

  lemma DroppedAll(next: map<int, int>, ref: map<int, int>, next0: map<int, int>, ref0: map<int, int>, p: int,
                   ns: seq<int>)
    requires Added(next, ref, next0, ref0, ns) && IsChain(next, p, ns) && next.Keys == ref.Keys
    requires RunLength(ref, ns) == |ns|
    ensures Dropped(ref, ns) == ref0
  {
    assert ns[..|ns|] == ns;
    forall n ensures n in Dropped(ref, ns) <==> n in ref0 {
      DroppedIs(next, ref, p, ns, n);
    }
    forall n | n in ref0 ensures n in Dropped(ref, ns) && Dropped(ref, ns)[n] == ref0[n] {
      DroppedIs(next, ref, p, ns, n);
    }
  }

  /** A new node at the end of a chain. */
  lemma ChainSnoc(next: map<int, int>, p: int, ns: seq<int>, q: int)
    requires IsChain(next, p, ns) && ns != [] && q !in next && q != NULL
    ensures Last(ns) in next && next[Last(ns)] == NULL
    ensures IsChain(next[q := NULL][Last(ns) := q], p, ns + [q])
  {
    var next' := next[q := NULL];
    ChainFrame(next, next', p, ns);
    ChainFrom(next, p, ns, |ns| - 1);
    assert ns[|ns| - 1..] == [Last(ns)];
    assert IsChain(next', q, [q]);
    ChainCat(next', p, ns, q, [q]);
  }

  lemma AddedMore(next: map<int, int>, ref: map<int, int>, next0: map<int, int>, ref0: map<int, int>, ns: seq<int>,
                  r: int, q: int)
    requires Added(next, ref, next0, ref0, ns) && r in ns && q !in ref && q !in next
    ensures Added(next[q := NULL][r := q], ref[q := 1], next0, ref0, ns + [q])
  {
    var ns' := ns + [q];
    assert forall n :: n in ns' <==> n in ns || n == q;
  }
}
