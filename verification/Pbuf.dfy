/**
  lwIP packet buffers: reference-counted nodes linked into chains, each with the length of
  its own part and of the chain from it on. Addresses are integers and NULL is zero. Freed
  nodes leave `next` and `ref`; what their other fields hold is no longer looked at.
*/
module Pbuf {
  import opened CopyWalk
  import opened Options
  import opened PbufChain
  import opened Words

  const U8: int := 0x100

  datatype Kind = Pool | Ram | Rom | Ref

  /** A u8_t holds `n` as far as eight bits do. */
  predicate Low8(count: int, n: nat) {
    count == n % U8
  }

  /** The fields of a pbuf fit their types, and the pbuf claims no more bytes than its payload has. */
  ghost predicate NodeOk(len: map<int, int>, tot: map<int, int>, data: map<int, seq<int>>, kind: map<int, Kind>,
                         p: int) {
    && p in len && p in tot && p in data && p in kind
    && 0 <= len[p] <= |data[p]| && len[p] < U16 && 0 <= tot[p] < U16
  }

  ghost predicate NodesOk(ref: map<int, int>, len: map<int, int>, tot: map<int, int>, data: map<int, seq<int>>,
                          kind: map<int, Kind>) {
    forall p {:trigger NodeOk(len, tot, data, kind, p)} :: p in ref ==> NodeOk(len, tot, data, kind, p)
  }

  /** The free pbufs of the pool are distinct and none is in use. */
  ghost predicate PoolOk(pool: seq<int>, ref: map<int, int>) {
    && (forall i {:trigger pool[i]} :: 0 <= i < |pool| ==> pool[i] !in ref && pool[i] != NULL)
    && (forall i, j {:trigger pool[i], pool[j]} :: 0 <= i < j < |pool| ==> pool[i] != pool[j])
  }

  lemma PoolPush(pool: seq<int>, ref: map<int, int>, p: int)
    requires PoolOk(pool, ref) && p in ref && p != NULL
    ensures PoolOk([p] + pool, ref - {p}) && PoolOk(pool, ref - {p})
  {
  }

  lemma PoolPop(pool: seq<int>, ref: map<int, int>)
    requires PoolOk(pool, ref) && pool != []
    ensures PoolOk(pool[1..], ref[pool[0] := 1])
  {
  }

  /** The pool after the nodes of `ns` are given back, each in front of the ones before it. */
  function GivenBack(kind: map<int, Kind>, ns: seq<int>, pool: seq<int>): seq<int> {
    if ns == [] then pool
    else GivenBack(kind, ns[1..], if ns[0] in kind && kind[ns[0]].Pool? then [ns[0]] + pool else pool)
  }

  /** Room for protocol headers that pbuf_alloc leaves in front of the payload, rounded up to four bytes. */
  datatype Layer = Transport | Ip | Link | Raw

  function Headroom(layer: Layer): int {
    match layer
    case Transport => Align(TRANSPORT_HLEN + IP_HLEN + LINK_HLEN)
    case Ip => Align(IP_HLEN + LINK_HLEN)
    case Link => Align(LINK_HLEN)
    case Raw => 0
  }

  function Align(n: int): int {
    (n + 3) / 4 * 4
  }

  const TRANSPORT_HLEN: int := 20
  const IP_HLEN: int := 20
  const LINK_HLEN: int := 14
  const POOL_BUFSIZE: int := 2000

  /** How many pool buffers hold `rem` bytes. */
  function Buffers(rem: int): int {
    (rem + POOL_BUFSIZE - 1) / POOL_BUFSIZE
  }

  /** How many pool pbufs a packet of `length` bytes takes when the first has room for `first`. */
  function Needed(first: int, length: int): int {
    if length <= first then 1 else 1 + Buffers(length - first)
  }

  function Least(a: int, b: int): int {
    if a < b then a else b
  }

  lemma {:induction false} AllBack(kind: map<int, Kind>, ns: seq<int>, pool: seq<int>)
    requires forall n :: n in ns ==> n in kind && kind[n].Pool?
    ensures multiset(GivenBack(kind, ns, pool)) == multiset(ns) + multiset(pool)
    decreases |ns|
  {
    if ns != [] {
      var n := ns[0];
      assert n in ns;
      assert n in kind && kind[n].Pool?;
      AllBack(kind, ns[1..], [n] + pool);
      assert ns == [n] + ns[1..];
    }
  }

  /**
    The chain `ts` follows the chain `hs`, and with it its bytes; every total of the first chain is
    raised by the first of the second. The totals are exact again precisely when the sum fits.
  */
  ghost predicate Joined(len: map<int, int>, data: map<int, seq<int>>, next0: map<int, int>, tot0: map<int, int>,
                         next: map<int, int>, tot: map<int, int>, h: int, hs: seq<int>, t: int, ts: seq<int>)
    requires hs != []
  {
    && next == next0[Last(hs) := t] && IsChain(next, h, hs + ts)
    && t in tot0 && tot == Raised(tot0, hs, tot0[t])
    && Bytes(len, data, hs + ts) == Bytes(len, data, hs) + Bytes(len, data, ts)
    && (Totals(len, data, tot0, hs) && Totals(len, data, tot0, ts) ==>
          (Totals(len, data, tot, hs + ts) <==> |Bytes(len, data, hs)| + |Bytes(len, data, ts)| < U16))
  }

  /** What pbuf_dechain finds after pbuf_chain on the single pbuf `h`, and what it leaves. */
  lemma BackAgain(next: map<int, int>, ref: map<int, int>, kind: map<int, Kind>, pool: seq<int>, tot: map<int, int>,
                  h: int, l: int, t: int, ts: seq<int>)
    requires IsChain(next, h, [h]) && IsChain(next, t, ts) && t != NULL && h !in ts
    requires h in tot && t in tot && 0 <= tot[t] < U16 && 0 <= l < U16 && t in ref && ref[t] > 0
    requires tot[h] == l
    ensures ([h] + ts)[1..] == ts && t == ts[0] && ([h] + ts)[1] == t && |[h] + ts| > 1
    ensures
      var tot' := Raised(tot, [h], tot[t]);
      && h in tot' && t in tot' && (tot'[t] == tot'[h] - l <==> l + tot[t] < U16)
      && tot'[h := l] == tot
    ensures RunLength(ref[t := ref[t] + 1], ts) == 0
    ensures FreeChain(next[h := t][h := NULL], ref[t := ref[t] + 1], kind, pool, ts) == Freed(next, ref, pool)
  {
    assert [h][1..] == [];
    assert next[h] == NULL && next[h := t][h := NULL] == next;
    var ref' := ref[t := ref[t] + 1];
    assert ref'[t := ref'[t] - 1] == ref;
  }

  /** The new pool pbufs `ns` form a chain from `p`. */
  ghost predicate Building(next: map<int, int>, ref: map<int, int>, kind: map<int, Kind>, p: int, ns: seq<int>,
                           next0: map<int, int>, ref0: map<int, int>) {
    && ns != [] && IsChain(next, p, ns) && Added(next, ref, next0, ref0, ns)
    && forall n :: n in ns ==> n in kind && kind[n].Pool?
  }

  lemma BuildingMore(next: map<int, int>, ref: map<int, int>, kind: map<int, Kind>, p: int, ns: seq<int>,
                     next0: map<int, int>, ref0: map<int, int>, r: int, q: int)
    requires Building(next, ref, kind, p, ns, next0, ref0) && r == Last(ns) && q !in ref && q !in next && q != NULL
    ensures r in next && next[r] == NULL && r != q
    ensures Building(next[q := NULL][r := q], ref[q := 1], kind[q := Pool], p, ns + [q], next0, ref0)
  {
    assert r in ns;
    ChainSnoc(next, p, ns, q);
    AddedMore(next, ref, next0, ref0, ns, r, q);
  }

  /** `rem` of the `length` bytes are still missing. */
  ghost predicate Filled(len: map<int, int>, data: map<int, seq<int>>, tot: map<int, int>, ns: seq<int>, rem: int,
                         length: int) {
    TotalsBut(len, data, tot, ns, rem) && |Bytes(len, data, ns)| + rem == length && 0 <= rem
  }

  lemma FilledMore(len: map<int, int>, data: map<int, seq<int>>, tot: map<int, int>, ns: seq<int>, rem: int,
                   length: int, q: int, l: int, d: seq<int>)
    requires Filled(len, data, tot, ns, rem, length) && q !in ns && 0 <= l <= |d| && l <= rem
    ensures Filled(len[q := l], data[q := d], tot[q := rem], ns + [q], rem - l, length)
  {
    TotalsMore(len, data, tot, len[q := l], data[q := d], tot[q := rem], ns, q, rem, rem - l);
  }

  /** A negative change as a u16_t. */
  lemma Lowered(newLen: int, total: int)
    requires 0 <= newLen < total < U16
    ensures (newLen - total) % U16 == U16 - (total - newLen)
  {
  }

  lemma MoveOne(ns: seq<int>, pool: seq<int>, q: int)
    requires pool != [] && q == pool[0]
    ensures (ns + [q]) + pool[1..] == ns + pool
  {
  }

  lemma HandleKept(handles: multiset<int>, t: int)
    requires t in handles
    ensures Passed(handles, t, NULL) + multiset{t} == handles
  {
  }

  lemma HandleBack(handles: multiset<int>, q: int)
    ensures Passed(handles + multiset{q}, q, NULL) == handles
  {
  }

  /** The pbufs of `ref` have the lengths and bytes they had. */
  ghost predicate SameFields(ref: map<int, int>, len: map<int, int>, tot: map<int, int>, data: map<int, seq<int>>,
                             len': map<int, int>, tot': map<int, int>, data': map<int, seq<int>>) {
    forall n {:trigger n in ref} :: n in ref ==>
      && n in len' && n in len && len'[n] == len[n] && n in tot' && n in tot && tot'[n] == tot[n]
      && n in data' && n in data && data'[n] == data[n]
  }

  lemma SameFieldsMore(ref: map<int, int>, len: map<int, int>, tot: map<int, int>, data: map<int, seq<int>>,
                       kind: map<int, Kind>, q: int, l: int, t: int, d: seq<int>)
    requires NodesOk(ref, len, tot, data, kind) && q !in ref
    ensures SameFields(ref, len, tot, data, len[q := l], tot[q := t], data[q := d])
  {
    forall n {:trigger n in ref} | n in ref ensures n in len && n in tot && n in data {
      assert NodeOk(len, tot, data, kind, n);
    }
  }

  lemma SameFieldsRefl(ref: map<int, int>, len: map<int, int>, tot: map<int, int>, data: map<int, seq<int>>,
                       kind: map<int, Kind>)
    requires NodesOk(ref, len, tot, data, kind)
    ensures SameFields(ref, len, tot, data, len, tot, data)
  {
    forall n {:trigger n in ref} | n in ref ensures n in len && n in tot && n in data {
      assert NodeOk(len, tot, data, kind, n);
    }
  }

  lemma SameFieldsTrans(ref0: map<int, int>, ref1: map<int, int>, len0: map<int, int>, tot0: map<int, int>,
                        data0: map<int, seq<int>>, len1: map<int, int>, tot1: map<int, int>, data1: map<int, seq<int>>,
                        len2: map<int, int>, tot2: map<int, int>, data2: map<int, seq<int>>)
    requires SameFields(ref0, len0, tot0, data0, len1, tot1, data1)
    requires SameFields(ref1, len1, tot1, data1, len2, tot2, data2)
    requires forall n :: n in ref0 ==> n in ref1
    ensures SameFields(ref0, len0, tot0, data0, len2, tot2, data2)
  {
  }

  lemma OneLess(rem: int)
    requires 0 <= rem
    ensures Buffers(rem) == if rem == 0 then 0 else 1 + Buffers(rem - Least(rem, POOL_BUFSIZE))
    ensures Buffers(rem) >= 0
  {
  }

  /** How many bytes are in the first k pbufs of a chain, for each k. */
  ghost function Sizes(len: map<int, int>, data: map<int, seq<int>>, ns: seq<int>): (s: seq<int>)
    ensures |s| == |ns| + 1
  {
    seq(|ns| + 1, k requires 0 <= k <= |ns| => |Bytes(len, data, ns[..k])|)
  }

  /** The lengths and totals in a chain, by its partial sums. */
  ghost predicate Measures(len: map<int, int>, tot: map<int, int>, ns: seq<int>, s: seq<int>) {
    && |s| == |ns| + 1 && Sums(s)
    && forall k {:trigger ns[k]} :: 0 <= k < |ns| ==>
         ns[k] in len && ns[k] in tot && len[ns[k]] == s[k + 1] - s[k] && tot[ns[k]] == Full(s) - s[k]
  }

  lemma {:induction false} SizesGrow(len: map<int, int>, data: map<int, seq<int>>, ns: seq<int>, k: nat, l: nat)
    requires k <= l <= |ns|
    ensures |Bytes(len, data, ns[..k])| <= |Bytes(len, data, ns[..l])|
    decreases l
  {
    if k < l {
      SizesGrow(len, data, ns, k, l - 1);
      BytesLast(len, data, ns, l - 1);
    }
  }

  lemma SizesAreSums(len: map<int, int>, data: map<int, seq<int>>, ns: seq<int>)
    requires ns != []
    ensures Sums(Sizes(len, data, ns)) && Full(Sizes(len, data, ns)) == |Bytes(len, data, ns)|
  {
    var s := Sizes(len, data, ns);
    assert ns[..|ns|] == ns && ns[..0] == [];
    forall k, l {:trigger s[k], s[l]} | 0 <= k <= l < |s| ensures s[k] <= s[l] { SizesGrow(len, data, ns, k, l); }
  }

  /** A copy between chains without empty pbufs is never stopped. */
  lemma NoEmptyNoStop(len: map<int, int>, data: map<int, seq<int>>, ts: seq<int>, fs: seq<int>)
    requires ts != [] && fs != [] && |Bytes(len, data, fs)| <= |Bytes(len, data, ts)|
    requires forall n :: n in ts || n in fs ==> Part(len, data, n) != []
    ensures !Stopped(Sizes(len, data, ts), Sizes(len, data, fs))
  {
    var a, b := Sizes(len, data, ts), Sizes(len, data, fs);
    SizesAreSums(len, data, ts);
    SizesAreSums(len, data, fs);
    forall k {:trigger a[k]} | 0 <= k < |a| - 1 ensures a[k] < a[k + 1] { BytesLast(len, data, ts, k); }
    forall k {:trigger b[k]} | 0 <= k < |b| - 1 ensures b[k] < b[k + 1] { BytesLast(len, data, fs, k); }
    NeverStopped(a, b);
  }

  lemma Measured(len: map<int, int>, data: map<int, seq<int>>, tot: map<int, int>, ns: seq<int>)
    requires ns != [] && Totals(len, data, tot, ns)
    requires forall k {:trigger ns[k]} :: 0 <= k < |ns| ==>
      ns[k] in len && ns[k] in data && 0 <= len[ns[k]] <= |data[ns[k]]|
    ensures Measures(len, tot, ns, Sizes(len, data, ns)) && Full(Sizes(len, data, ns)) == |Bytes(len, data, ns)|
  {
    var s := Sizes(len, data, ns);
    SizesAreSums(len, data, ns);
    forall k {:trigger ns[k]} | 0 <= k < |ns|
      ensures ns[k] in tot && len[ns[k]] == s[k + 1] - s[k] && tot[ns[k]] == Full(s) - s[k]
    {
      MeasuredAt(len, data, tot, ns, k);
    }
  }

  lemma MeasuredAt(len: map<int, int>, data: map<int, seq<int>>, tot: map<int, int>, ns: seq<int>, k: nat)
    requires k < |ns| && Totals(len, data, tot, ns)
    requires ns[k] in len && ns[k] in data && 0 <= len[ns[k]] <= |data[ns[k]]|
    ensures |Bytes(len, data, ns[..k + 1])| == |Bytes(len, data, ns[..k])| + len[ns[k]]
    ensures ns[k] in tot && tot[ns[k]] == |Bytes(len, data, ns)| - |Bytes(len, data, ns[..k])|
  {
    BytesLast(len, data, ns, k);
    TotalAt(len, data, tot, ns, k);
    BytesConcat(len, data, ns[..k], ns[k..]);
    assert ns[..k] + ns[k..] == ns;
  }

  /** Both walks have passed the same number of bytes. */
  ghost predicate InStep(a: seq<int>, i: nat, offTo: nat, b: seq<int>, j: nat, offFrom: nat) {
    i < |a| && j < |b| && a[i] + offTo == b[j] + offFrom
  }

  datatype Freed = Freed(next: map<int, int>, ref: map<int, int>, pool: seq<int>)

  /** The state after one reference to the chain `ns` is given up, followed link by link. */
  function FreeChain(next: map<int, int>, ref: map<int, int>, kind: map<int, Kind>, pool: seq<int>, ns: seq<int>): Freed
    decreases |ns|
  {
    if ns == [] || ns[0] !in ref then Freed(next, ref, pool)
    else
      var p := ns[0];
      if ref[p] != 1 then Freed(next, ref[p := ref[p] - 1], pool)
      else FreeChain(next - {p}, ref - {p}, kind, if p in kind && kind[p].Pool? then [p] + pool else pool, ns[1..])
  }

  /**
    What giving up a reference comes to: exactly the head run is gone, its pool pbufs are back in the
    pool, and the first survivor has one reference less.
  */
  lemma {:induction false} FreeChainIs(next: map<int, int>, ref: map<int, int>, kind: map<int, Kind>, pool: seq<int>,
                                       p: int, ns: seq<int>)
    requires IsChain(next, p, ns)
    ensures
      var run := ns[..RunLength(ref, ns)];
      FreeChain(next, ref, kind, pool, ns) == Freed(Without(next, run), Dropped(ref, ns), GivenBack(kind, run, pool))
    decreases |ns|
  {
    if ns != [] && p in ref && ref[p] == 1 {
      FreeHead(next, ref, p, ns);
      FreeChainIs(next - {p}, ref - {p}, kind, if p in kind && kind[p].Pool? then [p] + pool else pool,
                  next[p], ns[1..]);
      var k := RunLength(ref, ns);
      assert ns[..k] == [p] + ns[1..][..k - 1];
    }
  }

  /**
    pbuf_dechain takes a count of zero from pbuf_free to mean that the rest of the chain is still
    there. That is right precisely unless the number of freed pbufs is a positive multiple of 256.
  */
  lemma CountTellsAll(next: map<int, int>, ref: map<int, int>, kind: map<int, Kind>, pool: seq<int>, p: int,
                      ns: seq<int>, count: int)
    requires IsChain(next, p, ns) && ns != [] && next.Keys == ref.Keys && Low8(count, RunLength(ref, ns))
    ensures
      var k, after := RunLength(ref, ns), FreeChain(next, ref, kind, pool, ns);
      (count == 0 <==> p in after.ref) <==> !(k > 0 && k % U8 == 0)
  {
    FreeChainIs(next, ref, kind, pool, p, ns);
    DroppedIs(next, ref, p, ns, p);
    var k := RunLength(ref, ns);
    assert k > 0 ==> ns[..k][0] == p;
    assert k == 0 ==> ns[..k] == [];
  }

  /** A chain of 256 pbufs that nobody else refers to is freed whole, and the count is zero. */
  lemma CountMissesAll(next: map<int, int>, ref: map<int, int>, kind: map<int, Kind>, pool: seq<int>, p: int,
                       ns: seq<int>)
    requires IsChain(next, p, ns) && |ns| == U8 && next.Keys == ref.Keys
    requires forall n :: n in ns ==> n in ref && ref[n] == 1
    ensures Low8(0, RunLength(ref, ns)) && p !in FreeChain(next, ref, kind, pool, ns).ref
  {
    RunIsAll(ref, ns);
    CountTellsAll(next, ref, kind, pool, p, ns, 0);
  }

  class Bufs {
    var next: map<int, int>
    var ref: map<int, int>
    var len: map<int, int>
    var tot: map<int, int>
    var data: map<int, seq<int>>     // the payload of each pbuf, as far as its memory goes
    var kind: map<int, Kind>
    var pool: seq<int>               // the free pbufs of MEMP_PBUF_POOL
    ghost var handles: multiset<int> // the references callers hold

    ghost predicate Valid()
      reads this
    {
      && Exact(next, ref, handles)
      && PoolOk(pool, ref)
      && NodesOk(ref, len, tot, data, kind)
    }

    /** No pbuf is in use, and the pool is full. */
    constructor (pool: seq<int>)
      requires PoolOk(pool, map[])
      ensures Valid() && this.pool == pool && next == map[] && handles == multiset{}
    {
      next, ref, len, tot, data, kind, this.pool, handles := map[], map[], map[], map[], map[], map[], pool, multiset{};
    }

    /** The deallocation branch of pbuf_free: the pbuf goes, the reference it held passes to the caller. */
    method Dispose(p: int) returns (q: int)
      requires Valid() && p in handles && ref[p] == 1
      modifies `next, `ref, `pool, `handles
      ensures Valid() && q == old(next)[p]
      ensures handles == Passed(old(handles), p, q)
      ensures next == old(next) - {p} && ref == old(ref) - {p}
      ensures pool == if p in kind && kind[p].Pool? then [p] + old(pool) else old(pool)
    {
      Dealloc(next, ref, handles, p);
      PoolPush(pool, ref, p);
      assert NodeOk(len, tot, data, kind, p);
      q := next[p];
      handles := Passed(handles, p, q);
      next, ref := next - {p}, ref - {p};
      if kind[p].Pool? { pool := [p] + pool; }
    }

    /** A reference to a pbuf that has others is given up. */
    method Unref(p: int)
      requires Valid() && p in handles && ref[p] > 1
      modifies `ref, `handles
      ensures Valid() && ref == old(ref)[p := old(ref)[p] - 1] && handles == Passed(old(handles), p, NULL)
    {
      DropHandle(next, ref, handles, p);
      ref := ref[p := ref[p] - 1];
      handles := Passed(handles, p, NULL);
    }

    /** count++ on a u8_t that holds `n` as far as eight bits do. */
    method Count(count: int, ghost n: nat) returns (r: int)
      requires Low8(count, n)
      ensures Low8(r, n + 1)
    {
      r := (count + 1) % U8;
    }

    /** One round of the loop in pbuf_free. */
    method FreeOne(q: int, count: int, ghost n: nat, ghost ms: seq<int>)
      returns (r: int, count': int, ghost n': nat, ghost rest: seq<int>)
      requires Valid() && IsChain(next, q, ms) && q in handles && Low8(count, n)
      modifies `next, `ref, `pool, `handles
      ensures Valid() && IsChain(next, r, rest) && |rest| < |ms|
      ensures handles == Passed(old(handles), q, r) && (r != NULL ==> r in handles)
      ensures FreeChain(next, ref, kind, pool, rest) == FreeChain(old(next), old(ref), kind, old(pool), ms)
      ensures Low8(count', n') && n' + RunLength(ref, rest) == n + RunLength(old(ref), ms)
    {
      if ref[q] - 1 == 0 {
        FreeHead(next, ref, q, ms);
        rest := ms[1..];
        count' := Count(count, n);
        n' := n + 1;
        r := Dispose(q);
      } else {
        r, rest, count', n' := NULL, [], count, n;
        Unref(q);
      }
    }

    /**
      pbuf_free under way: `n` pbufs are gone, the reference to `q` is still to be given up, `goal` is
      reached then.
    */
    ghost predicate Freeing(p: int, q: int, ms: seq<int>, n: nat, total: nat, goal: Freed, handles0: multiset<int>)
      reads this
    {
      && IsChain(next, q, ms) && handles == Passed(handles0, p, q) && (q != NULL ==> q in handles)
      && FreeChain(next, ref, kind, pool, ms) == goal && n + RunLength(ref, ms) == total
    }

    method FreeRound(q: int, count: int, ghost p: int, ghost ms: seq<int>, ghost n: nat, ghost total: nat,
                     ghost goal: Freed, ghost handles0: multiset<int>)
      returns (r: int, count': int, ghost rest: seq<int>, ghost n': nat)
      requires Valid() && Freeing(p, q, ms, n, total, goal, handles0) && q != NULL && Low8(count, n)
      modifies `next, `ref, `pool, `handles
      ensures Valid() && Freeing(p, r, rest, n', total, goal, handles0) && Low8(count', n') && |rest| < |ms|
    {
      r, count', n', rest := FreeOne(q, count, n, ms);
      PassedOn(handles0, p, q, r);
    }

    /** The loop of pbuf_free. */
    method FreeAll(p: int, ghost ns: seq<int>) returns (count: int)
      requires Valid() && IsChain(next, p, ns) && p in handles
      modifies `next, `ref, `pool, `handles
      ensures Valid()
      ensures Low8(count, RunLength(old(ref), ns))
      ensures Freed(next, ref, pool) == FreeChain(old(next), old(ref), kind, old(pool), ns)
      ensures handles == Passed(old(handles), p, NULL)
    {
      count := 0;
      var q := p;
      ghost var ms, n: nat := ns, 0;
      ghost var total, goal := RunLength(ref, ns), FreeChain(next, ref, kind, pool, ns);
      while q != NULL
        invariant Valid() && Freeing(p, q, ms, n, total, goal, old(handles)) && Low8(count, n)
        decreases |ms|
      {
        q, count, ms, n := FreeRound(q, count, p, ms, n, total, goal, old(handles));
      }
    }

    /**
      pbuf_free: one reference to the chain `ns` is given up. Exactly the pbufs of the longest run
      at its head whose only reference was the one dropped before them are deallocated, pool pbufs
      go back to the pool, and the result is the length of the run as far as eight bits hold it.
      NULL is not accepted.
    */
    method Free(p: int, ghost ns: seq<int>) returns (r: Outcome<int>)
      requires Valid() && IsChain(next, p, ns) && (p != NULL ==> p in handles)
      modifies `next, `ref, `pool, `handles
      ensures Valid()
      ensures r.Panicked? <==> p == NULL
      ensures r.Returned? ==>
        && Low8(r.value, RunLength(old(ref), ns))
        && Freed(next, ref, pool) == FreeChain(old(next), old(ref), kind, old(pool), ns)
        && handles == Passed(old(handles), p, NULL)
      ensures r.Panicked? ==> next == old(next) && ref == old(ref) && pool == old(pool) && handles == old(handles)
    {
      if p == NULL { return Panicked; }
      var count := FreeAll(p, ns);
      r := Returned(count);
    }

    /** pbuf_ref */
    method AddRef(p: int)
      requires Valid() && (p != NULL ==> p in ref)
      modifies `ref, `handles
      ensures Valid()
      ensures p == NULL ==> ref == old(ref) && handles == old(handles)
      ensures p != NULL ==> ref == old(ref)[p := old(ref)[p] + 1] && handles == old(handles) + multiset{p}
    {
      if p != NULL {
        AddHandle(next, ref, handles, p);
        ref := ref[p := ref[p] + 1];
        handles := handles + multiset{p};
      }
    }

    /** p->tot_len += d */
    method AddTotal(p: int, d: int)
      requires Valid() && p in ref
      modifies `tot
      ensures Valid() && p in old(tot) && tot == old(tot)[p := (old(tot)[p] + d) % U16]
    {
      assert NodeOk(len, tot, data, kind, p);
      tot := tot[p := (tot[p] + d) % U16];
      forall n {:trigger NodeOk(len, tot, data, kind, n)} | n in ref ensures NodeOk(len, tot, data, kind, n) {
        assert NodeOk(len, old(tot), data, kind, n);
      }
    }

    /** The walk in pbuf_cat to the last pbuf of `h`; what remains is to raise the last total. */
    method RaiseTotals(h: int, t: int, ghost hs: seq<int>) returns (p: int)
      requires Valid() && IsChain(next, h, hs) && h != NULL && t in ref && t !in hs
      modifies `tot
      ensures Valid() && p == Last(hs) && p in ref && p in next && next[p] == NULL
      ensures t in old(tot) && t in tot && tot[t] == old(tot)[t]
      ensures p in tot && p in old(tot) && tot[p] == old(tot)[p]
      ensures tot[p := (tot[p] + tot[t]) % U16] == Raised(old(tot), hs, old(tot)[t])
    {
      assert NodeOk(len, tot, data, kind, t);
      LastKept(h, hs);
      p := h;
      ghost var ms := hs;
      while next[p] != NULL
        invariant Valid() && IsChain(next, p, ms) && p != NULL && ms != [] && Last(ms) == Last(hs) && t !in ms
        invariant t in tot && tot[t] == old(tot)[t]
        invariant Last(hs) in ref && Last(hs) in tot && Last(hs) in old(tot) && tot[Last(hs)] == old(tot)[Last(hs)]
        invariant Raised(tot, ms, tot[t]) == Raised(old(tot), hs, tot[t])
        decreases |ms|
      {
        LastKept(p, ms);
        AddTotal(p, tot[t]);
        p := next[p];
        ms := ms[1..];
      }
      assert ms[1..] == [];
    }

    /** The last pbuf of a chain is in use, and no other one. */
    lemma LastKept(p: int, ns: seq<int>)
      requires Valid() && IsChain(next, p, ns) && p != NULL
      ensures Last(ns) in ref && Last(ns) in tot && (next[p] != NULL ==> Last(ns) != p)
    {
      assert Last(ns) in ns;
      ChainFrom(next, p, ns, |ns| - 1);
      assert NodeOk(len, tot, data, kind, Last(ns));
      if next[p] != NULL { ChainDistinct(next, p, ns, 0, |ns| - 1); }
    }

    /** p->next = t, where the caller gives up its reference to t. */
    method Link(p: int, t: int)
      requires Valid() && p in next && next[p] == NULL && t in handles
      modifies `next, `handles
      ensures Valid() && next == old(next)[p := t] && handles == Passed(old(handles), t, NULL)
    {
      LinkTo(next, ref, handles, p, t);
      next := next[p := t];
      handles := Passed(handles, t, NULL);
    }

    /**
      pbuf_cat: the bytes of the second chain follow those of the first, and the caller's reference
      to it is taken over. It panics if a chain is missing or the last total of the first is wrong.
      The totals are exact again precisely when the sum fits sixteen bits.
    */
    method Cat(h: int, t: int, ghost hs: seq<int>, ghost ts: seq<int>) returns (r: Outcome<()>)
      requires Valid() && IsChain(next, h, hs) && IsChain(next, t, ts)
      requires h != NULL && t != NULL ==> t in handles && Last(hs) !in ts
      modifies `next, `tot, `handles
      ensures Valid()
      ensures r.Returned? <==> h != NULL && t != NULL && EndsRight(hs, old(tot))
      ensures r.Panicked? ==> next == old(next) && handles == old(handles)
      ensures r.Returned? ==>
        && handles == Passed(old(handles), t, NULL)
        && Joined(len, data, old(next), old(tot), next, tot, h, hs, t, ts)
    {
      if h == NULL || t == NULL { return Panicked; }
      forall i | 0 <= i < |hs| ensures hs[i] != t { ChainsApart(next, h, hs, t, ts, i, 0); }
      var p := RaiseTotals(h, t, hs);
      assert NodeOk(len, tot, data, kind, p);
      if tot[p] != len[p] { return Panicked; }
      Join(p, h, t, hs, ts, old(tot));
      r := Returned(());
    }

    /** The total of the last pbuf is its length. */
    ghost predicate EndsRight(ns: seq<int>, t: map<int, int>)
      requires ns != []
      reads `len
    {
      Last(ns) in t && Last(ns) in len && t[Last(ns)] == len[Last(ns)]
    }

    /** pbuf_cat once the last pbuf `p` of the first chain is found. */
    method Join(p: int, h: int, t: int, ghost hs: seq<int>, ghost ts: seq<int>, ghost before: map<int, int>)
      requires Valid() && IsChain(next, h, hs) && IsChain(next, t, ts) && h != NULL && t != NULL
      requires t in handles && Last(hs) !in ts && p == Last(hs) && p in ref && p in next && next[p] == NULL
      requires t in before && p in tot && t in tot && tot[p := (tot[p] + tot[t]) % U16] == Raised(before, hs, before[t])
      modifies `next, `tot, `handles
      ensures Valid() && handles == Passed(old(handles), t, NULL)
      ensures Joined(len, data, old(next), before, next, tot, h, hs, t, ts)
    {
      ChainCat(next, h, hs, t, ts);
      BytesConcat(len, data, hs, ts);
      AddTotal(p, tot[t]);
      JoinedTotals(h, t, hs, ts, before);
      Link(p, t);
    }

    lemma JoinedTotals(h: int, t: int, hs: seq<int>, ts: seq<int>, before: map<int, int>)
      requires Valid() && IsChain(next, h, hs) && IsChain(next, t, ts) && h != NULL && t != NULL && Last(hs) !in ts
      requires t in before && tot == Raised(before, hs, before[t])
      ensures Totals(len, data, before, hs) && Totals(len, data, before, ts) ==>
        (Totals(len, data, tot, hs + ts) <==> |Bytes(len, data, hs)| + |Bytes(len, data, ts)| < U16)
    {
      if Totals(len, data, before, hs) && Totals(len, data, before, ts) {
        var d := before[t];
        forall i, j | 0 <= i < j < |hs| ensures hs[i] != hs[j] { ChainDistinct(next, h, hs, i, j); }
        forall n | n in before ensures n in tot && tot[n] == if n in hs then (before[n] + d) % U16 else before[n] {
          RaisedIs(before, hs, d, n);
        }
        forall n | n in ts && n in before ensures n in tot && tot[n] == before[n] {
          var j :| 0 <= j < |ts| && ts[j] == n;
          forall i | 0 <= i < |hs| ensures hs[i] != n { ChainsApart(next, h, hs, t, ts, i, j); }
        }
        TotalsFrame(len, data, before, len, data, tot, ts);
        if |Bytes(len, data, hs)| + |Bytes(len, data, ts)| < U16 {
          TotalsCat(len, data, before, tot, hs, ts, d);
        } else {
          BytesConcat(len, data, hs, ts);
          assert NodeOk(len, tot, data, kind, h);
        }
      }
    }

    /** pbuf_chain: as pbuf_cat, but the caller keeps its reference to the second chain. */
    method Chain(h: int, t: int, ghost hs: seq<int>, ghost ts: seq<int>) returns (r: Outcome<()>)
      requires Valid() && IsChain(next, h, hs) && IsChain(next, t, ts)
      requires h != NULL && t != NULL ==> t in handles && Last(hs) !in ts
      modifies `next, `tot, `ref, `handles
      ensures Valid()
      ensures r.Returned? <==> h != NULL && t != NULL && EndsRight(hs, old(tot))
      ensures r.Panicked? ==> next == old(next) && ref == old(ref) && handles == old(handles)
      ensures r.Returned? ==>
        && handles == old(handles) && t in old(ref) && ref == old(ref)[t := old(ref)[t] + 1]
        && Joined(len, data, old(next), old(tot), next, tot, h, hs, t, ts)
    {
      if h != NULL && t != NULL { HandleKept(handles, t); }
      r := Cat(h, t, hs, ts);
      if r.Returned? { AddRef(t); }
    }

    /** Cut the chain behind `p`; the reference of p->next passes to the caller. */
    method Cut(p: int) returns (q: int)
      requires Valid() && p in next && next[p] != NULL
      modifies `next, `handles
      ensures Valid() && q == old(next)[p] && q in ref && q in handles
      ensures next == old(next)[p := NULL] && handles == old(handles) + multiset{q}
    {
      Unlink(next, ref, handles, p);
      q := next[p];
      next, handles := next[p := NULL], handles + multiset{q};
    }

    /** p->tot_len = v */
    method SetTotal(p: int, v: int)
      requires Valid() && p in ref
      modifies `tot
      ensures Valid() && tot == old(tot)[p := v % U16]
    {
      assert NodeOk(len, tot, data, kind, p);
      tot := tot[p := v % U16];
      forall n {:trigger NodeOk(len, tot, data, kind, n)} | n in ref ensures NodeOk(len, tot, data, kind, n) {
        assert NodeOk(len, old(tot), data, kind, n);
      }
    }

    /** The field updates of pbuf_dechain. */
    method SplitOff(p: int, q: int)
      requires Valid() && p in next && next[p] == q && q != NULL && q != p
      modifies `next, `tot, `handles
      ensures Valid() && q in handles
      ensures next == old(next)[p := NULL] && handles == old(handles) + multiset{q}
      ensures p in len && p in old(tot) && tot == old(tot)[q := (old(tot)[p] - len[p]) % U16][p := len[p]]
    {
      assert NodeOk(len, tot, data, kind, p);
      SetTotal(q, tot[p] - len[p]);
      var _ := Cut(p);
      SetTotal(p, len[p]);
    }

    /**
      pbuf_dechain: the first pbuf is cut from the rest, and one reference to the rest is given up.
      It panics precisely if the first total is not the pbuf's own length and the next total together.
      The rest is returned if it is still there, except that a run of freed pbufs whose length is a
      multiple of 256 is mistaken for none.
    */
    method Dechain(p: int, ghost ns: seq<int>) returns (r: Outcome<int>)
      requires Valid() && IsChain(next, p, ns) && p != NULL
      modifies `next, `tot, `ref, `pool, `handles
      ensures Valid() && handles == old(handles)
      ensures r.Returned? <==> FirstRight(ns, old(tot))
      ensures r.Panicked? || |ns| == 1 ==>
        next == old(next) && tot == old(tot) && ref == old(ref) && pool == old(pool)
      ensures r.Returned? && |ns| == 1 ==> r.value == NULL
      ensures r.Returned? && |ns| > 1 ==>
        && p in len && tot == old(tot)[p := len[p]]
        && Freed(next, ref, pool) == FreeChain(old(next)[p := NULL], old(ref), kind, old(pool), ns[1..])
        && r.value == if RunLength(old(ref), ns[1..]) % U8 == 0 then ns[1] else NULL
    {
      CutChain(next, p, ns);
      assert NodeOk(len, tot, data, kind, p);
      var q := next[p];
      if q != NULL {
        assert NodeOk(len, tot, data, kind, q);
        if tot[q] != tot[p] - len[p] { return Panicked; }
        assert old(tot)[q := (old(tot)[p] - len[p]) % U16] == old(tot);
        SplitOff(p, q);
        var tailGone := FreeAll(q, ns[1..]);
        r := Returned(if tailGone > 0 then NULL else q);
      } else {
        r := if tot[p] != len[p] then Panicked else Returned(NULL);
      }
    }

    /** The first total is the length of the pbuf and, if there is one, the total of the next. */
    ghost predicate FirstRight(ns: seq<int>, t: map<int, int>)
      requires ns != []
      reads `len
    {
      && ns[0] in len && ns[0] in t
      && if |ns| == 1 then t[ns[0]] == len[ns[0]] else ns[1] in t && t[ns[1]] == t[ns[0]] - len[ns[0]]
    }

    /**
      pbuf_chain and then pbuf_dechain on a single pbuf, as far as both return. They do, and then
      everything is as it was, precisely if the sum of the lengths fits sixteen bits.
    */
    method ChainThenDechain(h: int, t: int, ghost ts: seq<int>) returns (r: Outcome<int>)
      requires Valid() && IsChain(next, h, [h]) && IsChain(next, t, ts)
      requires t != NULL ==> t in handles && h !in ts
      modifies `next, `tot, `ref, `pool, `handles
      ensures Valid() && h in old(tot) && h in len
      ensures r.Returned? <==>
        t != NULL && old(tot)[h] == len[h] && t in old(tot) && len[h] + old(tot)[t] < U16
      ensures r.Returned? ==> r.value == t
      ensures r.Returned? ==>
        next == old(next) && tot == old(tot) && ref == old(ref) && pool == old(pool) && handles == old(handles)
    {
      assert h in [h];
      assert NodeOk(len, tot, data, kind, h) && (t != NULL ==> NodeOk(len, tot, data, kind, t));
      if t != NULL && tot[h] == len[h] { BackAgain(next, ref, kind, pool, tot, h, len[h], t, ts); }
      var c := Chain(h, t, [h], ts);
      if c.Panicked? { return Panicked; }
      r := Dechain(h, [h] + ts);
    }

    /**
      The walk in pbuf_realloc over the pbufs that stay whole; `grow` is the change as a u16_t. It fails
      when the chain ends before newLen bytes.
    */
    method StepOver(p: int, newLen: int, grow: int, ghost ns: seq<int>)
      returns (ok: bool, q: int, rem: int, ghost i: nat)
      requires Valid() && IsChain(next, p, ns) && p != NULL && 0 <= newLen
      modifies `tot
      ensures Valid() && (ok <==> newLen <= |Bytes(len, data, ns)|)
      ensures ok ==> i < |ns| && q == ns[i] && q in ref && q in len
      ensures ok ==> rem == newLen - |Bytes(len, data, ns[..i])| && 0 <= rem <= len[q]
      ensures ok ==> tot == Raised(old(tot), ns[..i], grow)
    {
      q, rem, i := p, newLen, 0;
      assert ns[0..] == ns && ns[..0] == [];
      assert NodeOk(len, tot, data, kind, q);
      while rem > len[q]
        invariant Valid() && i < |ns| && q == ns[i] && q in ref && q in len && IsChain(next, q, ns[i..])
        invariant rem == newLen - |Bytes(len, data, ns[..i])| && 0 <= rem
        invariant tot == Raised(old(tot), ns[..i], grow)
        decreases |ns| - i
      {
        NextInChain(q, ns, i);
        RaisedSnoc(old(tot), ns, grow, i);
        rem := rem - len[q];
        AddTotal(q, grow);
        q := next[q];
        i := i + 1;
        if q == NULL {
          assert ns[..i] == ns;
          return false, q, rem, i;
        }
        assert NodeOk(len, tot, data, kind, q);
      }
      ok := true;
      NextInChain(q, ns, i);
      BytesSplit(len, data, ns, i);
    }

    /** The pbuf after node `i`, and the bytes up to it. */
    lemma NextInChain(q: int, ns: seq<int>, i: nat)
      requires Valid() && i < |ns| && q == ns[i] && q in ref && IsChain(next, q, ns[i..])
      ensures q in next && IsChain(next, next[q], ns[i + 1..]) && (next[q] != NULL ==> next[q] in ref)
      ensures next[q] == NULL <==> i + 1 == |ns|
      ensures i + 1 < |ns| ==> next[q] == ns[i + 1]
      ensures q in len && |Bytes(len, data, ns[..i + 1])| == |Bytes(len, data, ns[..i])| + len[q]
      ensures |Part(len, data, q)| == len[q]
    {
      assert NodeOk(len, tot, data, kind, q);
      BytesLast(len, data, ns, i);
      assert ns[i..][1..] == ns[i + 1..];
    }

    /** The new last pbuf gets its new length; a PBUF_RAM pbuf gives the rest of its memory back. */
    method Shorten(q: int, rem: int)
      requires Valid() && q in ref && q in len && 0 <= rem <= len[q]
      modifies `len, `tot, `data
      ensures Valid() && len == old(len)[q := rem] && tot == old(tot)[q := rem]
      ensures q in data && q in old(data) && rem <= |Part(old(len), old(data), q)|
      ensures Part(len, data, q) == Part(old(len), old(data), q)[..rem]
      ensures data == old(data)[q := data[q]]
    {
      assert NodeOk(len, tot, data, kind, q);
      if kind[q].Ram? && rem != len[q] { data := data[q := data[q][..rem]]; }
      len, tot := len[q := rem], tot[q := rem];
      forall n {:trigger NodeOk(len, tot, data, kind, n)} | n in ref ensures NodeOk(len, tot, data, kind, n) {
        assert NodeOk(old(len), old(tot), old(data), kind, n);
      }
    }

    /** The chain ends at its node `i` now; one reference to what followed is given up. */
    method CutAt(p: int, q: int, ghost ns: seq<int>, ghost i: nat)
      requires Valid() && IsChain(next, p, ns) && i < |ns| && q == ns[i]
      modifies `next, `ref, `pool, `handles
      ensures Valid() && handles == old(handles) && IsChain(next, p, ns[..i + 1])
      ensures Freed(next, ref, pool) == FreeChain(old(next)[q := NULL], old(ref), kind, old(pool), ns[i + 1..])
    {
      ChainPrefix(next, p, ns, i);
      if next[q] != NULL {
        FreeChainIs(next[q := NULL], ref, kind, pool, next[q], ns[i + 1..]);
        ChainKept(next, p, ns, i, RunLength(ref, ns[i + 1..]));
        var t := Cut(q);
        var _ := FreeAll(t, ns[i + 1..]);
      } else {
        assert next == next[q := NULL];
      }
    }

    /**
      pbuf_realloc: the chain keeps its first newLen bytes, its totals stay exact, if they were,
      although they are lowered by a wrapping addition, and one reference to the cut-off part is given
      up. A chain is never made longer. It panics precisely on NULL, and on a chain that claims more
      than newLen bytes and has fewer. (The source clears q->next after pbuf_free returns, here it is
      cleared before.)
    */
    method Realloc(p: int, newLen: int, ghost ns: seq<int>) returns (r: Outcome<()>, ghost ms: seq<int>)
      requires Valid() && IsChain(next, p, ns) && 0 <= newLen < U16
      modifies this
      ensures Valid() && handles == old(handles) && kind == old(kind)
      ensures r.Panicked? <==> p == NULL || Claims(old(len), old(data), old(tot), p, ns, newLen)
      ensures r.Returned? ==> p in old(tot) && ms <= ns && ms != [] && IsChain(next, p, ms)
      ensures r.Returned? && Totals(old(len), old(data), old(tot), ns) ==> Totals(len, data, tot, ms)
      ensures r.Returned? && newLen >= old(tot)[p] ==>
        && ms == ns && next == old(next) && ref == old(ref)
        && len == old(len) && tot == old(tot) && data == old(data) && pool == old(pool)
      ensures r.Returned? && newLen < old(tot)[p] ==>
        && newLen <= |Bytes(old(len), old(data), ns)|
        && Bytes(len, data, ms) == Bytes(old(len), old(data), ns)[..newLen]
        && Freed(next, ref, pool) == FreeChain(old(next)[Last(ms) := NULL], old(ref), kind, old(pool), ns[|ms|..])
        && Last(ms) in len && Last(ms) in data
        && (forall n :: n in old(tot) && n !in ms ==> n in tot && tot[n] == old(tot)[n])
        && len == old(len)[Last(ms) := len[Last(ms)]] && data == old(data)[Last(ms) := data[Last(ms)]]
    {
      ms := ns;
      if p == NULL { return Panicked, ms; }
      assert NodeOk(len, tot, data, kind, p);
      r := Returned(());
      if newLen >= tot[p] { return; }
      var ok, q, rem;
      ghost var i;
      ok, q, rem, i := StepOver(p, newLen, (newLen - tot[p]) % U16, ns);
      if !ok { return Panicked, ms; }
      ms := ns[..i + 1];
      Trim(p, q, newLen, rem, ns, i, old(tot));
      CutAt(p, q, ns, i);
    }

    /** The length fields of the new last pbuf; `tot0` are the totals before the walk to it. */
    method Trim(p: int, q: int, newLen: int, rem: int, ghost ns: seq<int>, ghost i: nat, ghost tot0: map<int, int>)
      requires Valid() && IsChain(next, p, ns) && p != NULL && i < |ns| && q == ns[i] && q in ref && q in len
      requires p in tot0 && 0 <= newLen < tot0[p] < U16 && newLen <= |Bytes(len, data, ns)|
      requires rem == newLen - |Bytes(len, data, ns[..i])| && 0 <= rem <= len[q]
      requires tot == Raised(tot0, ns[..i], (newLen - tot0[p]) % U16)
      modifies `len, `tot, `data
      ensures Valid() && Bytes(len, data, ns[..i + 1]) == Bytes(old(len), old(data), ns)[..newLen]
      ensures Totals(old(len), old(data), tot0, ns) ==> Totals(len, data, tot, ns[..i + 1])
      ensures forall n :: n in tot0 && n !in ns[..i + 1] ==> n in tot && tot[n] == tot0[n]
      ensures q in len && q in data && len == old(len)[q := len[q]] && data == old(data)[q := data[q]]
    {
      Shorten(q, rem);
      SameParts(next, p, ns, i, old(len), old(data), len, data);
      TrimmedBytes(old(len), old(data), len, data, ns, i, rem);
      OtherTotals(next, p, ns, i, (newLen - tot0[p]) % U16, rem, tot0);
      if Totals(old(len), old(data), tot0, ns) {
        Lowered(newLen, tot0[p]);
        Trimmed(next, p, ns, i, rem, newLen, old(len), old(data), tot0, len, data, tot);
      }
    }

    /** The chain claims more than `newLen` bytes and has fewer. */
    static ghost predicate Claims(len: map<int, int>, data: map<int, seq<int>>, tot: map<int, int>, p: int,
                                  ns: seq<int>, newLen: int) {
      p in tot && |Bytes(len, data, ns)| < newLen < tot[p]
    }

    /** MEMCPY into a caller's buffer. */
    method CopyOut(dst: array<int>, left: nat, bs: seq<int>)
      requires left + |bs| <= dst.Length
      modifies dst
      ensures dst[..] == Patched(old(dst[..]), left, bs)
    {
      forall j | 0 <= j < |bs| { dst[left + j] := bs[j]; }
    }

    /** One round of the loop in pbuf_copy_partial: which bytes are copied, and what is left to do. */
    method NextPart(p: int, n: nat, offset: nat, ghost ms: seq<int>) returns (bs: seq<int>, offset': nat)
      requires Valid() && IsChain(next, p, ms) && p != NULL
      ensures TakesOff(len, data, ms, offset, n, bs, offset')
    {
      assert NodeOk(len, tot, data, kind, p);
      if offset != 0 && offset >= len[p] {
        bs, offset' := [], offset - len[p];
        SliceSkip(len, data, ms, offset, n, offset');
      } else {
        var k := if len[p] - offset > n then n else len[p] - offset;
        SliceTake(len, data, ms, offset, n, k);
        bs, offset' := data[p][offset..offset + k], 0;
      }
    }

    /** The first `copied` bytes are in the buffer; with `rest` behind them it holds `goal`. */
    ghost predicate Sliced(dst: seq<int>, copied: nat, rem: nat, rest: seq<int>, size: nat, goal: seq<int>) {
      copied + rem <= |dst| && |rest| <= rem && copied + |rest| == size && Patched(dst, copied, rest) == goal
    }

    lemma SlicedMore(dst: seq<int>, dst': seq<int>, copied: nat, rem: nat, rest: seq<int>, bs: seq<int>,
                     rest': seq<int>, size: nat, goal: seq<int>)
      requires Sliced(dst, copied, rem, rest, size, goal) && rest == bs + rest' && |bs| <= rem
      requires dst' == Patched(dst, copied, bs)
      ensures Sliced(dst', copied + |bs|, rem - |bs|, rest', size, goal)
    {
      PatchedTwice(dst, copied, bs, rest');
    }

    /** pbuf_copy_partial under way: `rem` bytes are still wanted, from byte `off` of the chain `ms` on. */
    ghost predicate Slicing(p: int, ms: seq<int>, dst: seq<int>, copied: nat, rem: nat, off: nat, size: nat,
                            goal: seq<int>)
      reads this
    {
      IsChain(next, p, ms) && Sliced(dst, copied, rem, Slice(Bytes(len, data, ms), off, rem), size, goal)
    }

    /** One round of the loop. */
    method SliceNext(p: int, dst: array<int>, copied: nat, rem: nat, off: nat, ghost ms: seq<int>,
                     ghost size: nat, ghost goal: seq<int>)
      returns (p': int, copied': nat, rem': nat, off': nat, ghost ms': seq<int>)
      requires Valid() && Slicing(p, ms, dst[..], copied, rem, off, size, goal) && p != NULL
      modifies dst
      ensures Slicing(p', ms', dst[..], copied', rem', off', size, goal) && |ms'| < |ms|
    {
      ghost var before, rest := dst[..], Slice(Bytes(len, data, ms), off, rem);
      var bs;
      bs, off' := NextPart(p, rem, off, ms);
      p', copied', rem', ms' := next[p], copied + |bs|, rem - |bs|, ms[1..];
      CopyOut(dst, copied, bs);
      SlicedMore(before, dst[..], copied, rem, rest, bs, Slice(Bytes(len, data, ms'), off', rem'), size, goal);
    }

    lemma SliceStarts(p: int, ns: seq<int>, dst: seq<int>, n: nat, offset: nat, all: seq<int>)
      requires IsChain(next, p, ns) && n <= |dst| && all == Slice(Bytes(len, data, ns), offset, n)
      ensures Slicing(p, ns, dst, 0, n, offset, |all|, Patched(dst, 0, all))
    {
    }

    lemma SliceEnds(p: int, ms: seq<int>, dst: seq<int>, copied: nat, rem: nat, off: nat, size: nat, goal: seq<int>)
      requires Slicing(p, ms, dst, copied, rem, off, size, goal) && (rem == 0 || p == NULL)
      ensures copied == size && dst == goal
    {
      assert Slice(Bytes(len, data, ms), off, rem) == [];
    }

    /** The loop of pbuf_copy_partial. */
    method CopySlice(buf: int, dst: array<int>, n: nat, offset: nat, ghost ns: seq<int>, ghost all: seq<int>)
      returns (copied: nat)
      requires Valid() && IsChain(next, buf, ns) && n <= dst.Length && all == Slice(Bytes(len, data, ns), offset, n)
      modifies dst
      ensures copied == |all| && dst[..] == Patched(old(dst[..]), 0, all)
    {
      copied := 0;
      ghost var goal := Patched(dst[..], 0, all);
      SliceStarts(buf, ns, dst[..], n, offset, all);
      var p, rem: nat, off: nat := buf, n, offset;
      ghost var ms := ns;
      while rem != 0 && p != NULL
        invariant Slicing(p, ms, dst[..], copied, rem, off, |all|, goal)
        decreases |ms|
      {
        p, copied, rem, off, ms := SliceNext(p, dst, copied, rem, off, ms, |all|, goal);
      }
      SliceEnds(p, ms, dst[..], copied, rem, off, |all|, goal);
    }

    /**
      pbuf_copy_partial: the buffer gets exactly the asked-for slice of the packet, and nothing behind
      it changes. A packet and a buffer must be there.
    */
    method CopyPartial(buf: int, dst: array?<int>, n: nat, offset: nat, ghost ns: seq<int>) returns (r: Outcome<nat>)
      requires Valid() && IsChain(next, buf, ns) && n < U16 && offset < U16
      requires dst != null ==> n <= dst.Length
      modifies dst
      ensures r.Panicked? <==> buf == NULL || dst == null
      ensures r.Panicked? && dst != null ==> dst[..] == old(dst[..])
      ensures r.Returned? ==>
        && r.value == |Slice(Bytes(len, data, ns), offset, n)|
        && dst[..] == Patched(old(dst[..]), 0, Slice(Bytes(len, data, ns), offset, n))
    {
      if buf == NULL || dst == null { return Panicked; }
      var copied := CopySlice(buf, dst, n, offset, ns, Slice(Bytes(len, data, ns), offset, n));
      r := Returned(copied);
    }

    /** Bytes [off, off + |bs|) of a pbuf are overwritten. */
    method Write(p: int, off: nat, bs: seq<int>)
      requires Valid() && p in ref && p in len && p in data && off + |bs| <= len[p]
      modifies `data
      ensures Valid() && off + |bs| <= |old(data)[p]| && data == old(data)[p := Patched(old(data)[p], off, bs)]
    {
      assert NodeOk(len, tot, data, kind, p);
      data := data[p := Patched(data[p], off, bs)];
      forall n {:trigger NodeOk(len, tot, data, kind, n)} | n in ref ensures NodeOk(len, tot, data, kind, n) {
        assert NodeOk(len, tot, old(data), kind, n);
      }
    }

    /** One part is copied: as much as the source pbuf has left or the target pbuf has room for. */
    method CopyPart(to: int, offTo: nat, from: int, offFrom: nat, ghost h: int, ghost ts: seq<int>, ghost i: nat,
                    ghost fs: seq<int>, ghost j: nat, ghost goal: seq<int>) returns (offTo': nat, offFrom': nat)
      requires Valid() && IsChain(next, h, ts) && forall n :: n in ts ==> n !in fs
      requires At(to, offTo, ts, i) && to != NULL && At(from, offFrom, fs, j) && from != NULL
      requires Copying(len, data, ts, i, offTo, fs, j, offFrom, goal)
      modifies `data
      ensures Valid() && At(to, offTo', ts, i) && At(from, offFrom', fs, j)
      ensures offTo' - offTo == offFrom' - offFrom && (offTo' == len[to] || offFrom' == len[from])
      ensures Copying(len, data, ts, i, offTo', fs, j, offFrom', goal)
      ensures SameOutside(ts, old(data))
    {
      assert NodeOk(len, tot, data, kind, to) && NodeOk(len, tot, data, kind, from);
      var k := if len[to] - offTo >= len[from] - offFrom then len[from] - offFrom else len[to] - offTo;
      offTo', offFrom' := offTo + k, offFrom + k;
      var bs := data[from][offFrom..offFrom'];
      CopyStep(next, h, len, data, ts, i, offTo, offTo', fs, j, offFrom, offFrom', bs, goal);
      Write(to, offTo, bs);
    }

    /** The test for a packet queue: this pbuf ends its packet, yet another pbuf follows. */
    predicate EndsEarly(p: int)
      reads `next, `len, `tot
    {
      p != NULL && p in len && p in tot && p in next && len[p] == tot[p] && next[p] != NULL
    }

    /** The test by lengths. */
    lemma EndsEarlyIs(p: int, ns: seq<int>, i: nat, s: seq<int>)
      requires At(p, 0, ns, i) && Measures(len, tot, ns, s) && Exact(next, ref, handles)
      ensures EndsEarly(p) <==> Early(s, i)
    {
      if p != NULL {
        assert p == ns[i] && ns[i..][1..] == ns[i + 1..];
        assert IsChain(next, next[p], ns[i + 1..]);
      }
    }

    /** A walk over the chain `ns` stands at byte `off` of its node `i`. */
    ghost predicate At(p: int, off: nat, ns: seq<int>, i: nat)
      reads `next, `ref, `len
    {
      i <= |ns| && IsChain(next, p, ns[i..]) && (p != NULL ==> p in ref && p in len && off <= len[p])
    }

    ghost predicate SameOutside(ts: seq<int>, before: map<int, seq<int>>)
      reads `data
    {
      data.Keys == before.Keys && forall n :: n in data && n !in ts ==> data[n] == before[n]
    }

    /** On to the next target pbuf, if this one is full. */
    method NextTo(to: int, offTo: nat, ghost ts: seq<int>, ghost i: nat, ghost fs: seq<int>, ghost j: nat,
                  ghost offFrom: nat, ghost goal: seq<int>)
      returns (to': int, offTo': nat, ghost i': nat)
      requires Valid() && At(to, offTo, ts, i) && to != NULL && Copying(len, data, ts, i, offTo, fs, j, offFrom, goal)
      ensures At(to', offTo', ts, i') && Copying(len, data, ts, i', offTo', fs, j, offFrom, goal)
      ensures if offTo == len[to] then i' == i + 1 && offTo' == 0 else i' == i && offTo' == offTo
    {
      to', offTo', i' := to, offTo, i;
      if offTo == len[to] {
        assert NodeOk(len, tot, data, kind, to);
        CopyNextTo(len, data, ts, i, offTo, fs, j, offFrom, goal);
        to', offTo', i' := Follow(to, ts, i), 0, i + 1;
      }
    }

    /** On to the next source pbuf, if this one is done. */
    method NextFrom(from: int, offFrom: nat, ghost ts: seq<int>, ghost i: nat, ghost offTo: nat, ghost fs: seq<int>,
                    ghost j: nat, ghost goal: seq<int>)
      returns (from': int, offFrom': nat, ghost j': nat)
      requires Valid() && At(from, offFrom, fs, j) && from != NULL
      requires Copying(len, data, ts, i, offTo, fs, j, offFrom, goal)
      ensures At(from', offFrom', fs, j') && Copying(len, data, ts, i, offTo, fs, j', offFrom', goal)
      ensures if offFrom == len[from] then j' == j + 1 && offFrom' == 0 else j' == j && offFrom' == offFrom
      ensures from' == NULL ==> offFrom' == 0
    {
      from', offFrom', j' := from, offFrom, j;
      if offFrom >= len[from] {
        assert NodeOk(len, tot, data, kind, from);
        CopyNextFrom(len, data, ts, i, offTo, fs, j, offFrom, goal);
        from', offFrom', j' := Follow(from, fs, j), 0, j + 1;
      }
    }

    function Follow(p: int, ghost ns: seq<int>, ghost i: nat): (q: int)
      requires Valid() && At(p, 0, ns, i) && p != NULL
      reads this
      ensures i + 1 <= |ns| && At(q, 0, ns, i + 1)
    {
      assert ns[i..][1..] == ns[i + 1..];
      assert next[p] != NULL ==> NodeOk(len, tot, data, kind, next[p]);
      next[p]
    }

    ghost predicate InCopy(to: int, offTo: nat, from: int, offFrom: nat, ts: seq<int>, i: nat, fs: seq<int>, j: nat,
                           goal: seq<int>)
      reads this
    {
      && At(to, offTo, ts, i) && At(from, offFrom, fs, j) && (from == NULL ==> offFrom == 0)
      && Copying(len, data, ts, i, offTo, fs, j, offFrom, goal)
    }

    /** One round of the loop in pbuf_copy, up to the tests for packet queues. */
    method CopyRound(to: int, offTo: nat, from: int, offFrom: nat, ghost h: int, ghost ts: seq<int>, ghost i: nat,
                     ghost fs: seq<int>, ghost j: nat, ghost goal: seq<int>, ghost a: seq<int>, ghost b: seq<int>)
      returns (to': int, offTo': nat, from': int, offFrom': nat, ghost i': nat, ghost j': nat)
      requires Valid() && InCopy(to, offTo, from, offFrom, ts, i, fs, j, goal) && to != NULL && from != NULL
      requires IsChain(next, h, ts) && forall n :: n in ts ==> n !in fs
      requires Measures(len, tot, ts, a) && Measures(len, tot, fs, b) && InStep(a, i, offTo, b, j, offFrom)
      modifies `data
      ensures Valid() && InCopy(to', offTo', from', offFrom', ts, i', fs, j', goal) && i' + j' > i + j
      ensures SameOutside(ts, old(data))
      ensures i + 1 < |a| && j + 1 < |b| && i' == StepTo(a, b, i, j) && j' == StepFrom(a, b, i, j)
      ensures InStep(a, i', offTo', b, j', offFrom')
    {
      assert to == ts[i] && from == fs[j];
      offTo', offFrom' := CopyPart(to, offTo, from, offFrom, h, ts, i, fs, j, goal);
      to', offTo', i' := NextTo(to, offTo', ts, i, fs, j, offFrom', goal);
      from', offFrom', j' := NextFrom(from, offFrom', ts, i', offTo', fs, j, goal);
    }

    /** Where the loop of pbuf_copy is: on its way, or about to find that the target has ended. */
    ghost predicate OnTheWay(to: int, offTo: nat, from: int, offFrom: nat, i: nat, j: nat, a: seq<int>, b: seq<int>) {
      && InStep(a, i, offTo, b, j, offFrom) && |a| > 1 && |b| > 1
      && if to == NULL && from != NULL then Stopped(a, b) else Walking(a, b, i, j)
    }

    /** The tests after a round stop the loop only if that was to be expected. */
    lemma RoundTested(to: int, offTo: nat, from: int, offFrom: nat, ts: seq<int>, i: nat, fs: seq<int>, j: nat,
                      i': nat, j': nat, a: seq<int>, b: seq<int>)
      requires Exact(next, ref, handles) && At(to, offTo, ts, i') && At(from, offFrom, fs, j')
      requires Measures(len, tot, ts, a) && Measures(len, tot, fs, b) && Walking(a, b, i, j)
      requires i + 1 < |a| && j + 1 < |b| && i' == StepTo(a, b, i, j) && j' == StepFrom(a, b, i, j)
      requires InStep(a, i', offTo, b, j', offFrom)
      ensures EndsEarly(from) || EndsEarly(to) ==> Stopped(a, b)
      ensures !EndsEarly(from) && !EndsEarly(to) ==> OnTheWay(to, offTo, from, offFrom, i', j', a, b)
    {
      EndsEarlyIs(to, ts, i', a);
      EndsEarlyIs(from, fs, j', b);
      if Caught(a, b, i', j') { CaughtIsStopped(a, b, i, j); } else { StepWalks(a, b, i, j); }
    }

    /**
      pbuf_copy: the target gets the bytes of the source and keeps its own behind them. It panics
      precisely if a chain is missing, the target is shorter, or empty pbufs at the end of a chain
      stop the walk.
    */
    method Copy(pTo: int, pFrom: int, ghost ts: seq<int>, ghost fs: seq<int>) returns (r: Outcome<()>)
      requires Valid() && IsChain(next, pTo, ts) && IsChain(next, pFrom, fs)
      requires Totals(len, data, tot, ts) && Totals(len, data, tot, fs)
      requires forall n :: n in ts ==> n !in fs
      modifies `data
      ensures Valid() && SameOutside(ts, old(data))
      ensures r.Panicked? <==>
        || pTo == NULL || pFrom == NULL || |Bytes(len, old(data), ts)| < |Bytes(len, old(data), fs)|
        || Stopped(Sizes(len, old(data), ts), Sizes(len, old(data), fs))
      ensures r.Returned? ==> Bytes(len, data, ts) == Patched(Bytes(len, old(data), ts), 0, Bytes(len, old(data), fs))
    {
      if pTo == NULL || pFrom == NULL { return Panicked; }
      assert NodeOk(len, tot, data, kind, pTo) && NodeOk(len, tot, data, kind, pFrom);
      if tot[pTo] < tot[pFrom] { return Panicked; }
      r := CopyAll(pTo, pFrom, ts, fs, Sizes(len, data, ts), Sizes(len, data, fs));
    }

    /** A round with the tests before and after it. */
    method CopyTurn(to: int, offTo: nat, from: int, offFrom: nat, ghost h: int, ghost ts: seq<int>, ghost i: nat,
                    ghost fs: seq<int>, ghost j: nat, ghost goal: seq<int>, ghost a: seq<int>, ghost b: seq<int>,
                    ghost before: map<int, seq<int>>)
      returns (stop: bool, to': int, offTo': nat, from': int, offFrom': nat, ghost i': nat, ghost j': nat)
      requires Valid() && InCopy(to, offTo, from, offFrom, ts, i, fs, j, goal) && from != NULL && IsChain(next, h, ts)
      requires forall n :: n in ts ==> n !in fs
      requires Measures(len, tot, ts, a) && Measures(len, tot, fs, b) && OnTheWay(to, offTo, from, offFrom, i, j, a, b)
      requires SameOutside(ts, before)
      modifies `data
      ensures Valid() && SameOutside(ts, before)
      ensures stop ==> Stopped(a, b)
      ensures !stop ==>
        && InCopy(to', offTo', from', offFrom', ts, i', fs, j', goal) && i' + j' > i + j
        && OnTheWay(to', offTo', from', offFrom', i', j', a, b)
    {
      stop, to', offTo', from', offFrom', i', j' := true, to, offTo, from, offFrom, i, j;
      if to == NULL { return; }
      to', offTo', from', offFrom', i', j' := CopyRound(to, offTo, from, offFrom, h, ts, i, fs, j, goal, a, b);
      RoundTested(to', offTo', from', offFrom', ts, i, fs, j, i', j', a, b);
      stop := EndsEarly(from') || EndsEarly(to');
    }

    /** The loop of pbuf_copy. */
    method CopyAll(pTo: int, pFrom: int, ghost ts: seq<int>, ghost fs: seq<int>, ghost a: seq<int>, ghost b: seq<int>)
      returns (r: Outcome<()>)
      requires Valid() && IsChain(next, pTo, ts) && IsChain(next, pFrom, fs) && pTo != NULL && pFrom != NULL
      requires Totals(len, data, tot, ts) && Totals(len, data, tot, fs)
      requires a == Sizes(len, data, ts) && b == Sizes(len, data, fs)
      requires |Bytes(len, data, fs)| <= |Bytes(len, data, ts)| && forall n :: n in ts ==> n !in fs
      modifies `data
      ensures Valid() && SameOutside(ts, old(data))
      ensures r.Panicked? <==> Stopped(a, b)
      ensures r.Returned? ==> Bytes(len, data, ts) == Patched(Bytes(len, old(data), ts), 0, Bytes(len, old(data), fs))
    {
      ghost var goal := Patched(Bytes(len, data, ts), 0, Bytes(len, data, fs));
      var to, from := pTo, pFrom;
      var offTo: nat, offFrom: nat := 0, 0;
      ghost var i: nat, j: nat := 0, 0;
      StartCopy(pTo, pFrom, ts, fs, goal, a, b);
      while from != NULL
        invariant Valid() && InCopy(to, offTo, from, offFrom, ts, i, fs, j, goal) && SameOutside(ts, old(data))
        invariant OnTheWay(to, offTo, from, offFrom, i, j, a, b)
        decreases |ts| - i + |fs| - j
      {
        var stop;
        stop, to, offTo, from, offFrom, i, j :=
          CopyTurn(to, offTo, from, offFrom, pTo, ts, i, fs, j, goal, a, b, old(data));
        if stop { return Panicked; }
      }
      EndOfCopy(to, offTo, ts, i, fs, j, goal, a, b);
      r := Returned(());
    }

    lemma EndOfCopy(to: int, offTo: nat, ts: seq<int>, i: nat, fs: seq<int>, j: nat, goal: seq<int>, a: seq<int>,
                    b: seq<int>)
      requires InCopy(to, offTo, NULL, 0, ts, i, fs, j, goal) && OnTheWay(to, offTo, NULL, 0, i, j, a, b)
      requires |b| == |fs| + 1
      ensures !Stopped(a, b) && Bytes(len, data, ts) == goal
    {
      assert fs[j..] == [];
      DoneIsNotStopped(a, b, i, j);
      CopyDone(len, data, ts, i, offTo, fs, j, goal);
    }

    lemma StartCopy(pTo: int, pFrom: int, ts: seq<int>, fs: seq<int>, goal: seq<int>, a: seq<int>, b: seq<int>)
      requires Valid() && IsChain(next, pTo, ts) && IsChain(next, pFrom, fs) && pTo != NULL && pFrom != NULL
      requires Totals(len, data, tot, ts) && Totals(len, data, tot, fs)
      requires |Bytes(len, data, ts)| >= |Bytes(len, data, fs)|
      requires goal == Patched(Bytes(len, data, ts), 0, Bytes(len, data, fs))
      requires a == Sizes(len, data, ts) && b == Sizes(len, data, fs)
      ensures InCopy(pTo, 0, pFrom, 0, ts, 0, fs, 0, goal)
      ensures Measures(len, tot, ts, a) && Measures(len, tot, fs, b) && OnTheWay(pTo, 0, pFrom, 0, 0, 0, a, b)
    {
      assert NodeOk(len, tot, data, kind, pTo) && NodeOk(len, tot, data, kind, pFrom);
      assert ts[0..] == ts && fs[0..] == fs && ts[..0] == [];
      assert Ahead(len, data, fs, 0, 0) == Bytes(len, data, fs);
      ChainMeasured(pTo, ts, a);
      ChainMeasured(pFrom, fs, b);
      WalkStarts(a, b);
    }

    lemma ChainMeasured(p: int, ns: seq<int>, s: seq<int>)
      requires Valid() && IsChain(next, p, ns) && p != NULL && Totals(len, data, tot, ns) && s == Sizes(len, data, ns)
      ensures Measures(len, tot, ns, s) && Full(s) == |Bytes(len, data, ns)|
    {
      forall k | 0 <= k < |ns| ensures ns[k] in len && ns[k] in data && 0 <= len[ns[k]] <= |data[ns[k]]| {
        ChainFrom(next, p, ns, k);
        assert NodeOk(len, tot, data, kind, ns[k]);
      }
      Measured(len, data, tot, ns);
    }

    /** A pbuf from the pool, with as many of `rem` bytes as fit; what its payload holds is not said. */
    method TakePool(rem: int, room: nat) returns (q: int)
      requires Valid() && 0 <= rem < U16 && pool != []
      modifies this
      ensures Valid() && q == old(pool)[0] && q != NULL && q !in old(ref) && pool == old(pool)[1..]
      ensures next == old(next)[q := NULL] && ref == old(ref)[q := 1] && handles == old(handles) + multiset{q}
      ensures len == old(len)[q := Least(rem, room)] && tot == old(tot)[q := rem] && kind == old(kind)[q := Pool]
      ensures q in data && |data[q]| == room && data == old(data)[q := data[q]]
    {
      q := pool[0];
      NewNode(next, ref, handles, q);
      PoolPop(pool, ref);
      next, ref, handles, pool := next[q := NULL], ref[q := 1], handles + multiset{q}, pool[1..];
      len, tot, kind, data := len[q := Least(rem, room)], tot[q := rem], kind[q := Pool], data[q := seq(room, _ => 0)];
      forall n {:trigger NodeOk(len, tot, data, kind, n)} | n in ref ensures NodeOk(len, tot, data, kind, n) {
        assert n != q ==> NodeOk(old(len), old(tot), old(data), old(kind), n);
      }
    }

    /** The chain `ns` from `p` has been taken from the pool `pool0`; `rem` of its bytes are still missing. */
    ghost predicate Partial(p: int, ns: seq<int>, rem: int, length: int, next0: map<int, int>, ref0: map<int, int>,
                            pool0: seq<int>)
      reads this
    {
      && Building(next, ref, kind, p, ns, next0, ref0) && ns + pool == pool0
      && Filled(len, data, tot, ns, rem, length)
    }

    /** The head of the chain. */
    method TakeHead(length: int, room: nat) returns (p: int, rem: int)
      requires Valid() && 0 <= length < U16 && pool != []
      modifies this
      ensures Valid() && p != NULL && handles == old(handles) + multiset{p} && rem == length - Least(length, room)
      ensures Partial(p, [p], rem, length, old(next), old(ref), old(pool))
      ensures SameFields(old(ref), old(len), old(tot), old(data), len, tot, data)
    {
      p := TakePool(length, room);
      rem := length - len[p];
      OneNode(len, data, tot, p);
      assert [p][1..] == [];
      SameFieldsMore(old(ref), old(len), old(tot), old(data), old(kind), p, len[p], tot[p], data[p]);
    }

    /** One round of the loop in pbuf_alloc: the next pbuf of the chain, if the pool has one. */
    method TakeMore(p: int, r: int, rem: int, ghost ns: seq<int>, ghost length: int,
                    ghost next0: map<int, int>, ghost ref0: map<int, int>, ghost pool0: seq<int>)
      returns (q: int, rem': int)
      requires Valid() && 0 < rem <= length < U16 && Partial(p, ns, rem, length, next0, ref0, pool0) && r == Last(ns)
      requires pool != []
      modifies this
      ensures Valid() && q != NULL && handles == old(handles) && rem' == rem - Least(rem, POOL_BUFSIZE)
      ensures Partial(p, ns + [q], rem', length, next0, ref0, pool0) && ref == old(ref)[q := 1] && |pool| < |old(pool)|
      ensures SameFields(old(ref), old(len), old(tot), old(data), len, tot, data)
    {
      BuildingMore(next, ref, kind, p, ns, next0, ref0, r, pool[0]);
      assert pool[0] !in ns;
      q := TakePool(rem, POOL_BUFSIZE);
      rem' := rem - len[q];
      FilledMore(old(len), old(data), old(tot), ns, rem, length, q, len[q], data[q]);
      SameFieldsMore(old(ref), old(len), old(tot), old(data), old(kind), q, len[q], rem, data[q]);
      MoveOne(ns, old(pool), q);
      HandleBack(old(handles), q);
      Link(r, q);
    }

    /** The pool ran out: the chain so far is freed, which gives back every pbuf that was taken. */
    method GiveUp(p: int, ghost ns: seq<int>, ghost next0: map<int, int>, ghost ref0: map<int, int>)
      requires Valid() && p in handles && Building(next, ref, kind, p, ns, next0, ref0)
      modifies `next, `ref, `pool, `handles
      ensures Valid() && handles == Passed(old(handles), p, NULL)
      ensures next == next0 && ref == ref0 && multiset(pool) == multiset(ns) + multiset(old(pool))
    {
      FreeChainIs(next, ref, kind, pool, p, ns);
      AddedUndone(next, ref, next0, ref0, p, ns);
      AllBack(kind, ns, pool);
      assert ns[..|ns|] == ns;
      var _ := FreeAll(p, ns);
    }

    /** The loop in pbuf_alloc: it ends when nothing is missing, or when something is and the pool is empty. */
    method TakeRest(p: int, missing: int, ghost length: int, ghost next0: map<int, int>, ghost ref0: map<int, int>,
                    ghost pool0: seq<int>)
      returns (rem: int, ghost ns: seq<int>)
      requires Valid() && p != NULL && 0 <= missing <= length < U16
      requires Partial(p, [p], missing, length, next0, ref0, pool0)
      modifies this
      ensures Valid() && handles == old(handles) && SameFields(old(ref), old(len), old(tot), old(data), len, tot, data)
      ensures Partial(p, ns, rem, length, next0, ref0, pool0) && (rem > 0 ==> pool == [])
      ensures |ns| + Buffers(rem) == 1 + Buffers(missing)
    {
      SameFieldsRefl(ref, len, tot, data, kind);
      var r := p;
      rem, ns := missing, [p];
      while rem > 0 && pool != []
        invariant Valid() && Partial(p, ns, rem, length, next0, ref0, pool0) && r == Last(ns) && rem <= length
        invariant handles == old(handles) && SameFields(old(ref), old(len), old(tot), old(data), len, tot, data)
        invariant |ns| + Buffers(rem) == 1 + Buffers(missing) && forall n :: n in old(ref) ==> n in ref
        decreases |pool|
      {
        OneLess(rem);
        ghost var ref1, len1, tot1, data1 := ref, len, tot, data;
        r, rem := TakeMore(p, r, rem, ns, length, next0, ref0, pool0);
        ns := ns + [r];
        SameFieldsTrans(old(ref), ref1, old(len), old(tot), old(data), len1, tot1, data1, len, tot, data);
      }
    }

    /** As much of the chain as the pool allows. */
    method TakeAll(first: nat, length: int) returns (p: int, rem: int, ghost ns: seq<int>)
      requires Valid() && 0 <= length < U16 && pool != []
      modifies this
      ensures Valid() && p != NULL && handles == old(handles) + multiset{p}
      ensures SameFields(old(ref), old(len), old(tot), old(data), len, tot, data)
      ensures Partial(p, ns, rem, length, old(next), old(ref), old(pool))
      ensures rem == 0 <==> |old(pool)| >= Needed(first, length)
    {
      p, rem := TakeHead(length, first);
      ghost var ref1, len1, tot1, data1 := ref, len, tot, data;
      rem, ns := TakeRest(p, rem, length, old(next), old(ref), old(pool));
      SameFieldsTrans(old(ref), ref1, old(len), old(tot), old(data), len1, tot1, data1, len, tot, data);
      OneLess(rem);
      assert |ns| + |pool| == |old(pool)|;
    }

    /** The chain `ns` from `p` is new, came from the pool, carries `length` bytes and has exact totals. */
    ghost predicate Fresh(p: int, ns: seq<int>, length: int, next0: map<int, int>, ref0: map<int, int>, pool0: seq<int>)
      reads this
    {
      && Building(next, ref, kind, p, ns, next0, ref0) && ns + pool == pool0
      && Totals(len, data, tot, ns) && |Bytes(len, data, ns)| == length
    }

    /**
      pbuf_alloc for PBUF_POOL: a new chain of exactly `length` bytes with exact totals, or nothing.
      It fails precisely when the pool has too few pbufs, and then every pbuf taken is back in the pool.
    */
    method AllocPool(layer: Layer, length: int) returns (p: int, ghost ns: seq<int>)
      requires Valid() && 0 <= length < U16
      modifies this
      ensures Valid() && SameFields(old(ref), old(len), old(tot), old(data), len, tot, data)
      ensures p == NULL <==> |old(pool)| < Needed(POOL_BUFSIZE - Headroom(layer), length)
      ensures p == NULL ==>
        next == old(next) && ref == old(ref) && handles == old(handles) && multiset(pool) == multiset(old(pool))
      ensures p != NULL ==>
        Fresh(p, ns, length, old(next), old(ref), old(pool)) && handles == old(handles) + multiset{p}
    {
      var first := POOL_BUFSIZE - Headroom(layer);
      p, ns := NULL, [];
      if pool == [] {
        SameFieldsRefl(ref, len, tot, data, kind);
        OneLess(length - Least(length, first));
        return;
      }
      var rem;
      p, rem, ns := TakeAll(first, length);
      if rem > 0 {
        HandleBack(old(handles), p);
        GiveUp(p, ns, old(next), old(ref));
        p := NULL;
      } else {
        TotalsDone(len, data, tot, ns);
      }
    }
  }
}
