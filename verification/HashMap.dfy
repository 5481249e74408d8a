/**
  The growing map from 32-bit keys to 32-bit values (hash_map.c). A bucket is the chain of its nodes,
  newest first; a table is the key count and the buckets. The operations are functions on tables, and
  the class at the end keeps a table in place. The representation is that every node is in the bucket
  of its key's hash and no key occurs twice; from that, looking up is looking up in a finite map.
  Growth moves chain by chain: what has been moved so far finds exactly the keys of the buckets done.
 */
module HashMap {
  import opened Wrappers
  import opened Bytes
  import opened Bits
  import opened Murmur

  /** A node of a bucket's chain; the chain is the sequence of nodes from the head on. */
  datatype Entry = Entry(key: u32, value: u32)

  type Chain = seq<Entry>

  const MAX_BUCKETS := Pow2(30)

  // ----- What the operations do to the buckets

  function Lookup(c: Chain, k: u32): Option<u32> {
    if c == [] then None else if c[0].key == k then Some(c[0].value) else Lookup(c[1..], k)
  }

  /** node->value = value, for the first node with the key. */
  function Replace(c: Chain, k: u32, v: u32): (r: Chain)
    ensures |r| == |c|
  {
    if c == [] then [] else if c[0].key == k then [Entry(k, v)] + c[1..] else [c[0]] + Replace(c[1..], k, v)
  }

  /** hash_bucket_num: the hash under the mask. */
  function BucketNum(buckets: nat, k: u32): nat
    requires buckets > 0
  {
    And(HashKey(k), buckets - 1)
  }

  predicate IsPow2(n: nat) {
    exists k: nat :: k <= 30 && n == Pow2(k)
  }

  lemma BucketNumMod(buckets: nat, k: u32)
    requires IsPow2(buckets)
    ensures BucketNum(buckets, k) == HashKey(k) % buckets < buckets
  {
    var e: nat :| e <= 30 && buckets == Pow2(e);
    AndMask(HashKey(k), e);
  }

  /** hash_map_link: the node becomes the head of its bucket. */
  function Link(bs: seq<Chain>, e: Entry): (r: seq<Chain>)
    requires IsPow2(|bs|)
    ensures |r| == |bs|
  {
    BucketNumMod(|bs|, e.key);
    var b := BucketNum(|bs|, e.key);
    bs[b := [e] + bs[b]]
  }

  /** Moving a chain node by node, from its head on. */
  function LinkAll(bs: seq<Chain>, c: Chain): (r: seq<Chain>)
    requires IsPow2(|bs|)
    ensures |r| == |bs|
    decreases |c|
  {
    if c == [] then bs else LinkAll(Link(bs, c[0]), c[1..])
  }

  /** The new buckets once the first n old ones have been moved. */
  function Moved(room: seq<Chain>, olds: seq<Chain>, n: nat): (r: seq<Chain>)
    requires IsPow2(|room|) && n <= |olds|
    ensures |r| == |room|
  {
    if n == 0 then room else LinkAll(Moved(room, olds, n - 1), olds[n - 1])
  }

  function Empty(n: nat): (r: seq<Chain>)
    ensures |r| == n
  {
    seq(n, _ => [])
  }

  datatype Table = Table(numKeys: nat, buckets: seq<Chain>)
  {
    function Get(k: u32): Option<u32> {
      if buckets == [] then None
      else
        var b := BucketNum(|buckets|, k);
        if b < |buckets| then Lookup(buckets[b], k) else None
    }

    /** hash_map_grow: twice the buckets. */
    function Grow(): Table
      requires IsPow2(2 * |buckets|)
    {
      Table(numKeys, Moved(Empty(2 * |buckets|), buckets, |buckets|))
    }

    predicate MustGrow() {
      numKeys >= |buckets| && |buckets| < MAX_BUCKETS
    }

    /** hash_map_insert. */
    function Insert(k: u32, v: u32): Table
      requires IsPow2(|buckets|) && (MustGrow() ==> IsPow2(2 * |buckets|))
    {
      var t := if MustGrow() then Grow() else this;
      Table(t.numKeys + 1, Link(t.buckets, Entry(k, v)))
    }

    /** hash_map_set. */
    function Set(k: u32, v: u32): Table
      requires IsPow2(|buckets|) && (MustGrow() ==> IsPow2(2 * |buckets|))
    {
      BucketNumMod(|buckets|, k);
      var b := BucketNum(|buckets|, k);
      if Lookup(buckets[b], k).Some? then Table(numKeys, buckets[b := Replace(buckets[b], k, v)])
      else Insert(k, v)
    }

    /**
      The representation: a power of two of buckets, every node in the bucket of its key, no key
      twice, the key count right, and at most one key per bucket on average while the map can grow.
     */
    predicate Valid() {
      && IsPow2(|buckets|)
      && InPlace(buckets)
      && numKeys == Count(buckets)
      && (|buckets| < MAX_BUCKETS ==> numKeys <= |buckets|)
    }
  }

  predicate DistinctKeys(c: Chain) {
    forall i, j :: 0 <= i < j < |c| ==> c[i].key != c[j].key
  }

  /** Every node of the chain hashes to bucket b of n, and no key occurs twice. */
  predicate Belongs(c: Chain, n: nat, b: nat)
    requires n > 0
  {
    DistinctKeys(c) && forall j :: 0 <= j < |c| ==> BucketNum(n, c[j].key) == b
  }

  predicate InPlace(bs: seq<Chain>) {
    forall b :: 0 <= b < |bs| ==> Belongs(bs[b], |bs|, b)
  }

  /** The number of nodes. */
  function Count(bs: seq<Chain>): nat {
    if bs == [] then 0 else |bs[|bs| - 1]| + Count(bs[..|bs| - 1])
  }

  // ----- Chains

  lemma {:induction false} LookupIff(c: Chain, k: u32)
    ensures Lookup(c, k).Some? <==> exists j :: 0 <= j < |c| && c[j].key == k
  {
    if c != [] && c[0].key != k {
      LookupIff(c[1..], k);
      if j :| 0 <= j < |c| && c[j].key == k {
        assert c[1..][j - 1].key == k;
      }
      if j :| 0 <= j < |c[1..]| && c[1..][j].key == k {
        assert c[j + 1].key == k;
      }
    }
  }

  lemma {:induction false} ReplaceLookup(c: Chain, k: u32, v: u32, q: u32)
    requires Lookup(c, k).Some?
    ensures Lookup(Replace(c, k, v), q) == if q == k then Some(v) else Lookup(c, q)
    ensures forall j :: 0 <= j < |c| ==> Replace(c, k, v)[j].key == c[j].key
  {
    if c[0].key == k {
      assert ([Entry(k, v)] + c[1..])[1..] == c[1..];
    } else {
      ReplaceLookup(c[1..], k, v, q);
      assert ([c[0]] + Replace(c[1..], k, v))[1..] == Replace(c[1..], k, v);
    }
  }

  lemma {:induction false} CountUpdate(bs: seq<Chain>, b: nat, c: Chain)
    requires b < |bs|
    ensures Count(bs[b := c]) == Count(bs) - |bs[b]| + |c|
  {
    var n := |bs| - 1;
    if b == n {
      assert bs[b := c][..n] == bs[..n];
    } else {
      CountUpdate(bs[..n], b, c);
      assert bs[b := c][..n] == bs[..n][b := c];
    }
  }

  // ----- Linking

  lemma {:induction false} LookupHead(e: Entry, c: Chain, q: u32)
    ensures Lookup([e] + c, q) == if e.key == q then Some(e.value) else Lookup(c, q)
  {
    assert ([e] + c)[1..] == c;
  }

  lemma {:induction false} LinkFinds(bs: seq<Chain>, e: Entry, q: u32)
    requires IsPow2(|bs|)
    ensures Table(0, Link(bs, e)).Get(q) == if q == e.key then Some(e.value) else Table(0, bs).Get(q)
    ensures Count(Link(bs, e)) == Count(bs) + 1
  {
    BucketNumMod(|bs|, e.key);
    BucketNumMod(|bs|, q);
    var b := BucketNum(|bs|, e.key);
    LookupHead(e, bs[b], q);
    CountUpdate(bs, b, [e] + bs[b]);
  }

  lemma LinkInPlace(bs: seq<Chain>, e: Entry)
    requires IsPow2(|bs|) && InPlace(bs) && Table(0, bs).Get(e.key).None?
    ensures InPlace(Link(bs, e))
  {
    BucketNumMod(|bs|, e.key);
    LookupIff(bs[BucketNum(|bs|, e.key)], e.key);
  }

  lemma {:induction false} LinkAllFinds(bs: seq<Chain>, c: Chain, q: u32)
    requires IsPow2(|bs|) && DistinctKeys(c)
    ensures Table(0, LinkAll(bs, c)).Get(q) == if Lookup(c, q).Some? then Lookup(c, q) else Table(0, bs).Get(q)
    ensures Count(LinkAll(bs, c)) == Count(bs) + |c|
    decreases |c|
  {
    if c != [] {
      LinkAllFinds(Link(bs, c[0]), c[1..], q);
      LinkFinds(bs, c[0], q);
      LookupIff(c[1..], q);
    }
  }

  lemma {:induction false} LinkAllInPlace(bs: seq<Chain>, c: Chain)
    requires IsPow2(|bs|) && InPlace(bs) && DistinctKeys(c)
    requires forall j :: 0 <= j < |c| ==> Table(0, bs).Get(c[j].key).None?
    ensures InPlace(LinkAll(bs, c))
    decreases |c|
  {
    if c != [] {
      LinkInPlace(bs, c[0]);
      var bs', rest := Link(bs, c[0]), c[1..];
      forall j | 0 <= j < |rest| ensures Table(0, bs').Get(rest[j].key).None? {
        LinkFinds(bs, c[0], rest[j].key);
        assert rest[j] == c[j + 1];
      }
      LinkAllInPlace(bs', rest);
    }
  }

  lemma {:induction false} MovedFinds(room: seq<Chain>, olds: seq<Chain>, n: nat, q: u32)
    requires IsPow2(|room|) && IsPow2(|olds|) && InPlace(olds) && n <= |olds|
    requires Table(0, room).Get(q).None?
    ensures Table(0, Moved(room, olds, n)).Get(q) ==
            if BucketNum(|olds|, q) < n then Table(0, olds).Get(q) else None
  {
    if n > 0 {
      MovedFinds(room, olds, n - 1, q);
      ChainMoved(Moved(room, olds, n - 1), olds, n, olds[n - 1], q);
    }
  }

  lemma {:induction false} ChainMoved(bs: seq<Chain>, olds: seq<Chain>, n: nat, c: Chain, q: u32)
    requires IsPow2(|bs|) && IsPow2(|olds|) && InPlace(olds) && 0 < n <= |olds| && c == olds[n - 1]
    requires Table(0, bs).Get(q) == if BucketNum(|olds|, q) < n - 1 then Table(0, olds).Get(q) else None
    ensures Table(0, LinkAll(bs, c)).Get(q)
            == if BucketNum(|olds|, q) < n then Table(0, olds).Get(q) else None
  {
    InPlaceFinds(olds, n - 1, q);
    MergeFinds(bs, c, q, BucketNum(|olds|, q), n - 1, Table(0, olds).Get(q));
  }

  lemma {:induction false} MergeFinds(bs: seq<Chain>, c: Chain, q: u32, home: nat, b: nat, found: Option<u32>)
    requires IsPow2(|bs|) && DistinctKeys(c) && Lookup(c, q) == if home == b then found else None
    requires Table(0, bs).Get(q) == if home < b then found else None
    ensures Table(0, LinkAll(bs, c)).Get(q) == if home < b + 1 then found else None
  {
    LinkAllFinds(bs, c, q);
  }

  /** A key can be found in the bucket of its hash only. */
  lemma {:induction false} InPlaceFinds(bs: seq<Chain>, b: nat, q: u32)
    requires IsPow2(|bs|) && InPlace(bs) && b < |bs|
    ensures DistinctKeys(bs[b])
    ensures Lookup(bs[b], q) == if BucketNum(|bs|, q) == b then Table(0, bs).Get(q) else None
  {
    assert Belongs(bs[b], |bs|, b);
    LookupIff(bs[b], q);
    BucketNumMod(|bs|, q);
  }

  lemma EmptyFindsNothing(n: nat, q: u32)
    requires IsPow2(n)
    ensures Table(0, Empty(n)).Get(q).None? && InPlace(Empty(n))
  {
    BucketNumMod(n, q);
  }

  lemma {:induction false} EmptyCount(n: nat)
    ensures Count(Empty(n)) == 0
  {
    if n > 0 {
      EmptyCount(n - 1);
      assert Empty(n)[..n - 1] == Empty(n - 1);
    }
  }

  lemma {:induction false} MovedInPlace(m: nat, olds: seq<Chain>, n: nat)
    requires IsPow2(m) && IsPow2(|olds|) && InPlace(olds) && n <= |olds|
    ensures InPlace(Moved(Empty(m), olds, n))
    ensures Count(Moved(Empty(m), olds, n)) == Count(olds[..n])
  {
    if n == 0 {
      EmptyFindsNothing(m, 0);
      EmptyCount(m);
      assert olds[..0] == [];
    } else {
      MovedInPlace(m, olds, n - 1);
      MoveNext(m, olds, n, Moved(Empty(m), olds, n - 1), olds[n - 1], Moved(Empty(m), olds, n));
    }
  }

  lemma MoveNext(m: nat, olds: seq<Chain>, n: nat, bs: seq<Chain>, c: Chain, bs': seq<Chain>)
    requires IsPow2(m) && IsPow2(|olds|) && InPlace(olds) && 0 < n <= |olds| && c == olds[n - 1]
    requires bs == Moved(Empty(m), olds, n - 1) && InPlace(bs) && Count(bs) == Count(olds[..n - 1])
    requires bs' == LinkAll(bs, c)
    ensures InPlace(bs') && Count(bs') == Count(olds[..n])
  {
    InPlaceFinds(olds, n - 1, 0);
    forall j | 0 <= j < |c| ensures Table(0, bs).Get(c[j].key).None? {
      NotYetMoved(m, olds, n, c, j);
    }
    LinkAllInPlace(bs, c);
    LinkAllFinds(bs, c, 0);
    CountNext(olds, n);
  }

  lemma NotYetMoved(m: nat, olds: seq<Chain>, n: nat, c: Chain, j: nat)
    requires IsPow2(m) && IsPow2(|olds|) && InPlace(olds) && 0 < n <= |olds| && c == olds[n - 1] && j < |c|
    ensures Table(0, Moved(Empty(m), olds, n - 1)).Get(c[j].key).None?
  {
    EmptyFindsNothing(m, c[j].key);
    assert Belongs(c, |olds|, n - 1);
    MovedFinds(Empty(m), olds, n - 1, c[j].key);
  }

  lemma CountNext(bs: seq<Chain>, n: nat)
    requires 0 < n <= |bs|
    ensures Count(bs[..n]) == Count(bs[..n - 1]) + |bs[n - 1]|
  {
    assert bs[..n][..n - 1] == bs[..n - 1];
  }

  // ----- What set, get and grow mean

  lemma Pow2Doubles(n: nat)
    requires IsPow2(n) && n < MAX_BUCKETS
    ensures IsPow2(2 * n) && n > 0 && 2 * n <= MAX_BUCKETS
  {
    var e: nat :| e <= 30 && n == Pow2(e);
    assert 2 * n == Pow2(e + 1);
    if e + 1 < 30 {
      Pow2Increases(e + 1, 30);
    }
  }

  lemma {:induction false} Pow2Increases(j: nat, k: nat)
    requires j < k
    ensures Pow2(j) < Pow2(k)
    decreases k
  {
    if j < k - 1 {
      Pow2Increases(j, k - 1);
    }
  }

  /** Growing keeps the representation and changes no lookup. */
  lemma GrowKeeps(t: Table, q: u32)
    requires t.Valid() && t.MustGrow()
    ensures IsPow2(2 * |t.buckets|) && |t.Grow().buckets| == 2 * |t.buckets|
    ensures InPlace(t.Grow().buckets) && Count(t.Grow().buckets) == t.numKeys == |t.buckets|
    ensures t.Grow().Get(q) == t.Get(q)
  {
    var n := |t.buckets|;
    Pow2Doubles(n);
    EmptyFindsNothing(2 * n, q);
    MovedFinds(Empty(2 * n), t.buckets, n, q);
    MovedInPlace(2 * n, t.buckets, n);
    BucketNumMod(n, q);
    assert t.buckets[..n] == t.buckets;
  }

  /** Growing splits each old bucket in two: a key of bucket b goes to b or to b plus the old bucket count. */
  lemma GrowSplits(n: nat, k: u32)
    requires IsPow2(n) && IsPow2(2 * n)
    ensures BucketNum(2 * n, k) == BucketNum(n, k) || BucketNum(2 * n, k) == BucketNum(n, k) + n
  {
    BucketNumMod(n, k);
    BucketNumMod(2 * n, k);
    ModDouble(HashKey(k), n);
  }

  lemma ModDouble(h: nat, n: nat)
    requires n > 0
    ensures h % (2 * n) == h % n || h % (2 * n) == h % n + n
  {
    var a, r := h / n, h % n;
    var half, bit := a / 2, a % 2;
    assert h == a * n + r;
    assert a * n == (2 * half + bit) * n == half * (2 * n) + bit * n;
    if bit == 0 {
      DivUnique(h, 2 * n, half, r);
    } else {
      DivUnique(h, 2 * n, half, r + n);
    }
  }

  lemma InsertKeeps(t: Table, k: u32, v: u32, q: u32)
    requires t.Valid() && t.Get(k).None?
    ensures t.MustGrow() ==> IsPow2(2 * |t.buckets|)
    ensures t.Insert(k, v).Valid()
    ensures t.Insert(k, v).Get(q) == if q == k then Some(v) else t.Get(q)
  {
    if t.MustGrow() {
      GrowKeeps(t, k);
      GrowKeeps(t, q);
      LinkInPlace(t.Grow().buckets, Entry(k, v));
      LinkFinds(t.Grow().buckets, Entry(k, v), q);
    } else {
      LinkInPlace(t.buckets, Entry(k, v));
      LinkFinds(t.buckets, Entry(k, v), q);
    }
  }

  lemma {:induction false} ReplaceKeeps(t: Table, k: u32, v: u32, q: u32)
    requires t.Valid() && t.Get(k).Some?
    ensures BucketNum(|t.buckets|, k) < |t.buckets|
    ensures var b := BucketNum(|t.buckets|, k);
            var t' := Table(t.numKeys, t.buckets[b := Replace(t.buckets[b], k, v)]);
            t'.Valid() && t'.Get(q) == if q == k then Some(v) else t.Get(q)
  {
    BucketNumMod(|t.buckets|, k);
    BucketNumMod(|t.buckets|, q);
    var b := BucketNum(|t.buckets|, k);
    var c := t.buckets[b];
    ReplaceLookup(c, k, v, q);
    CountUpdate(t.buckets, b, Replace(c, k, v));
    ReplaceInPlace(t.buckets, b, k, v);
  }

  lemma {:induction false} ReplaceInPlace(bs: seq<Chain>, b: nat, k: u32, v: u32)
    requires InPlace(bs) && b < |bs| && Lookup(bs[b], k).Some?
    ensures InPlace(bs[b := Replace(bs[b], k, v)])
  {
    var c := bs[b];
    ReplaceLookup(c, k, v, k);
    assert Belongs(c, |bs|, b);
    assert Belongs(Replace(c, k, v), |bs|, b);
  }

  /** set keeps the representation, stores the value under its key and changes no other key, growing or not. */
  lemma SetKeeps(t: Table, k: u32, v: u32, q: u32)
    requires t.Valid()
    ensures t.MustGrow() ==> IsPow2(2 * |t.buckets|)
    ensures t.Set(k, v).Valid()
    ensures t.Set(k, v).Get(q) == if q == k then Some(v) else t.Get(q)
  {
    BucketNumMod(|t.buckets|, k);
    if t.MustGrow() {
      Pow2Doubles(|t.buckets|);
    }
    if t.Get(k).Some? {
      ReplaceKeeps(t, k, v, q);
    } else {
      InsertKeeps(t, k, v, q);
    }
  }

  // ----- Any run of set and get

  /** The finite map that a list of (key, value) stores describes. */
  function MapOf(sets: seq<(u32, u32)>): map<u32, u32> {
    if sets == [] then map[]
    else MapOf(sets[..|sets| - 1])[sets[|sets| - 1].0 := sets[|sets| - 1].1]
  }

  /** The table after those stores, in order. */
  function After(t: Table, sets: seq<(u32, u32)>): (r: Table)
    requires t.Valid()
    ensures r.Valid()
  {
    if sets == [] then t
    else
      var before, last := After(t, sets[..|sets| - 1]), sets[|sets| - 1];
      SetKeeps(before, last.0, last.1, 0);
      before.Set(last.0, last.1)
  }

  /** t is empty, as hash_map_new leaves it. */
  predicate IsNew(t: Table) {
    IsPow2(|t.buckets|) && t == Table(0, Empty(|t.buckets|))
  }

  lemma NewIsValid(n: nat)
    requires IsPow2(n)
    ensures Table(0, Empty(n)).Valid() && IsNew(Table(0, Empty(n)))
  {
    EmptyFindsNothing(n, 0);
    EmptyCount(n);
  }

  /**
    Refinement: after any stores, through any number of growths, a lookup answers as the finite map
    does, and the key count is its size.
   */
  lemma {:induction false} RunRefinesMap(t: Table, sets: seq<(u32, u32)>, q: u32)
    requires IsNew(t) && t.Valid()
    ensures After(t, sets).Get(q) == if q in MapOf(sets) then Some(MapOf(sets)[q]) else None
    ensures After(t, sets).numKeys == |MapOf(sets)|
    decreases |sets|
  {
    if sets == [] {
      EmptyFindsNothing(|t.buckets|, q);
    } else {
      var init, last := sets[..|sets| - 1], sets[|sets| - 1];
      RunRefinesMap(t, init, q);
      RunRefinesMap(t, init, last.0);
      SetKeeps(After(t, init), last.0, last.1, q);
      SetCounts(After(t, init), last.0, last.1);
      MapGrows(MapOf(init), last.0, last.1);
    }
  }

  lemma SetCounts(t: Table, k: u32, v: u32)
    requires t.Valid()
    ensures t.MustGrow() ==> IsPow2(2 * |t.buckets|)
    ensures t.Set(k, v).numKeys == t.numKeys + if t.Get(k).Some? then 0 else 1
  {
    BucketNumMod(|t.buckets|, k);
    if t.MustGrow() {
      Pow2Doubles(|t.buckets|);
    }
  }

  lemma MapGrows(m: map<u32, u32>, k: u32, v: u32)
    ensures |m[k := v]| == |m| + if k in m then 0 else 1
  {
    var m' := m[k := v];
    assert m'.Keys == m.Keys + {k};
  }

  // ----- The class

  class Map {
    var numKeys: nat
    var numBuckets: nat
    var bucketMask: nat
    var buckets: array<Chain>

    function Abstract(): Table
      reads this, buckets
    {
      Table(numKeys, buckets[..])
    }

    /** The bucket array and the mask are those of a power of two. */
    predicate Indexable()
      reads this
    {
      numBuckets == buckets.Length > 0 && bucketMask == numBuckets - 1 && IsPow2(numBuckets)
    }

    predicate Valid()
      reads this, buckets
    {
      Indexable() && Abstract().Valid()
    }

    /** hash_map_new: the least power of two that covers the expected keys, up to the maximum. */
    constructor (expectedKeys: nat)
      ensures Valid() && fresh(buckets) && IsNew(Abstract())
      ensures numBuckets < MAX_BUCKETS ==> expectedKeys <= numBuckets
      ensures numBuckets > 1 ==> numBuckets < 2 * expectedKeys
    {
      var count := PickBucketCount(expectedKeys);
      numKeys, numBuckets, bucketMask := 0, count, count - 1;
      buckets := new Chain[count](_ => []);
      new;
      assert buckets[..] == Empty(count);
      NewIsValid(count);
    }

    /** hash_map_link. */
    method LinkNode(e: Entry)
      requires Indexable()
      modifies buckets
      ensures buckets[..] == Link(old(buckets[..]), e)
    {
      var b := Bucket(e.key);
      ghost var was := buckets[..];
      buckets[b] := [e] + buckets[b];
      assert buckets[..] == was[b := [e] + was[b]];
    }

    /** hash_map_grow. */
    method Grow()
      requires Valid() && Abstract().MustGrow()
      modifies this
      ensures fresh(buckets) && numBuckets == buckets.Length == 2 * old(numBuckets) && bucketMask == numBuckets - 1
      ensures IsPow2(2 * old(numBuckets)) && Abstract() == old(Abstract()).Grow()
    {
      ghost var t := Abstract();
      Pow2Doubles(numBuckets);
      var oldBuckets := buckets;
      numBuckets := numBuckets * 2;
      bucketMask := numBuckets - 1;
      buckets := new Chain[numBuckets](_ => []);
      assert buckets[..] == Empty(2 * |t.buckets|);
      MoveAll(oldBuckets);
      assert Abstract().buckets == t.Grow().buckets;
    }

    /** The outer loop of hash_map_grow. */
    method MoveAll(oldBuckets: array<Chain>)
      requires Indexable() && buckets != oldBuckets
      modifies buckets
      ensures buckets[..] == Moved(old(buckets[..]), oldBuckets[..], oldBuckets.Length)
    {
      ghost var room, olds := buckets[..], oldBuckets[..];
      var oldBucketNum := 0;
      while oldBucketNum < oldBuckets.Length
        invariant 0 <= oldBucketNum <= oldBuckets.Length && oldBuckets[..] == olds
        invariant buckets[..] == Moved(room, olds, oldBucketNum)
      {
        LinkChain(oldBuckets[oldBucketNum]);
        oldBucketNum := oldBucketNum + 1;
      }
    }

    /** The inner loop of hash_map_grow. */
    method LinkChain(c: Chain)
      requires Indexable()
      modifies buckets
      ensures buckets[..] == LinkAll(old(buckets[..]), c)
    {
      var node := c;
      while node != []
        invariant LinkAll(buckets[..], node) == LinkAll(old(buckets[..]), c)
        decreases |node|
      {
        LinkNode(node[0]);
        node := node[1..];
      }
    }

    /** hash_map_insert. */
    method Insert(key: u32, value: u32)
      requires Valid()
      modifies this, buckets
      ensures buckets == old(buckets) || fresh(buckets)
      ensures numBuckets == buckets.Length > 0 && bucketMask == numBuckets - 1
      ensures old(Abstract()).MustGrow() ==> IsPow2(2 * old(numBuckets))
      ensures Abstract() == old(Abstract()).Insert(key, value)
    {
      if numKeys >= numBuckets && numBuckets < MAX_BUCKETS {
        Grow();
      }
      numKeys := numKeys + 1;
      LinkNode(Entry(key, value));
    }

    /** hash_map_set. */
    method Set(key: u32, value: u32)
      requires Valid()
      modifies this, buckets
      ensures Valid() && (buckets == old(buckets) || fresh(buckets))
      ensures old(Abstract()).MustGrow() ==> IsPow2(2 * old(numBuckets))
      ensures Abstract() == old(Abstract()).Set(key, value)
    {
      SetKeeps(Abstract(), key, value, key);
      var b := Bucket(key);
      var c := buckets[b];
      var j := FindNode(c, key);
      SetIs(Abstract(), key, value, b, c, j);
      if j < |c| {
        buckets[b] := c[j := Entry(key, value)];
      } else {
        Insert(key, value);
      }
    }

    /** hash_map_get. */
    method Get(key: u32) returns (r: Option<u32>)
      requires Valid()
      ensures r == Abstract().Get(key)
    {
      var b := Bucket(key);
      var c := buckets[b];
      var j := FindNode(c, key);
      r := if j < |c| then Some(c[j].value) else None;
    }

    /** hash_bucket_num, on the mask that the map keeps. */
    method Bucket(key: u32) returns (b: nat)
      requires Indexable()
      ensures b == BucketNum(numBuckets, key) < buckets.Length
    {
      BucketNumMod(numBuckets, key);
      b := And(HashKey(key), bucketMask);
    }
  }

  /** What set does, by where the walk along the chain has ended. */
  lemma {:induction false} SetIs(t: Table, key: u32, value: u32, b: nat, c: Chain, j: nat)
    requires IsPow2(|t.buckets|) && (t.MustGrow() ==> IsPow2(2 * |t.buckets|))
    requires b == BucketNum(|t.buckets|, key) < |t.buckets| && c == t.buckets[b]
    requires j < |c| <==> Lookup(c, key).Some?
    requires j < |c| ==> Replace(c, key, value) == c[j := Entry(key, value)]
    ensures t.Set(key, value) == if j < |c| then Table(t.numKeys, t.buckets[b := c[j := Entry(key, value)]])
                                 else t.Insert(key, value)
  {
  }

  /** The walk along a chain that get and set share: the first node with the key, or the end. */
  method FindNode(c: Chain, key: u32) returns (j: nat)
    ensures j <= |c| && (j < |c| <==> Lookup(c, key).Some?)
    ensures j < |c| ==> Lookup(c, key) == Some(c[j].value)
    ensures forall v :: j < |c| ==> Replace(c, key, v) == c[j := Entry(key, v)]
  {
    j := 0;
    while j < |c| && c[j].key != key
      invariant 0 <= j <= |c|
      invariant forall i :: 0 <= i < j ==> c[i].key != key
    {
      j := j + 1;
    }
    FirstWithKey(c, key, j);
  }

  /** What lookup and replacement find is the first node with the key. */
  lemma {:induction false} FirstWithKey(c: Chain, k: u32, j: nat)
    requires j <= |c| && forall i :: 0 <= i < j ==> c[i].key != k
    requires j < |c| ==> c[j].key == k
    ensures Lookup(c, k) == if j < |c| then Some(c[j].value) else None
    ensures forall v :: j < |c| ==> Replace(c, k, v) == c[j := Entry(k, v)]
  {
    if j == 0 {
      forall v | c != [] ensures Replace(c, k, v) == c[0 := Entry(k, v)] {
        assert c[0 := Entry(k, v)] == [Entry(k, v)] + c[1..];
      }
    } else {
      FirstWithKey(c[1..], k, j - 1);
      forall v | j < |c| ensures Replace(c, k, v) == c[j := Entry(k, v)] {
        assert c[j := Entry(k, v)] == [c[0]] + c[1..][j - 1 := Entry(k, v)];
      }
    }
  }

  /** hash_map_pick_bucket_count. */
  method PickBucketCount(numKeys: nat) returns (buckets: nat)
    ensures IsPow2(buckets) && buckets > 0
    ensures buckets < MAX_BUCKETS ==> numKeys <= buckets
    ensures buckets > 1 ==> buckets < 2 * numKeys
  {
    buckets := 1;
    assert buckets == Pow2(0);
    while buckets < numKeys && buckets < MAX_BUCKETS
      invariant IsPow2(buckets) && buckets > 0
      invariant buckets > 1 ==> buckets < 2 * numKeys
      decreases MAX_BUCKETS - buckets
    {
      Pow2Doubles(buckets);
      buckets := buckets * 2;
    }
  }
}
