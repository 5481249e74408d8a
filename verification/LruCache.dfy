/** The LRU cache (lrucache.h): a list of entries, most recent first, and a map of iterators into it. */
module LruCache {
  import opened Wrappers

  // ----- What the cache means: a list of distinct keys, most recent first

  type Recency<K, V> = seq<(K, V)>

  function Find<K(==), V>(l: Recency<K, V>, k: K): Option<V> {
    if l == [] then None else if l[0].0 == k then Some(l[0].1) else Find(l[1..], k)
  }

  /** The list without the entry of key k. */
  function Without<K(==), V>(l: Recency<K, V>, k: K): Recency<K, V> {
    if l == [] then [] else if l[0].0 == k then l[1..] else [l[0]] + Without(l[1..], k)
  }

  lemma {:induction false} WithoutLength<K, V>(l: Recency<K, V>, k: K)
    ensures |Without(l, k)| == |l| - if Find(l, k).Some? then 1 else 0
  {
    if l != [] && l[0].0 != k {
      WithoutLength(l[1..], k);
    }
  }

  /** The entries whose value fails f, in order. */
  function Reject<K, V>(l: Recency<K, V>, f: V -> bool): Recency<K, V> {
    if l == [] then [] else if f(l[0].1) then Reject(l[1..], f) else [l[0]] + Reject(l[1..], f)
  }

  /** Storing moves the key to the front and, beyond the capacity, drops the last entry. */
  function Store<K(==), V>(l: Recency<K, V>, max: nat, k: K, v: V): Recency<K, V> {
    var m := [(k, v)] + Without(l, k);
    if |m| > max then m[..|m| - 1] else m
  }

  /** Using a key moves it to the front; using an absent key changes nothing. */
  function Use<K(==), V>(l: Recency<K, V>, k: K): Recency<K, V> {
    if Find(l, k).Some? then [(k, Find(l, k).value)] + Without(l, k) else l
  }

  predicate Distinct<K(==), V>(l: Recency<K, V>) {
    forall i, j :: 0 <= i < j < |l| ==> l[i].0 != l[j].0
  }

  // ----- The class

  /** A node of the std::list; an iterator is a reference to one, and stays valid until its node is erased. */
  class Node<K, V> {
    const key: K
    const value: V

    constructor (key: K, value: V)
      ensures this.key == key && this.value == value
    {
      this.key, this.value := key, value;
    }
  }

  function Entries<K, V>(nodes: seq<Node<K, V>>): (l: Recency<K, V>)
    ensures |l| == |nodes|
  {
    seq(|nodes|, i requires 0 <= i < |nodes| => (nodes[i].key, nodes[i].value))
  }

  /** std::list::erase. */
  function Erased<K, V>(nodes: seq<Node<K, V>>, n: Node<K, V>): seq<Node<K, V>> {
    if nodes == [] then [] else if nodes[0] == n then nodes[1..] else [nodes[0]] + Erased(nodes[1..], n)
  }

  predicate DistinctKeys<K(==), V>(nodes: seq<Node<K, V>>) {
    forall i, j :: 0 <= i < j < |nodes| ==> nodes[i].key != nodes[j].key
  }

  lemma {:induction false} ErasedIsWithout<K, V>(nodes: seq<Node<K, V>>, n: Node<K, V>)
    requires DistinctKeys(nodes) && n in nodes
    ensures Entries(Erased(nodes, n)) == Without(Entries(nodes), n.key)
    ensures DistinctKeys(Erased(nodes, n)) && |Erased(nodes, n)| == |nodes| - 1
    ensures forall i :: 0 <= i < |Erased(nodes, n)| ==> Erased(nodes, n)[i] in nodes && Erased(nodes, n)[i].key != n.key
    ensures forall i :: 0 <= i < |nodes| && nodes[i] != n ==> nodes[i] in Erased(nodes, n)
  {
    assert Entries(nodes)[1..] == Entries(nodes[1..]);
    if nodes[0] != n {
      assert n in nodes[1..];
      ErasedIsWithout(nodes[1..], n);
      var e := Erased(nodes[1..], n);
      forall i | 0 <= i < |e| ensures e[i] in nodes[1..] && e[i].key != nodes[0].key {
        var j :| 0 <= j < |nodes[1..]| && nodes[1..][j] == e[i];
        assert nodes[1 + j] == e[i];
      }
      assert Entries([nodes[0]] + e) == [(nodes[0].key, nodes[0].value)] + Entries(e);
    }
  }

  /** list::splice to the front keeps the nodes. */
  lemma {:induction false} MovedToFront<K, V>(nodes: seq<Node<K, V>>, n: Node<K, V>)
    requires DistinctKeys(nodes) && n in nodes
    ensures var moved := [n] + Erased(nodes, n);
            && DistinctKeys(moved)
            && (forall i :: 0 <= i < |moved| ==> moved[i] in nodes)
            && (forall i :: 0 <= i < |nodes| ==> nodes[i] in moved)
            && Entries(moved) == [(n.key, n.value)] + Entries(Erased(nodes, n))
  {
    ErasedIsWithout(nodes, n);
  }

  lemma {:induction false} FindsNode<K, V>(nodes: seq<Node<K, V>>, n: Node<K, V>)
    requires DistinctKeys(nodes) && n in nodes
    ensures Find(Entries(nodes), n.key) == Some(n.value)
  {
    assert Entries(nodes)[1..] == Entries(nodes[1..]);
    if nodes[0] != n {
      assert nodes == [nodes[0]] + nodes[1..];
      FindsNode(nodes[1..], n);
    }
  }

  lemma {:induction false} FindsNothing<K, V>(nodes: seq<Node<K, V>>, k: K)
    requires forall i :: 0 <= i < |nodes| ==> nodes[i].key != k
    ensures Find(Entries(nodes), k) == None && Without(Entries(nodes), k) == Entries(nodes)
  {
    if nodes != [] {
      assert Entries(nodes)[1..] == Entries(nodes[1..]);
      FindsNothing(nodes[1..], k);
    }
  }

  /** What is left after all entries but those with keys in todo have been considered. */
  function RejectExcept<K(==), V>(l: Recency<K, V>, todo: set<K>, f: V -> bool): Recency<K, V> {
    if l == [] then []
    else if l[0].0 !in todo && f(l[0].1) then RejectExcept(l[1..], todo, f)
    else [l[0]] + RejectExcept(l[1..], todo, f)
  }

  lemma DistinctEntries<K, V>(nodes: seq<Node<K, V>>)
    requires DistinctKeys(nodes)
    ensures Distinct(Entries(nodes))
    ensures forall i :: 0 <= i < |nodes| ==> Entries(nodes)[i].0 == nodes[i].key
  {
  }

  lemma {:induction false} RejectNone<K, V>(l: Recency<K, V>, todo: set<K>, f: V -> bool)
    requires forall i :: 0 <= i < |l| ==> l[i].0 in todo
    ensures RejectExcept(l, todo, f) == l
  {
    if l != [] {
      RejectNone(l[1..], todo, f);
    }
  }

  lemma {:induction false} RejectAll<K, V>(l: Recency<K, V>, f: V -> bool)
    ensures RejectExcept(l, {}, f) == Reject(l, f)
  {
    if l != [] {
      RejectAll(l[1..], f);
    }
  }

  /** Considering one more key erases its entry if its value satisfies f, and nothing else. */
  lemma {:induction false} RejectOneMore<K, V>(l: Recency<K, V>, todo: set<K>, f: V -> bool, k: K)
    requires Distinct(l) && k in todo
    ensures var kept := RejectExcept(l, todo, f);
            && Find(kept, k) == Find(l, k)
            && RejectExcept(l, todo - {k}, f) ==
               if Find(l, k).Some? && f(Find(l, k).value) then Without(kept, k) else kept
  {
    if l != [] {
      var rest := l[1..];
      assert Distinct(rest);
      if l[0].0 == k {
        forall i | 0 <= i < |rest| ensures rest[i].0 != k {
          assert rest[i] == l[i + 1];
        }
        RejectOthers(rest, todo, f, k);
      } else {
        RejectOneMore(rest, todo, f, k);
      }
    }
  }

  lemma {:induction false} RejectOthers<K, V>(l: Recency<K, V>, todo: set<K>, f: V -> bool, k: K)
    requires forall i :: 0 <= i < |l| ==> l[i].0 != k
    ensures RejectExcept(l, todo - {k}, f) == RejectExcept(l, todo, f)
  {
    if l != [] {
      RejectOthers(l[1..], todo, f, k);
    }
  }

  class Cache<K(==), V> {
    var itemsList: seq<Node<K, V>>
    var itemsMap: map<K, Node<K, V>>
    const maxSize: nat

    /** The map's keys are the list's keys, and each iterator designates the node of its own key. */
    predicate Linked()
      reads this
    {
      && DistinctKeys(itemsList)
      && (forall i :: 0 <= i < |itemsList| ==>
            itemsList[i].key in itemsMap && itemsMap[itemsList[i].key] == itemsList[i])
      && (forall k :: k in itemsMap ==> itemsMap[k] in itemsList && itemsMap[k].key == k)
    }

    /** What every operation keeps: also, the cache holds no more than its capacity. */
    predicate Valid()
      reads this
    {
      Linked() && |itemsList| <= maxSize
    }

    function Model(): (l: Recency<K, V>)
      reads this
      ensures |l| == |itemsList|
    {
      Entries(itemsList)
    }

    constructor (max: nat)
      ensures Valid() && Model() == [] && maxSize == max
    {
      maxSize := max;
      itemsList, itemsMap := [], map[];
    }

    /** Erasing through an iterator, from the list and from the map. */
    method EraseNode(n: Node<K, V>)
      requires Linked() && n in itemsList
      modifies this
      ensures Linked() && Model() == Without(old(Model()), n.key) && n.key !in itemsMap
      ensures |itemsList| < |old(itemsList)|
      ensures itemsList == Erased(old(itemsList), n) && itemsMap == old(itemsMap) - {n.key}
    {
      ErasedIsWithout(itemsList, n);
      itemsList := Erased(itemsList, n);
      itemsMap := itemsMap - {n.key};
    }

    method Put(key: K, value: V)
      requires Valid()
      modifies this
      ensures Valid() && Model() == Store(old(Model()), maxSize, key, value)
    {
      WithoutLength(Model(), key);
      EraseIfExists(key);
      PushFront(key, value);
      MapCoversList();
      SizesAgree(itemsList, itemsMap);
      if |itemsMap| > maxSize {
        PopBack();
      }
    }

    lemma MapCoversList()
      requires Linked()
      ensures forall k :: k in itemsMap ==> exists i :: 0 <= i < |itemsList| && itemsList[i].key == k
    {
      forall k | k in itemsMap ensures exists i :: 0 <= i < |itemsList| && itemsList[i].key == k {
        var i :| 0 <= i < |itemsList| && itemsList[i] == itemsMap[k];
      }
    }

    method PushFront(key: K, value: V)
      requires Linked() && key !in itemsMap
      modifies this
      ensures Linked() && Model() == [(key, value)] + old(Model())
    {
      var n := new Node(key, value);
      var list := itemsList;
      itemsList := [n] + list;
      itemsMap := itemsMap[key := n];
    }

    method PopBack()
      requires Linked() && itemsList != []
      modifies this
      ensures Linked() && Model() == old(Model())[..|old(Model())| - 1]
    {
      var list := itemsList;
      var last := list[|list| - 1];
      var front := list[..|list| - 1];
      forall k | k in itemsMap && k != last.key ensures itemsMap[k] in front {
        var j :| 0 <= j < |list| && list[j] == itemsMap[k];
        assert front[j] == list[j];
      }
      itemsMap := itemsMap - {last.key};
      itemsList := front;
    }

    /** get: the value and a refreshed entry, or the exception that the key is absent. */
    method Get(key: K) returns (r: Option<V>)
      requires Valid()
      modifies this
      ensures Valid() && r == Find(old(Model()), key) && Model() == Use(old(Model()), key)
    {
      if key !in itemsMap {
        FindsNothing(itemsList, key);
        return None;
      }
      var n := itemsMap[key];
      FindsNode(itemsList, n);
      ErasedIsWithout(itemsList, n);
      MovedToFront(itemsList, n);
      itemsList := [n] + Erased(itemsList, n);
      r := Some(n.value);
    }

    method EraseIfExists(key: K)
      requires Valid()
      modifies this
      ensures Valid() && Model() == Without(old(Model()), key) && key !in itemsMap
    {
      if key in itemsMap {
        EraseNode(itemsMap[key]);
      } else {
        FindsNothing(itemsList, key);
      }
    }

    /** The loop over the map visits its entries in no particular order; the result does not depend on it. */
    method EraseIf(f: V -> bool)
      requires Valid()
      modifies this
      ensures Valid() && Model() == Reject(old(Model()), f)
    {
      ghost var l := Model();
      var todo := itemsMap.Keys;
      DistinctEntries(itemsList);
      RejectNone(l, todo, f);
      while todo != {}
        invariant Valid() && todo <= itemsMap.Keys
        invariant Model() == RejectExcept(l, todo, f)
        decreases todo
      {
        var k :| k in todo;
        var n := itemsMap[k];
        FindsNode(itemsList, n);
        RejectOneMore(l, todo, f, k);
        if f(n.value) {
          EraseNode(n);
        }
        todo := todo - {k};
      }
      RejectAll(l, f);
    }

    method Clear()
      modifies this
      ensures Valid() && Model() == []
    {
      itemsList, itemsMap := [], map[];
    }

    predicate Exists(key: K)
      reads this
    {
      key in itemsMap
    }

    function Size(): nat
      reads this
    {
      |itemsMap|
    }

    /** The two inquiries, in terms of the list. */
    lemma Inquiries(key: K)
      requires Valid()
      ensures Exists(key) <==> Find(Model(), key).Some?
      ensures Size() == |Model()| <= maxSize
    {
      MapCoversList();
      SizesAgree(itemsList, itemsMap);
      if key in itemsMap {
        FindsNode(itemsList, itemsMap[key]);
      } else {
        FindsNothing(itemsList, key);
      }
    }
  }

  /** size() counts the map's entries; it is the length of the list. */
  lemma {:induction false} SizesAgree<K, V>(nodes: seq<Node<K, V>>, m: map<K, Node<K, V>>)
    requires DistinctKeys(nodes)
    requires forall i :: 0 <= i < |nodes| ==> nodes[i].key in m
    requires forall k :: k in m ==> exists i :: 0 <= i < |nodes| && nodes[i].key == k
    ensures |m| == |nodes|
  {
    if nodes == [] {
      assert m == map[];
    } else {
      var n, rest := nodes[0], nodes[1..];
      var m' := m - {n.key};
      forall k | k in m' ensures exists i :: 0 <= i < |rest| && rest[i].key == k {
        var i :| 0 <= i < |nodes| && nodes[i].key == k;
        assert rest[i - 1].key == k;
      }
      SizesAgree(rest, m');
      assert m.Keys == m'.Keys + {n.key};
    }
  }

  // ----- What is found after an operation

  lemma {:induction false} FindWithout<K, V>(l: Recency<K, V>, k: K, q: K)
    requires Distinct(l)
    ensures Find(Without(l, k), q) == if q == k then None else Find(l, q)
  {
    if l != [] {
      var rest := l[1..];
      assert Distinct(rest);
      if l[0].0 == k {
        if q == k {
          FindAbsent(rest, k);
        }
      } else {
        FindWithout(rest, k, q);
      }
    }
  }

  lemma {:induction false} FindAbsent<K, V>(l: Recency<K, V>, k: K)
    requires forall i :: 0 <= i < |l| ==> l[i].0 != k
    ensures Find(l, k) == None
  {
    if l != [] {
      FindAbsent(l[1..], k);
    }
  }

  lemma {:induction false} FindButLast<K, V>(l: Recency<K, V>, q: K)
    requires Distinct(l) && l != []
    ensures Find(l[..|l| - 1], q) == if q == l[|l| - 1].0 then None else Find(l, q)
  {
    if |l| == 1 {
      assert l[1..] == [];
    } else {
      assert Distinct(l[1..]) && l[1..][..|l| - 2] == l[..|l| - 1][1..];
      FindButLast(l[1..], q);
    }
  }

  /**
    After put the key is found with its new value, unless the capacity is 0; every other key is found as
    before, but for the one at the end of a full cache that a new key pushes out. While there is room
    nothing is dropped.
   */
  lemma {:induction false} PutExact<K, V>(l: Recency<K, V>, max: nat, k: K, v: V, q: K)
    requires Distinct(l) && |l| <= max
    ensures var pushedOut := |l| == max > 0 && Find(l, k).None? && q == l[|l| - 1].0;
            Find(Store(l, max, k, v), q) ==
            if q == k then (if max > 0 then Some(v) else None) else if pushedOut then None else Find(l, q)
  {
    var m := [(k, v)] + Without(l, k);
    WithoutLength(l, k);
    FindWithout(l, k, q);
    assert m[1..] == Without(l, k);
    if |m| > max {
      AbsentWithout(l, k);
      FrontDistinct(l, k, v);
      FindButLast(m, q);
      FoundAt(l, k);
    }
  }

  /** After get everything is found as before; after erase_if_exists everything but the key. */
  lemma {:induction false} GetEraseExact<K, V>(l: Recency<K, V>, k: K, q: K)
    requires Distinct(l)
    ensures Find(Use(l, k), q) == Find(l, q)
    ensures Find(Without(l, k), q) == if q == k then None else Find(l, q)
  {
    FindWithout(l, k, q);
    if Find(l, k).Some? {
      assert Use(l, k)[1..] == Without(l, k);
    }
  }

  /** After erase_if everything is found as before but what satisfies f. */
  lemma {:induction false} EraseIfExact<K, V>(l: Recency<K, V>, f: V -> bool, q: K)
    requires Distinct(l)
    ensures Find(Reject(l, f), q) == if Find(l, q).Some? && f(Find(l, q).value) then None else Find(l, q)
  {
    if l != [] {
      assert Distinct(l[1..]);
      EraseIfExact(l[1..], f, q);
      if l[0].0 == q {
        FindAbsent(l[1..], q);
      }
    }
  }

  // ----- Runs, and inclusion

  datatype Op<K, !V> = OpPut(key: K, value: V) | OpGet(key: K) | OpErase(key: K) | OpEraseIf(f: V -> bool) | OpClear

  /** What one operation does to a cache of capacity max, as the methods of the class promise. */
  function Apply<K(==), V>(max: nat, l: Recency<K, V>, op: Op<K, V>): Recency<K, V> {
    match op
    case OpPut(k, v) => Store(l, max, k, v)
    case OpGet(k) => Use(l, k)
    case OpErase(k) => Without(l, k)
    case OpEraseIf(f) => Reject(l, f)
    case OpClear => []
  }

  function Run<K(==), V>(max: nat, ops: seq<Op<K, V>>): Recency<K, V> {
    if ops == [] then [] else Apply(max, Run(max, ops[..|ops| - 1]), ops[|ops| - 1])
  }

  /** s can be had from l by leaving entries out. */
  ghost predicate Sub<T>(s: seq<T>, l: seq<T>) {
    if s == [] then true
    else if l == [] then false
    else if s[0] == l[0] then Sub(s[1..], l[1..])
    else Sub(s, l[1..])
  }

  lemma {:induction false} SubTail<T>(s: seq<T>, l: seq<T>)
    requires s != [] && Sub(s, l)
    ensures Sub(s[1..], l)
    decreases |l|, 0
  {
    if s[0] == l[0] {
      SubLonger(s[1..], l[0], l[1..]);
      assert [l[0]] + l[1..] == l;
    } else {
      SubTail(s, l[1..]);
      SubLonger(s[1..], l[0], l[1..]);
      assert [l[0]] + l[1..] == l;
    }
  }

  /** Adding an entry in front of the longer list keeps the relation. */
  lemma {:induction false} SubLonger<T>(s: seq<T>, x: T, l: seq<T>)
    requires Sub(s, l)
    ensures Sub(s, [x] + l)
    decreases |l|, 1
  {
    assert ([x] + l)[1..] == l;
    if s != [] && s[0] == x {
      SubTail(s, l);
    }
  }

  lemma {:induction false} SubBoth<T>(s: seq<T>, x: T, l: seq<T>)
    requires Sub(s, l)
    ensures Sub([x] + s, [x] + l)
  {
    assert ([x] + s)[1..] == s && ([x] + l)[1..] == l;
  }

  lemma {:induction false} SubLength<T>(s: seq<T>, l: seq<T>)
    requires Sub(s, l)
    ensures |s| <= |l|
    decreases |l|
  {
    if s != [] {
      SubLength(if s[0] == l[0] then s[1..] else s, l[1..]);
    }
  }

  /** Dropping the last entry of the shorter list, and of both. */
  lemma {:induction false} SubInit<T>(s: seq<T>, l: seq<T>)
    requires s != [] && Sub(s, l)
    ensures Sub(s[..|s| - 1], l)
    ensures l != [] && Sub(s[..|s| - 1], l[..|l| - 1])
    decreases |l|
  {
    var t := if s[0] == l[0] then s[1..] else s;
    if t != [] {
      SubInit(t, l[1..]);
      if s[0] == l[0] {
        assert s[..|s| - 1] == [s[0]] + t[..|t| - 1];
        assert l[..|l| - 1] == [l[0]] + l[1..][..|l| - 2];
        SubBoth(t[..|t| - 1], l[0], l[1..]);
        SubBoth(t[..|t| - 1], l[0], l[1..][..|l| - 2]);
        assert [l[0]] + l[1..] == l;
      } else {
        assert l[..|l| - 1] == [l[0]] + l[1..][..|l| - 2];
        SubLonger(s[..|s| - 1], l[0], l[1..]);
        SubLonger(s[..|s| - 1], l[0], l[1..][..|l| - 2]);
        assert [l[0]] + l[1..] == l;
      }
    }
  }

  lemma {:induction false} SubFind<K, V>(s: Recency<K, V>, l: Recency<K, V>, k: K)
    requires Sub(s, l) && Distinct(l)
    ensures Find(s, k).Some? ==> Find(l, k) == Find(s, k)
    decreases |l|
  {
    if s != [] && !(l[0].0 == k && s[0] == l[0]) {
      assert Distinct(l[1..]);
      SubFind(if s[0] == l[0] then s[1..] else s, l[1..], k);
      FoundAt(l[1..], k);
    }
  }

  /** A key that is found is the key of some entry. */
  lemma {:induction false} FoundAt<K, V>(l: Recency<K, V>, k: K)
    ensures Find(l, k).Some? <==> exists i :: 0 <= i < |l| && l[i].0 == k
  {
    if l != [] && l[0].0 != k {
      FoundAt(l[1..], k);
      if exists i :: 0 <= i < |l| && l[i].0 == k {
        var i :| 0 <= i < |l| && l[i].0 == k;
        assert l[1..][i - 1].0 == k;
      }
      if i :| 0 <= i < |l[1..]| && l[1..][i].0 == k {
        assert l[i + 1].0 == k;
      }
    }
  }

  lemma {:induction false} SubWithout<K, V>(s: Recency<K, V>, l: Recency<K, V>, k: K)
    requires Sub(s, l) && Distinct(l)
    ensures Sub(Without(s, k), Without(l, k))
    decreases |l|
  {
    if s != [] {
      assert Distinct(l[1..]);
      if s[0] == l[0] {
        if l[0].0 != k {
          SubWithout(s[1..], l[1..], k);
          SubBoth(Without(s[1..], k), l[0], Without(l[1..], k));
        }
      } else {
        SubWithout(s, l[1..], k);
        if l[0].0 == k {
          FoundAt(l[1..], k);
          AbsentWithout(l[1..], k);
        } else {
          SubLonger(Without(s, k), l[0], Without(l[1..], k));
        }
      }
    }
  }

  lemma {:induction false} AbsentWithout<K, V>(l: Recency<K, V>, k: K)
    requires Find(l, k).None?
    ensures Without(l, k) == l
  {
    if l != [] {
      AbsentWithout(l[1..], k);
    }
  }

  lemma {:induction false} SubReject<K, V>(s: Recency<K, V>, l: Recency<K, V>, f: V -> bool)
    requires Sub(s, l)
    ensures Sub(Reject(s, f), Reject(l, f))
    ensures |s| - |Reject(s, f)| <= |l| - |Reject(l, f)|
    decreases |l|
  {
    RejectLength(l, f);
    if s != [] {
      if s[0] == l[0] {
        SubReject(s[1..], l[1..], f);
        if !f(l[0].1) {
          SubBoth(Reject(s[1..], f), l[0], Reject(l[1..], f));
        }
      } else {
        SubReject(s, l[1..], f);
        if !f(l[0].1) {
          SubLonger(Reject(s, f), l[0], Reject(l[1..], f));
        }
      }
    }
  }

  lemma {:induction false} RejectLength<K, V>(l: Recency<K, V>, f: V -> bool)
    ensures |Reject(l, f)| <= |l|
    ensures forall i :: 0 <= i < |Reject(l, f)| ==> exists j :: 0 <= j < |l| && l[j] == Reject(l, f)[i]
  {
    if l != [] {
      RejectLength(l[1..], f);
      var r := Reject(l[1..], f);
      forall i | 0 <= i < |Reject(l, f)| ensures exists j :: 0 <= j < |l| && l[j] == Reject(l, f)[i] {
        if f(l[0].1) || i > 0 {
          var i' := if f(l[0].1) then i else i - 1;
          var j :| 0 <= j < |l[1..]| && l[1..][j] == r[i'];
          assert l[j + 1] == r[i'];
        } else {
          assert l[0] == Reject(l, f)[i];
        }
      }
    }
  }

  // ----- Keys stay distinct

  ghost predicate HasKey<K, V>(l: Recency<K, V>, k: K) {
    exists i :: 0 <= i < |l| && l[i].0 == k
  }

  lemma {:induction false} SubKeys<K, V>(s: Recency<K, V>, l: Recency<K, V>, k: K)
    requires Sub(s, l) && HasKey(s, k)
    ensures HasKey(l, k)
    decreases |l|
  {
    var i :| 0 <= i < |s| && s[i].0 == k;
    if s[0] == l[0] && i == 0 {
      assert l[0].0 == k;
    } else {
      var t := if s[0] == l[0] then s[1..] else s;
      assert t[if s[0] == l[0] then i - 1 else i].0 == k;
      SubKeys(t, l[1..], k);
      var j :| 0 <= j < |l[1..]| && l[1..][j].0 == k;
      assert l[j + 1].0 == k;
    }
  }

  lemma {:induction false} SubDistinct<K, V>(s: Recency<K, V>, l: Recency<K, V>)
    requires Sub(s, l) && Distinct(l)
    ensures Distinct(s)
    decreases |l|
  {
    if s != [] {
      assert Distinct(l[1..]);
      if s[0] == l[0] {
        SubDistinct(s[1..], l[1..]);
        ConsDistinct(s[0].0, s[0].1, s[1..], l);
        assert [(s[0].0, s[0].1)] + s[1..] == s;
      } else {
        SubDistinct(s, l[1..]);
      }
    }
  }

  /** The key in front is nowhere behind it. */
  lemma FrontKeyOnce<K, V>(l: Recency<K, V>)
    requires Distinct(l) && l != []
    ensures !HasKey(l[1..], l[0].0)
  {
    forall j | 0 <= j < |l[1..]| ensures l[1..][j].0 != l[0].0 {
      assert l[1..][j] == l[j + 1];
    }
  }

  lemma {:induction false} ConsDistinct<K, V>(k: K, v: V, s: Recency<K, V>, l: Recency<K, V>)
    requires Distinct(s) && l != [] && Distinct(l) && l[0].0 == k && Sub(s, l[1..])
    ensures Distinct([(k, v)] + s)
  {
    forall i | 0 <= i < |s| ensures s[i].0 != k {
      if s[i].0 == k {
        SubKeys(s, l[1..], k);
        FrontKeyOnce(l);
        assert false;
      }
    }
  }

  lemma {:induction false} WithoutSub<K, V>(l: Recency<K, V>, k: K)
    requires Distinct(l)
    ensures Sub(Without(l, k), l) && !HasKey(Without(l, k), k)
  {
    if l != [] {
      assert Distinct(l[1..]) && [l[0]] + l[1..] == l;
      if l[0].0 == k {
        SubRefl(l[1..]);
        SubLonger(l[1..], l[0], l[1..]);
        forall i | 0 <= i < |l[1..]| ensures l[1..][i].0 != k {
          assert l[1..][i] == l[i + 1];
        }
      } else {
        WithoutSub(l[1..], k);
        SubBoth(Without(l[1..], k), l[0], l[1..]);
        var w := Without(l, k);
        forall i | 0 <= i < |w| ensures w[i].0 != k {
          assert i > 0 ==> w[i] == Without(l[1..], k)[i - 1];
        }
      }
    }
  }

  lemma {:induction false} SubRefl<T>(l: seq<T>)
    ensures Sub(l, l)
  {
    if l != [] {
      SubRefl(l[1..]);
    }
  }

  lemma {:induction false} RejectSub<K, V>(l: Recency<K, V>, f: V -> bool)
    ensures Sub(Reject(l, f), l)
  {
    if l != [] {
      RejectSub(l[1..], f);
      assert [l[0]] + l[1..] == l;
      if f(l[0].1) {
        SubLonger(Reject(l[1..], f), l[0], l[1..]);
      } else {
        SubBoth(Reject(l[1..], f), l[0], l[1..]);
      }
    }
  }

  /** Moving a key to the front, or putting it there, keeps keys distinct. */
  lemma {:induction false} FrontDistinct<K, V>(l: Recency<K, V>, k: K, v: V)
    requires Distinct(l)
    ensures Distinct([(k, v)] + Without(l, k))
  {
    WithoutSub(l, k);
    SubDistinct(Without(l, k), l);
    var w := Without(l, k);
    assert forall i :: 0 <= i < |w| ==> w[i].0 != k;
  }

  lemma ApplyDistinct<K, V>(max: nat, l: Recency<K, V>, op: Op<K, V>)
    requires Distinct(l)
    ensures Distinct(Apply(max, l, op))
  {
    match op {
      case OpPut(k, v) => FrontDistinct(l, k, v);
      case OpGet(k) =>
        if Find(l, k).Some? {
          FrontDistinct(l, k, Find(l, k).value);
        }
      case OpErase(k) =>
        WithoutSub(l, k);
        SubDistinct(Without(l, k), l);
      case OpEraseIf(f) =>
        RejectSub(l, f);
        SubDistinct(Reject(l, f), l);
      case OpClear =>
    }
  }

  // ----- Inclusion

  /** The smaller cache holds a part of the larger one, in the same order, and has no more room to spare. */
  ghost predicate Included<K, V>(n: nat, m: nat, s: Recency<K, V>, l: Recency<K, V>) {
    && Sub(s, l) && Distinct(l)
    && |s| <= n && |l| <= m && n - |s| <= m - |l|
  }

  lemma StoreIncluded<K, V>(n: nat, m: nat, s: Recency<K, V>, l: Recency<K, V>, k: K, v: V)
    requires n <= m && Included(n, m, s, l)
    ensures Sub(Store(s, n, k, v), Store(l, m, k, v))
    ensures |Store(s, n, k, v)| <= n && |Store(l, m, k, v)| <= m
    ensures n - |Store(s, n, k, v)| <= m - |Store(l, m, k, v)|
  {
    SubWithout(s, l, k);
    SubBoth(Without(s, k), (k, v), Without(l, k));
    WithoutLength(s, k);
    WithoutLength(l, k);
    SubFind(s, l, k);
    SubInit([(k, v)] + Without(s, k), [(k, v)] + Without(l, k));
  }

  lemma UseIncluded<K, V>(n: nat, m: nat, s: Recency<K, V>, l: Recency<K, V>, k: K)
    requires Included(n, m, s, l)
    ensures Sub(Use(s, k), Use(l, k)) && |Use(s, k)| == |s| && |Use(l, k)| == |l|
  {
    SubFind(s, l, k);
    SubWithout(s, l, k);
    WithoutLength(s, k);
    WithoutLength(l, k);
    if Find(l, k).Some? {
      var v := Find(l, k).value;
      if Find(s, k).Some? {
        SubBoth(Without(s, k), (k, v), Without(l, k));
      } else {
        AbsentWithout(s, k);
        SubLonger(s, (k, v), Without(l, k));
      }
    }
  }

  lemma ApplyIncluded<K, V>(n: nat, m: nat, s: Recency<K, V>, l: Recency<K, V>, op: Op<K, V>)
    requires n <= m && Included(n, m, s, l)
    ensures Included(n, m, Apply(n, s, op), Apply(m, l, op))
  {
    ApplyDistinct(m, l, op);
    match op {
      case OpPut(k, v) => StoreIncluded(n, m, s, l, k, v);
      case OpGet(k) => UseIncluded(n, m, s, l, k);
      case OpErase(k) =>
        SubWithout(s, l, k);
        WithoutLength(s, k);
        WithoutLength(l, k);
        SubFind(s, l, k);
      case OpEraseIf(f) =>
        SubReject(s, l, f);
        RejectLength(s, f);
        RejectLength(l, f);
      case OpClear =>
    }
  }

  /** Two caches fed the same operations: the smaller one's list is always part of the larger one's. */
  lemma {:induction false} Inclusion<K, V>(n: nat, m: nat, ops: seq<Op<K, V>>)
    requires n <= m
    ensures Included(n, m, Run(n, ops), Run(m, ops))
    decreases |ops|
  {
    if ops != [] {
      var before, op := ops[..|ops| - 1], ops[|ops| - 1];
      Inclusion(n, m, before);
      ApplyIncluded(n, m, Run(n, before), Run(m, before), op);
    }
  }

  /** No anomaly: after any operations, what a smaller cache finds a larger one finds too, with the same value. */
  lemma {:induction false} HitsGrowWithCapacity<K, V>(n: nat, m: nat, ops: seq<Op<K, V>>, k: K)
    requires n <= m && Find(Run(n, ops), k).Some?
    ensures Find(Run(m, ops), k) == Find(Run(n, ops), k)
  {
    Inclusion(n, m, ops);
    SubFind(Run(n, ops), Run(m, ops), k);
  }

  // ----- The order is by last use, so the victim is the least recently used key

  predicate Touches<K(==), V>(op: Op<K, V>, k: K) {
    (op.OpPut? || op.OpGet?) && op.key == k
  }

  /** The index of the last operation that stored or looked up k; -1 if there is none. */
  function LastUse<K(==), V>(ops: seq<Op<K, V>>, k: K): int {
    if ops == [] then -1
    else if Touches(ops[|ops| - 1], k) then |ops| - 1
    else LastUse(ops[..|ops| - 1], k)
  }

  lemma {:induction false} LastUseBound<K, V>(ops: seq<Op<K, V>>, k: K)
    ensures LastUse(ops, k) < |ops|
  {
    if ops != [] {
      LastUseBound(ops[..|ops| - 1], k);
    }
  }

  ghost predicate ByLastUse<K, V>(ops: seq<Op<K, V>>, l: Recency<K, V>) {
    forall i, j :: 0 <= i < j < |l| ==> LastUse(ops, l[i].0) > LastUse(ops, l[j].0)
  }

  lemma {:induction false} SubByLastUse<K, V>(ops: seq<Op<K, V>>, s: Recency<K, V>, l: Recency<K, V>)
    requires Sub(s, l) && ByLastUse(ops, l)
    ensures ByLastUse(ops, s)
    decreases |l|
  {
    if s != [] {
      assert ByLastUse(ops, l[1..]);
      var t := if s[0] == l[0] then s[1..] else s;
      SubByLastUse(ops, t, l[1..]);
      if s[0] == l[0] {
        forall j | 1 <= j < |s| ensures LastUse(ops, s[0].0) > LastUse(ops, s[j].0) {
          assert t[j - 1].0 == s[j].0;
          SubKeys(t, l[1..], s[j].0);
          var i :| 0 <= i < |l[1..]| && l[1..][i].0 == s[j].0;
          assert l[i + 1].0 == s[j].0;
        }
        forall i, j | 1 <= i < j < |s| ensures LastUse(ops, s[i].0) > LastUse(ops, s[j].0) {
          assert s[i] == t[i - 1] && s[j] == t[j - 1];
        }
      }
    }
  }

  /** An operation that does not touch any key of the list leaves its order by last use. */
  lemma UntouchedByLastUse<K, V>(ops: seq<Op<K, V>>, op: Op<K, V>, l: Recency<K, V>)
    requires ByLastUse(ops, l)
    requires forall i :: 0 <= i < |l| ==> !Touches(op, l[i].0)
    ensures ByLastUse(ops + [op], l)
  {
    assert (ops + [op])[..|ops|] == ops;
  }

  lemma {:induction false} FrontByLastUse<K, V>(ops: seq<Op<K, V>>, op: Op<K, V>, l: Recency<K, V>, k: K, v: V)
    requires Distinct(l) && ByLastUse(ops, l) && Touches(op, k)
    ensures ByLastUse(ops + [op], [(k, v)] + Without(l, k))
  {
    var w := Without(l, k);
    WithoutSub(l, k);
    SubByLastUse(ops, w, l);
    assert forall i :: 0 <= i < |w| ==> w[i].0 != k;
    UntouchedByLastUse(ops, op, w);
    assert (ops + [op])[..|ops|] == ops;
    forall i | 0 <= i < |w| ensures LastUse(ops + [op], w[i].0) < |ops| {
      LastUseBound(ops, w[i].0);
    }
  }

  lemma ApplyByLastUse<K, V>(max: nat, ops: seq<Op<K, V>>, l: Recency<K, V>, op: Op<K, V>)
    requires Distinct(l) && ByLastUse(ops, l)
    ensures ByLastUse(ops + [op], Apply(max, l, op))
  {
    match op {
      case OpPut(k, v) => FrontByLastUse(ops, op, l, k, v);
      case OpGet(k) =>
        if Find(l, k).Some? {
          FrontByLastUse(ops, op, l, k, Find(l, k).value);
        } else {
          FoundAt(l, k);
          UntouchedByLastUse(ops, op, l);
        }
      case OpErase(k) =>
        WithoutSub(l, k);
        SubByLastUse(ops, Without(l, k), l);
        UntouchedByLastUse(ops, op, Without(l, k));
      case OpEraseIf(f) =>
        RejectSub(l, f);
        SubByLastUse(ops, Reject(l, f), l);
        UntouchedByLastUse(ops, op, Reject(l, f));
      case OpClear =>
    }
  }

  /**
    After any operations the list is ordered by last use: the entry that a put drops is the least
    recently used one.
   */
  lemma {:induction false} OrderedByLastUse<K, V>(max: nat, ops: seq<Op<K, V>>)
    ensures Distinct(Run(max, ops)) && ByLastUse(ops, Run(max, ops))
    decreases |ops|
  {
    if ops != [] {
      var before, op := ops[..|ops| - 1], ops[|ops| - 1];
      OrderedByLastUse(max, before);
      ApplyDistinct(max, Run(max, before), op);
      ApplyByLastUse(max, before, Run(max, before), op);
      assert before + [op] == ops;
    }
  }
}
