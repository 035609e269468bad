/**
  The replacement strategies of a Poco cache: least recently used, expiry by age, and expiry by age since the last
  access.  Each holds a list of nodes and a dictionary of iterators into it; an iterator is the number of its node.
 */
module CacheStrategy {
  import opened CacheHistory

  datatype Node<K> = Node(id: nat, stamp: int, key: K)

  // ---- A list and the iterators into it ----

  /** Where each key's node is, what its stamp is, and the keys in list order. */
  function IndexOf<K(==)>(ns: seq<Node<K>>): map<K, nat> {
    if ns == [] then map[] else IndexOf(ns[1..])[ns[0].key := ns[0].id]
  }

  function StampsOf<K(==)>(ns: seq<Node<K>>): map<K, int> {
    if ns == [] then map[] else StampsOf(ns[1..])[ns[0].key := ns[0].stamp]
  }

  function KeysOf<K>(ns: seq<Node<K>>): seq<K> {
    if ns == [] then [] else [ns[0].key] + KeysOf(ns[1..])
  }

  ghost predicate Unused<K>(index: map<K, nat>, id: nat) {
    forall k :: k in index ==> index[k] != id
  }

  /** No key and no number twice. */
  ghost predicate Linked<K>(ns: seq<Node<K>>) {
    ns != [] ==> Linked(ns[1..]) && ns[0].key !in IndexOf(ns[1..]) && Unused(IndexOf(ns[1..]), ns[0].id)
  }

  ghost predicate Sorted<K>(ns: seq<Node<K>>) {
    ns != [] ==> Sorted(ns[1..]) && (|ns| > 1 ==> ns[0].stamp <= ns[1].stamp)
  }

  /** One step of all of these. */
  lemma Front<K>(n: Node<K>, ns: seq<Node<K>>)
    ensures IndexOf([n] + ns) == IndexOf(ns)[n.key := n.id] && StampsOf([n] + ns) == StampsOf(ns)[n.key := n.stamp]
    ensures KeysOf([n] + ns) == [n.key] + KeysOf(ns)
    ensures Linked([n] + ns) <==> Linked(ns) && n.key !in IndexOf(ns) && Unused(IndexOf(ns), n.id)
    ensures Sorted([n] + ns) <==> Sorted(ns) && (ns != [] ==> n.stamp <= ns[0].stamp)
  {
    assert ([n] + ns)[1..] == ns;
  }

  lemma {:induction false} IndexedKeys<K>(ns: seq<Node<K>>)
    ensures IndexOf(ns).Keys == StampsOf(ns).Keys
    ensures IndexOf(ns).Keys == SetOf(KeysOf(ns))
  {
    if ns != [] {
      IndexedKeys(ns[1..]);
      SetOfFront(ns[0].key, KeysOf(ns[1..]));
    }
  }

  /** The list without the node an iterator names. */
  function Erase<K>(ns: seq<Node<K>>, id: nat): seq<Node<K>> {
    if ns == [] then [] else if ns[0].id == id then ns[1..] else [ns[0]] + Erase(ns[1..], id)
  }

  /** `multimap::insert`: behind the last node stamped no later. */
  function Insert<K>(ns: seq<Node<K>>, n: Node<K>): seq<Node<K>> {
    if ns == [] || n.stamp < ns[0].stamp then [n] + ns else [ns[0]] + Insert(ns[1..], n)
  }

  lemma {:induction false} Erased<K>(ns: seq<Node<K>>, k: K, id: nat)
    requires Linked(ns) && k in IndexOf(ns) && id == IndexOf(ns)[k]
    ensures Linked(Erase(ns, id)) && IndexOf(Erase(ns, id)) == IndexOf(ns) - {k}
  {
    var rest := ns[1..];
    if ns[0].key != k {
      Erased(rest, k, id);
      assert IndexOf(rest)[k] == id;
      Front(ns[0], Erase(rest, id));
    }
  }

  lemma FrontStamps<K>(n: Node<K>, ns: seq<Node<K>>)
    ensures StampsOf([n] + ns) == StampsOf(ns)[n.key := n.stamp]
  {
    assert ([n] + ns)[1..] == ns;
  }

  lemma Restamped<K>(m: map<K, int>, k: K, v: int)
    ensures (m - {k})[k := v] == m[k := v]
    ensures k !in m ==> m[k := v] - {k} == m
  {
  }

  lemma Passed<K>(m: map<K, int>, j: K, v: int, k: K)
    requires j != k
    ensures (m - {k})[j := v] == m[j := v] - {k}
  {
  }

  lemma {:induction false} ErasedStamps<K>(ns: seq<Node<K>>, k: K, id: nat)
    requires Linked(ns) && k in IndexOf(ns) && id == IndexOf(ns)[k]
    ensures StampsOf(Erase(ns, id)) == StampsOf(ns) - {k}
  {
    var n, rest := ns[0], ns[1..];
    if n.key == k {
      IndexedKeys(rest);
      Restamped(StampsOf(rest), k, n.stamp);
    } else {
      assert IndexOf(rest)[k] == id;
      ErasedStamps(rest, k, id);
      FrontStamps(n, Erase(rest, id));
      Passed(StampsOf(rest), n.key, n.stamp, k);
    }
  }

  lemma {:induction false} ErasedKeys<K>(ns: seq<Node<K>>, k: K, id: nat)
    requires Linked(ns) && k in IndexOf(ns) && id == IndexOf(ns)[k]
    ensures KeysOf(Erase(ns, id)) == Without(KeysOf(ns), {k})
  {
    var rest := ns[1..];
    IndexedKeys(rest);
    assert KeysOf(ns)[1..] == KeysOf(rest);
    if ns[0].key == k {
      assert k !in SetOf(KeysOf(rest));
      WithoutNone(KeysOf(rest), {k});
    } else {
      ErasedKeys(rest, k, id);
      assert IndexOf(rest)[k] == id;
      Front(ns[0], Erase(rest, id));
    }
  }

  lemma {:induction false} ErasedSorted<K>(ns: seq<Node<K>>, id: nat)
    requires Sorted(ns)
    ensures Sorted(Erase(ns, id))
    ensures ns != [] && Erase(ns, id) != [] ==> ns[0].stamp <= Erase(ns, id)[0].stamp
  {
    if ns != [] && ns[0].id != id {
      ErasedSorted(ns[1..], id);
      Front(ns[0], Erase(ns[1..], id));
    }
  }

  lemma {:induction false} Inserted<K>(ns: seq<Node<K>>, n: Node<K>)
    requires Linked(ns) && n.key !in IndexOf(ns) && Unused(IndexOf(ns), n.id)
    ensures Linked(Insert(ns, n)) && IndexOf(Insert(ns, n)) == IndexOf(ns)[n.key := n.id]
  {
    if ns == [] || n.stamp < ns[0].stamp {
      Front(n, ns);
    } else {
      var rest := ns[1..];
      assert IndexOf(ns)[ns[0].key] == ns[0].id;
      assert Unused(IndexOf(rest), n.id) by {
        forall k | k in IndexOf(rest) ensures IndexOf(rest)[k] != n.id { assert IndexOf(ns)[k] == IndexOf(rest)[k]; }
      }
      Inserted(rest, n);
      Front(ns[0], Insert(rest, n));
    }
  }

  lemma {:induction false} InsertedStamps<K>(ns: seq<Node<K>>, n: Node<K>)
    requires n.key !in StampsOf(ns)
    ensures StampsOf(Insert(ns, n)) == StampsOf(ns)[n.key := n.stamp]
  {
    if ns == [] || n.stamp < ns[0].stamp {
      Front(n, ns);
    } else {
      InsertedStamps(ns[1..], n);
      Front(ns[0], Insert(ns[1..], n));
    }
  }

  /** The new node stands at `p`: behind every node stamped no later, and in front of every later one. */
  lemma {:induction false} InsertedPlace<K>(ns: seq<Node<K>>, n: Node<K>) returns (p: nat)
    requires Sorted(ns)
    ensures p <= |ns| && Insert(ns, n) == ns[..p] + [n] + ns[p..]
    ensures p > 0 ==> ns[p - 1].stamp <= n.stamp
    ensures p < |ns| ==> n.stamp < ns[p].stamp
  {
    if ns == [] || n.stamp < ns[0].stamp {
      p := 0;
    } else {
      var q := InsertedPlace(ns[1..], n);
      p := q + 1;
    }
  }

  /** Another node can be erased before or after. */
  lemma {:induction false} ErasedAround<K>(ns: seq<Node<K>>, n: Node<K>, id: nat)
    requires Sorted(ns) && n.id != id
    ensures Erase(Insert(ns, n), id) == Insert(Erase(ns, id), n)
  {
    if ns != [] {
      var rest := ns[1..];
      assert [n] + ns == [n] + ([ns[0]] + rest);
      assert ([n] + ns)[1..] == ns;
      if n.stamp >= ns[0].stamp {
        ErasedAround(rest, n, id);
        var more := [ns[0]] + Insert(rest, n);
        assert more[1..] == Insert(rest, n);
        var less := [ns[0]] + Erase(rest, id);
        assert less[1..] == Erase(rest, id);
      }
    }
  }

  lemma {:induction false} InsertedSorted<K>(ns: seq<Node<K>>, n: Node<K>)
    requires Sorted(ns)
    ensures Sorted(Insert(ns, n))
    ensures Insert(ns, n)[0].stamp == n.stamp || (ns != [] && Insert(ns, n)[0].stamp == ns[0].stamp)
  {
    if ns == [] || n.stamp < ns[0].stamp {
      Front(n, ns);
    } else {
      InsertedSorted(ns[1..], n);
      Front(ns[0], Insert(ns[1..], n));
    }
  }

  /** Key dictionary and list are in bijection: each entry names a node, each node has its entry, and both only once. */
  ghost predicate Bijective<K>(ns: seq<Node<K>>, index: map<K, nat>) {
    && (forall n :: n in ns ==> Indexed(n, index))
    && (forall k :: k in index ==> HasNode(ns, k, index[k]))
    && (forall i, j :: 0 <= i < j < |ns| ==> ns[i].id != ns[j].id)
  }

  ghost predicate Indexed<K>(n: Node<K>, index: map<K, nat>) {
    n.key in index && index[n.key] == n.id
  }

  ghost predicate HasNode<K>(ns: seq<Node<K>>, k: K, id: nat) {
    exists n :: n in ns && n.key == k && n.id == id
  }

  lemma {:induction false} NodesAreIndexed<K>(ns: seq<Node<K>>)
    requires Linked(ns)
    ensures forall n :: n in ns ==> Indexed(n, IndexOf(ns))
  {
    if ns != [] {
      NodesAreIndexed(ns[1..]);
      forall n | n in ns ensures Indexed(n, IndexOf(ns)) {
        assert n == ns[0] || n in ns[1..];
      }
    }
  }

  lemma {:induction false} IndexHasNode<K>(ns: seq<Node<K>>, k: K)
    requires k in IndexOf(ns)
    ensures HasNode(ns, k, IndexOf(ns)[k])
  {
    if k == ns[0].key {
      assert ns[0] in ns;
    } else {
      IndexHasNode(ns[1..], k);
      var n :| n in ns[1..] && n.key == k && n.id == IndexOf(ns[1..])[k];
      assert n in ns;
    }
  }

  lemma {:induction false} IdsDiffer<K>(ns: seq<Node<K>>, i: nat, j: nat)
    requires Linked(ns) && i < j < |ns|
    ensures ns[i].id != ns[j].id
  {
    var rest := ns[1..];
    if i == 0 {
      NodesAreIndexed(rest);
      assert rest[j - 1] in rest;
      assert Indexed(rest[j - 1], IndexOf(rest));
    } else {
      IdsDiffer(rest, i - 1, j - 1);
    }
  }

  lemma LinkedIsBijective<K>(ns: seq<Node<K>>)
    requires Linked(ns)
    ensures Bijective(ns, IndexOf(ns))
  {
    NodesAreIndexed(ns);
    forall k | k in IndexOf(ns) ensures HasNode(ns, k, IndexOf(ns)[k]) { IndexHasNode(ns, k); }
    forall i, j | 0 <= i < j < |ns| ensures ns[i].id != ns[j].id { IdsDiffer(ns, i, j); }
  }
}
