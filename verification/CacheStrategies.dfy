/**
  The callbacks of the strategies, and what ties the state they keep to the notifications they have seen.
 */
module CacheStrategies {
  import opened Options
  import opened CacheHistory
  import opened CacheStrategy
  import opened CacheContract

  datatype Kind = Lru | Expire | AccessExpire

  /** `limit` is the number of keys of an LRU strategy, the lifetime in microseconds of the others. */
  datatype Strategy<K> = Strategy(kind: Kind, limit: nat, nodes: seq<Node<K>>, index: map<K, nat>, next: nat)

  const SHORTEST := 25000

  /** The constructors; `None` is `InvalidArgumentException`. */
  function Make<K>(kind: Kind, limit: nat): Option<Strategy<K>> {
    if limit < (if kind == Lru then 1 else SHORTEST) then None else Some(Strategy(kind, limit, [], map[], 0))
  }

  lemma MakeSucceeds<K>(kind: Kind, limit: nat)
    ensures Make<K>(kind, limit).Some? <==> if kind == Lru then limit >= 1 else limit >= 25000
    ensures var s := Make<K>(kind, limit);
      s.Some? ==> s.value.kind == kind && s.value.limit == limit && s.value.nodes == [] && s.value.index == map[]
  {
  }

  // ---- Callbacks ----

  function OnAdd<K(==)>(s: Strategy<K>, k: K, now: int): Strategy<K> {
    if s.kind == Lru then
      s.(nodes := [Node(s.next, 0, k)] + s.nodes, index := s.index[k := s.next], next := s.next + 1)
    else
      var inserted := Insert(s.nodes, Node(s.next, now, k));
      var nodes := if k in s.index then Erase(inserted, s.index[k]) else inserted;
      s.(nodes := nodes, index := s.index[k := s.next], next := s.next + 1)
  }

  function OnRemove<K(==)>(s: Strategy<K>, k: K): Strategy<K> {
    if k !in s.index then s else s.(nodes := Erase(s.nodes, s.index[k]), index := s.index - {k})
  }

  function OnUpdate<K(==)>(s: Strategy<K>, k: K, now: int): Strategy<K> {
    OnAdd(OnRemove(s, k), k, now)
  }

  function OnGet<K(==)>(s: Strategy<K>, k: K, now: int): Strategy<K> {
    if k !in s.index || s.kind == Expire then s
    else if s.kind == AccessExpire then
      var nodes := Insert(Erase(s.nodes, s.index[k]), Node(s.next, now, k));
      s.(nodes := nodes, index := s.index[k := s.next], next := s.next + 1)
    else
      s.(nodes := [Node(s.index[k], 0, k)] + Erase(s.nodes, s.index[k]))
  }

  function OnClear<K>(s: Strategy<K>): Strategy<K> {
    s.(nodes := [], index := map[])
  }

  function On<K(==), V>(s: Strategy<K>, e: Event<K, V>): Strategy<K> {
    match e
    case Added(k, _, now) => OnAdd(s, k, now)
    case Updated(k, _, now) => OnUpdate(s, k, now)
    case Removed(k) => OnRemove(s, k)
    case Got(k, now) => OnGet(s, k, now)
    case Cleared => OnClear(s)
  }

  // ---- The state is what the notifications say ----

  ghost predicate Wf<K>(s: Strategy<K>) {
    && s.limit >= (if s.kind == Lru then 1 else SHORTEST)
    && Linked(s.nodes) && s.index == IndexOf(s.nodes) && (forall k :: k in s.index ==> s.index[k] < s.next)
    && (s.kind != Lru ==> Sorted(s.nodes))
  }

  ghost predicate Reflects<K, V>(s: Strategy<K>, h: History<K, V>) {
    if s.kind == Lru then KeysOf(s.nodes) == Recency(h) else StampsOf(s.nodes) == Stamps(h, s.kind == AccessExpire)
  }

  ghost predicate Ok<K, V>(s: Strategy<K>, h: History<K, V>) {
    Wf(s) && Reflects(s, h)
  }

  lemma RemoveKeeps<K>(s: Strategy<K>, k: K)
    requires Wf(s) && k in s.index
    ensures Wf(OnRemove(s, k)) && k !in OnRemove(s, k).index
    ensures s.kind == Lru ==> KeysOf(OnRemove(s, k).nodes) == Without(KeysOf(s.nodes), {k})
    ensures s.kind != Lru ==> StampsOf(OnRemove(s, k).nodes) == StampsOf(s.nodes) - {k}
  {
    Erased(s.nodes, k, s.index[k]);
    if s.kind == Lru { ErasedKeys(s.nodes, k, s.index[k]); }
    else { ErasedStamps(s.nodes, k, s.index[k]); ErasedSorted(s.nodes, s.index[k]); }
  }

  lemma AddKeeps<K>(s: Strategy<K>, k: K, now: int)
    requires Wf(s) && k !in s.index
    ensures Wf(OnAdd(s, k, now))
    ensures s.kind == Lru ==> KeysOf(OnAdd(s, k, now).nodes) == [k] + KeysOf(s.nodes)
    ensures s.kind != Lru ==> StampsOf(OnAdd(s, k, now).nodes) == StampsOf(s.nodes)[k := now]
  {
    if s.kind == Lru {
      Front(Node(s.next, 0, k), s.nodes);
    } else {
      IndexedKeys(s.nodes);
      Inserted(s.nodes, Node(s.next, now, k));
      InsertedStamps(s.nodes, Node(s.next, now, k));
      InsertedSorted(s.nodes, Node(s.next, now, k));
    }
  }

  /** A key that is added though it is there only gets a new stamp. */
  lemma AddsAgain<K>(s: Strategy<K>, k: K, now: int)
    requires Wf(s) && k in s.index && s.kind != Lru
    ensures OnAdd(s, k, now) == OnUpdate(s, k, now)
  {
    ErasedAround(s.nodes, Node(s.next, now, k), s.index[k]);
    assert (s.index - {k})[k := s.next] == s.index[k := s.next];
  }

  /** Nothing happens to a key that is not there when it is removed or read; an update adds it. */
  lemma UnknownKey<K>(s: Strategy<K>, k: K, now: int)
    requires k !in s.index
    ensures OnRemove(s, k) == s && OnGet(s, k, now) == s && OnUpdate(s, k, now) == OnAdd(s, k, now)
  {
  }

  /** Keys of the strategy are the keys of the plain map. */
  lemma SameKeys<K, V>(s: Strategy<K>, h: History<K, V>)
    requires Ok(s, h)
    ensures s.index.Keys == Replay(h).Keys
    ensures Bijective(s.nodes, s.index)
  {
    IndexedKeys(s.nodes);
    LinkedIsBijective(s.nodes);
    if s.kind == Lru { RecencyKeys(h); } else { StampedKeys(h, s.kind == AccessExpire); }
  }

  /** Reading a key is removing it and adding it again, for the strategies that care. */
  lemma TouchKeeps<K>(s: Strategy<K>, k: K, now: int)
    requires Wf(s) && k in s.index && s.kind == AccessExpire
    ensures Wf(OnGet(s, k, now)) && StampsOf(OnGet(s, k, now).nodes) == StampsOf(s.nodes)[k := now]
  {
    RemoveKeeps(s, k);
    var r := OnRemove(s, k);
    AddKeeps(r, k, now);
    Restamped(StampsOf(s.nodes), k, now);
    assert OnGet(s, k, now) == OnAdd(r, k, now);
  }

  lemma MoveKeeps<K>(s: Strategy<K>, k: K, now: int)
    requires Wf(s) && k in s.index && s.kind == Lru
    ensures Wf(OnGet(s, k, now)) && KeysOf(OnGet(s, k, now).nodes) == [k] + Without(KeysOf(s.nodes), {k})
  {
    RemoveKeeps(s, k);
    var r := OnRemove(s, k);
    OthersElsewhere(s, k);
    Front(Node(s.index[k], 0, k), r.nodes);
    assert s.index == r.index[k := s.index[k]];
  }

  lemma OthersElsewhere<K>(s: Strategy<K>, k: K)
    requires Wf(s) && k in s.index
    ensures Unused(s.index - {k}, s.index[k])
  {
    NodesAreIndexed(s.nodes);
    forall j | j in s.index && s.index[j] == s.index[k] ensures j == k { SameNode(s, j, k); }
  }

  lemma SameNode<K>(s: Strategy<K>, j: K, k: K)
    requires Wf(s) && j in s.index && k in s.index && s.index[j] == s.index[k]
    ensures j == k
  {
    LinkedIsBijective(s.nodes);
    assert HasNode(s.nodes, j, s.index[j]) && HasNode(s.nodes, k, s.index[k]);
    var m :| m in s.nodes && m.key == j && m.id == s.index[j];
    var n :| n in s.nodes && n.key == k && n.id == s.index[k];
    var a :| 0 <= a < |s.nodes| && s.nodes[a] == m;
    var b :| 0 <= b < |s.nodes| && s.nodes[b] == n;
  }

  lemma GetKeeps<K>(s: Strategy<K>, k: K, now: int)
    requires Wf(s) && k in s.index && s.kind != Expire
    ensures Wf(OnGet(s, k, now))
    ensures s.kind == Lru ==> KeysOf(OnGet(s, k, now).nodes) == [k] + Without(KeysOf(s.nodes), {k})
    ensures s.kind != Lru ==> StampsOf(OnGet(s, k, now).nodes) == StampsOf(s.nodes)[k := now]
  {
    if s.kind == Lru { MoveKeeps(s, k, now); } else { TouchKeeps(s, k, now); }
  }

  lemma OnAddKeepsOk<K, V>(s: Strategy<K>, h: History<K, V>, k: K, v: V, now: int)
    requires Ok(s, h) && k !in s.index
    ensures Ok(OnAdd(s, k, now), Then(h, Added(k, v, now)))
  {
    AddKeeps(s, k, now);
    if s.kind == Lru {
      IndexedKeys(s.nodes);
      assert k !in SetOf(Recency(h));
      WithoutNone(Recency(h), {k});
    }
  }

  lemma OnUpdateKeepsOk<K, V>(s: Strategy<K>, h: History<K, V>, k: K, v: V, now: int)
    requires Ok(s, h) && k in s.index
    ensures Ok(OnUpdate(s, k, now), Then(h, Updated(k, v, now)))
  {
    RemoveKeeps(s, k);
    AddKeeps(OnRemove(s, k), k, now);
    Restamped(StampsOf(s.nodes), k, now);
  }

  lemma OnGetKeepsOk<K, V>(s: Strategy<K>, h: History<K, V>, k: K, now: int)
    requires Ok(s, h) && k in s.index
    ensures Ok(OnGet(s, k, now), Then(h, Got(k, now)))
  {
    IndexedKeys(s.nodes);
    assert s.kind == Lru ==> k in SetOf(Recency(h));
    if s.kind != Expire { GetKeeps(s, k, now); }
  }

  lemma OnRemoveKeepsOk<K, V>(s: Strategy<K>, h: History<K, V>, k: K)
    requires Ok(s, h) && k in s.index
    ensures Ok(OnRemove(s, k), Then(h, Removed(k)))
  {
    RemoveKeeps(s, k);
  }

  /** Every notification the cache may send keeps every strategy in step. */
  lemma OnKeepsOk<K, V>(s: Strategy<K>, h: History<K, V>, e: Event<K, V>)
    requires Ok(s, h) && Allowed(Replay(h), e)
    ensures Ok(On(s, e), Then(h, e)) && On(s, e).kind == s.kind && On(s, e).limit == s.limit
  {
    SameKeys(s, h);
    match e
    case Added(k, v, now) => OnAddKeepsOk(s, h, k, v, now);
    case Updated(k, v, now) => OnUpdateKeepsOk(s, h, k, v, now);
    case Removed(k) => OnRemoveKeepsOk(s, h, k);
    case Got(k, now) => OnGetKeepsOk(s, h, k, now);
    case Cleared =>
  }

  // ---- Questions ----

  function OnIsValid<K(==)>(s: Strategy<K>, k: K, now: int): bool {
    if k !in s.index then false
    else if s.kind == Lru then true
    else now - StampAt(s.nodes, s.index[k]) < s.limit
  }

  /** Through an iterator, which in a well-formed strategy points to a node. */
  function StampAt<K>(ns: seq<Node<K>>, id: nat): int {
    if ns == [] then 0 else if ns[0].id == id then ns[0].stamp else StampAt(ns[1..], id)
  }

  lemma {:induction false} StampThroughIterator<K>(ns: seq<Node<K>>, k: K)
    requires Linked(ns) && k in IndexOf(ns)
    ensures k in StampsOf(ns) && HasNode(ns, k, IndexOf(ns)[k])
    ensures StampAt(ns, IndexOf(ns)[k]) == StampsOf(ns)[k]
  {
    IndexHasNode(ns, k);
    IndexedKeys(ns);
    if ns[0].key != k {
      StampThroughIterator(ns[1..], k);
      assert IndexOf(ns[1..])[k] == IndexOf(ns)[k];
    }
  }

  /** What a strategy of this kind says of a key, by the notifications alone. */
  ghost predicate Fresh<K, V>(kind: Kind, limit: nat, h: History<K, V>, k: K, now: int) {
    var stamps := Stamps(h, kind == AccessExpire);
    k in Replay(h) && (kind != Lru ==> k in stamps && now - stamps[k] < limit)
  }

  lemma ValidIsFresh<K, V>(s: Strategy<K>, h: History<K, V>, k: K, now: int)
    requires Ok(s, h)
    ensures OnIsValid(s, k, now) <==> Fresh(s.kind, s.limit, h, k, now)
  {
    SameKeys(s, h);
    if k in s.index && s.kind != Lru { StampThroughIterator(s.nodes, k); }
  }

  function OnReplace<K(==)>(s: Strategy<K>, now: int): set<K> {
    if s.kind == Lru then PastLimit(KeysOf(s.nodes), s.limit) else Late(StampsOf(s.nodes), s.limit, now)
  }

  /** The keys a strategy of this kind wants gone, by the notifications alone. */
  ghost function Doomed<K, V>(kind: Kind, limit: nat, h: History<K, V>, now: int): set<K> {
    if kind == Lru then PastLimit(Recency(h), limit) else Late(Stamps(h, kind == AccessExpire), limit, now)
  }

  lemma ReplaceIsDoomed<K, V>(s: Strategy<K>, h: History<K, V>, now: int)
    requires Ok(s, h)
    ensures OnReplace(s, now) == Doomed(s.kind, s.limit, h, now)
  {
  }

  function PastLimit<K(==)>(order: seq<K>, limit: nat): set<K> {
    if |order| <= limit then {} else SetOf(order[limit..])
  }

  function Late<K(==)>(stamps: map<K, int>, limit: nat, now: int): set<K> {
    set k | k in stamps && now - stamps[k] >= limit
  }

  lemma {:induction false} NoneLate<K>(ns: seq<Node<K>>, limit: nat, now: int)
    requires Sorted(ns) && (ns != [] ==> now - ns[0].stamp < limit)
    ensures Late(StampsOf(ns), limit, now) == {}
  {
    if ns != [] { NoneLate(ns[1..], limit, now); }
  }

  /** `onReplace` of the expiring strategies; the iterator is the rest of the list. */
  method OnReplaceExpire<K(==)>(s: Strategy<K>, now: int) returns (doomed: set<K>)
    requires Wf(s) && s.kind != Lru
    ensures doomed == OnReplace(s, now)
  {
    var it := s.nodes;
    doomed := {};
    while it != [] && now - it[0].stamp >= s.limit
      invariant Linked(it) && Sorted(it)
      invariant doomed + Late(StampsOf(it), s.limit, now) == Late(StampsOf(s.nodes), s.limit, now)
      decreases |it|
    {
      IndexedKeys(it[1..]);
      assert Late(StampsOf(it), s.limit, now) == {it[0].key} + Late(StampsOf(it[1..]), s.limit, now);
      doomed := doomed + {it[0].key};
      it := it[1..];
    }
    NoneLate(it, s.limit, now);
  }

  lemma {:induction false} KeysAt<K>(ns: seq<Node<K>>)
    ensures |KeysOf(ns)| == |ns| && forall i :: 0 <= i < |ns| ==> KeysOf(ns)[i] == ns[i].key
  {
    if ns != [] { KeysAt(ns[1..]); }
  }

  lemma {:induction false} LinkedKeys<K>(ns: seq<Node<K>>)
    requires Linked(ns)
    ensures Distinct(KeysOf(ns)) && |IndexOf(ns)| == |ns|
  {
    if ns != [] {
      LinkedKeys(ns[1..]);
      IndexedKeys(ns[1..]);
      var rest := KeysOf(ns[1..]);
      forall j | 0 <= j < |rest| ensures rest[j] != ns[0].key { assert rest[j] in SetOf(rest); }
    }
  }

  /** `onReplace` of the LRU strategy, from the back of the list. */
  method OnReplaceLru<K(==)>(s: Strategy<K>) returns (doomed: set<K>)
    requires Wf(s) && s.kind == Lru
    ensures doomed == OnReplace(s, 0)
  {
    KeysAt(s.nodes);
    LinkedKeys(s.nodes);
    ghost var order := KeysOf(s.nodes);
    doomed := {};
    var size := |s.index|;
    if size < s.limit { return; }
    var diff := size - s.limit;
    var it := |s.nodes| - 1;
    var i := 0;
    while i < diff
      invariant 0 <= i <= diff && it == |s.nodes| - 1 - i
      invariant doomed == SetOf(order[size - i..])
    {
      assert order[size - i - 1..] == [order[it]] + order[size - i..];
      SetOfFront(order[it], order[size - i..]);
      doomed := doomed + {s.nodes[it].key};
      if it != 0 { it := it - 1; }
      i := i + 1;
    }
  }

  // ---- The contract ----

  function StrategyCallbacks<K(==), V>(): Callbacks<Strategy<K>, K, V> {
    Callbacks(
      (s, k, v, now) => OnAdd(s, k, now),
      (s, k, v, now) => OnUpdate(s, k, now),
      (s, k) => OnRemove(s, k),
      (s, k, now) => OnGet(s, k, now),
      s => OnClear(s),
      (s, k, now) => OnIsValid(s, k, now),
      (s, now) => OnReplace(s, now))
  }

  ghost function StrategyView<K>(): View<Strategy<K>, K> {
    View((s: Strategy<K>) => Wf(s), (s: Strategy<K>) => s.index.Keys)
  }

  lemma RemoveDrops<K>(s: Strategy<K>, k: K)
    requires Wf(s)
    ensures Wf(OnRemove(s, k)) && OnRemove(s, k).index.Keys == s.index.Keys - {k}
  {
    if k in s.index { RemoveKeeps(s, k); }
  }

  lemma UpdateHolds<K>(s: Strategy<K>, k: K, now: int)
    requires Wf(s) && k in s.index
    ensures Wf(OnUpdate(s, k, now)) && OnUpdate(s, k, now).index.Keys == s.index.Keys
  {
    RemoveKeeps(s, k);
    AddKeeps(OnRemove(s, k), k, now);
  }

  lemma GetHolds<K>(s: Strategy<K>, k: K, now: int)
    requires Wf(s) && k in s.index
    ensures Wf(OnGet(s, k, now)) && OnGet(s, k, now).index.Keys == s.index.Keys
  {
    if s.kind != Expire { GetKeeps(s, k, now); }
  }

  lemma AddsAndRemoves<K(!new), V(!new)>(c: Callbacks<Strategy<K>, K, V>, w: View<Strategy<K>, K>)
    requires c == StrategyCallbacks<K, V>() && w == StrategyView<K>()
    ensures AddOk(c, w) && RemoveOk(c, w)
  {
    forall s, k, v, now | w.wf(s) && k !in w.keys(s)
      ensures w.wf(c.onAdd(s, k, v, now)) && w.keys(c.onAdd(s, k, v, now)) == w.keys(s) + {k}
    {
      AddKeeps(s, k, now);
    }
    forall s, k | w.wf(s) ensures w.wf(c.onRemove(s, k)) && w.keys(c.onRemove(s, k)) == w.keys(s) - {k} {
      RemoveDrops(s, k);
    }
  }

  lemma UpdatesAndGets<K(!new), V(!new)>(c: Callbacks<Strategy<K>, K, V>, w: View<Strategy<K>, K>)
    requires c == StrategyCallbacks<K, V>() && w == StrategyView<K>()
    ensures UpdateOk(c, w) && GetOk(c, w)
  {
    forall s, k, v, now | w.wf(s) && k in w.keys(s)
      ensures w.wf(c.onUpdate(s, k, v, now)) && w.keys(c.onUpdate(s, k, v, now)) == w.keys(s)
    {
      UpdateHolds(s, k, now);
    }
    forall s, k, now | w.wf(s) && k in w.keys(s)
      ensures w.wf(c.onGet(s, k, now)) && w.keys(c.onGet(s, k, now)) == w.keys(s)
    {
      GetHolds(s, k, now);
    }
  }

  /** The three strategies meet the contract of `AbstractStrategy`. */
  lemma StrategyMeetsContract<K(!new), V(!new)>()
    ensures Contract(StrategyCallbacks<K, V>(), StrategyView<K>())
  {
    AddsAndRemoves(StrategyCallbacks<K, V>(), StrategyView<K>());
    UpdatesAndGets(StrategyCallbacks<K, V>(), StrategyView<K>());
  }
}
