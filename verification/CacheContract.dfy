/**
  What a cache may ask of its strategy and what the strategy promises: Poco's `AbstractStrategy`, for any state `S`.
  And `StrategyCollection`, which makes one strategy of several.
 */
module CacheContract {
  import opened CacheHistory

  /** The callbacks; those that look at the clock are given its reading. */
  datatype Callbacks<!S, !K, !V> = Callbacks(
    onAdd: (S, K, V, int) -> S,
    onUpdate: (S, K, V, int) -> S,
    onRemove: (S, K) -> S,
    onGet: (S, K, int) -> S,
    onClear: S -> S,
    isValid: (S, K, int) -> bool,
    onReplace: (S, int) -> set<K>)

  /** Which states are well-formed, and which keys a state holds. */
  datatype View<!S, !K> = View(wf: S -> bool, keys: S -> set<K>)

  // ---- The contract, callback by callback ----

  /** Adding a new key holds it too. */
  ghost predicate AddOk<S(!new), K(!new), V(!new)>(c: Callbacks<S, K, V>, w: View<S, K>) {
    forall s, k, v, now {:trigger c.onAdd(s, k, v, now)} :: w.wf(s) && k !in w.keys(s) ==>
      w.wf(c.onAdd(s, k, v, now)) && w.keys(c.onAdd(s, k, v, now)) == w.keys(s) + {k}
  }

  /** Updating a held key keeps the keys. */
  ghost predicate UpdateOk<S(!new), K(!new), V(!new)>(c: Callbacks<S, K, V>, w: View<S, K>) {
    forall s, k, v, now {:trigger c.onUpdate(s, k, v, now)} :: w.wf(s) && k in w.keys(s) ==>
      w.wf(c.onUpdate(s, k, v, now)) && w.keys(c.onUpdate(s, k, v, now)) == w.keys(s)
  }

  /** Removing a key drops it, held or not. */
  ghost predicate RemoveOk<S(!new), K(!new), V>(c: Callbacks<S, K, V>, w: View<S, K>) {
    forall s, k {:trigger c.onRemove(s, k)} :: w.wf(s) ==>
      w.wf(c.onRemove(s, k)) && w.keys(c.onRemove(s, k)) == w.keys(s) - {k}
  }

  /** Reading a held key keeps the keys. */
  ghost predicate GetOk<S(!new), K(!new), V>(c: Callbacks<S, K, V>, w: View<S, K>) {
    forall s, k, now {:trigger c.onGet(s, k, now)} :: w.wf(s) && k in w.keys(s) ==>
      w.wf(c.onGet(s, k, now)) && w.keys(c.onGet(s, k, now)) == w.keys(s)
  }

  ghost predicate ClearOk<S(!new), K, V>(c: Callbacks<S, K, V>, w: View<S, K>) {
    forall s {:trigger c.onClear(s)} :: w.wf(s) ==> w.wf(c.onClear(s)) && w.keys(c.onClear(s)) == {}
  }

  /** A key that is not held is not valid. */
  ghost predicate ValidOk<S(!new), K(!new), V>(c: Callbacks<S, K, V>, w: View<S, K>) {
    forall s, k, now {:trigger c.isValid(s, k, now)} :: w.wf(s) && c.isValid(s, k, now) ==> k in w.keys(s)
  }

  /** `onReplace` has no say in this: it changes nothing, and the cache ignores names it does not know. */
  ghost predicate Contract<S(!new), K(!new), V(!new)>(c: Callbacks<S, K, V>, w: View<S, K>) {
    AddOk(c, w) && UpdateOk(c, w) && RemoveOk(c, w) && GetOk(c, w) && ClearOk(c, w) && ValidOk(c, w)
  }

  // ---- A strategy along a history ----

  function Notified<S, K, V>(c: Callbacks<S, K, V>, s: S, e: Event<K, V>): S {
    match e
    case Added(k, v, now) => c.onAdd(s, k, v, now)
    case Updated(k, v, now) => c.onUpdate(s, k, v, now)
    case Removed(k) => c.onRemove(s, k)
    case Got(k, now) => c.onGet(s, k, now)
    case Cleared => c.onClear(s)
  }

  function After<S, K, V>(c: Callbacks<S, K, V>, start: S, h: History<K, V>): S {
    if h.Start? then start else Notified(c, After(c, start, h.past), h.last)
  }

  ghost predicate Agrees<S, K, V>(w: View<S, K>, s: S, d: map<K, V>) {
    w.wf(s) && w.keys(s) == d.Keys
  }

  lemma NotifiedAgrees<S(!new), K(!new), V(!new)>(c: Callbacks<S, K, V>, w: View<S, K>, s: S, h: History<K, V>,
    e: Event<K, V>)
    requires Contract(c, w) && Agrees(w, s, Replay(h)) && Allowed(Replay(h), e)
    ensures Agrees(w, Notified(c, s, e), Replay(Then(h, e)))
  {
    match e
    case Added(k, v, now) => assert Replay(h)[k := v].Keys == Replay(h).Keys + {k};
    case Updated(k, v, now) => assert Replay(h)[k := v].Keys == Replay(h).Keys;
    case Removed(k) => assert (Replay(h) - {k}).Keys == Replay(h).Keys - {k};
    case Got(k, now) =>
    case Cleared =>
  }

  /** Every strategy that meets its contract holds the keys of the plain map, after every history the cache can make. */
  lemma {:induction false} KeysAgree<S(!new), K(!new), V(!new)>(c: Callbacks<S, K, V>, w: View<S, K>, start: S,
    h: History<K, V>)
    requires Contract(c, w) && w.wf(start) && w.keys(start) == {} && Disciplined(h)
    ensures Agrees(w, After(c, start, h), Replay(h))
  {
    if h.Then? {
      KeysAgree(c, w, start, h.past);
      NotifiedAgrees(c, w, After(c, start, h.past), h.past, h.last);
    }
  }

  // ---- Several strategies as one ----

  function Each<S>(ss: seq<S>, f: S -> S): (r: seq<S>)
    ensures |r| == |ss| && forall i :: 0 <= i < |ss| ==> r[i] == f(ss[i])
  {
    seq(|ss|, i requires 0 <= i < |ss| => f(ss[i]))
  }

  predicate AllValid<S, K, V>(c: Callbacks<S, K, V>, ss: seq<S>, k: K, now: int) {
    forall i :: 0 <= i < |ss| ==> c.isValid(ss[i], k, now)
  }

  /** What the first `n` want gone. */
  function Union<S, K, V>(c: Callbacks<S, K, V>, ss: seq<S>, now: int, n: nat): set<K>
    requires n <= |ss|
  {
    if n == 0 then {} else Union(c, ss, now, n - 1) + c.onReplace(ss[n - 1], now)
  }

  function EachAdds<S, K, V>(c: Callbacks<S, K, V>, ss: seq<S>, k: K, v: V, now: int): seq<S> {
    Each(ss, s => c.onAdd(s, k, v, now))
  }

  function EachRemoves<S, K, V>(c: Callbacks<S, K, V>, ss: seq<S>, k: K): seq<S> {
    Each(ss, s => c.onRemove(s, k))
  }

  function EachGets<S, K, V>(c: Callbacks<S, K, V>, ss: seq<S>, k: K, now: int): seq<S> {
    Each(ss, s => c.onGet(s, k, now))
  }

  /** An update is a remove and an add of all, since the collection does not override `onUpdate`. */
  function Collection<S, K, V>(c: Callbacks<S, K, V>): Callbacks<seq<S>, K, V> {
    Callbacks(
      (ss, k, v, now) => EachAdds(c, ss, k, v, now),
      (ss, k, v, now) => EachAdds(c, EachRemoves(c, ss, k), k, v, now),
      (ss, k) => EachRemoves(c, ss, k),
      (ss, k, now) => EachGets(c, ss, k, now),
      ss => Each(ss, c.onClear),
      (ss, k, now) => AllValid(c, ss, k, now),
      (ss, now) => Union(c, ss, now, |ss|))
  }

  /** At least one strategy, each well-formed, all with the same keys. */
  ghost predicate Together<S, K>(w: View<S, K>, ss: seq<S>) {
    ss != [] && forall i :: 0 <= i < |ss| ==> w.wf(ss[i]) && w.keys(ss[i]) == w.keys(ss[0])
  }

  ghost function KeysTogether<S, K>(w: View<S, K>, ss: seq<S>): set<K> {
    if ss == [] then {} else w.keys(ss[0])
  }

  ghost function CollectionView<S, K>(w: View<S, K>): View<seq<S>, K> {
    View(ss => Together(w, ss), ss => KeysTogether(w, ss))
  }

  lemma EachAddOk<S(!new), K(!new), V(!new)>(c: Callbacks<S, K, V>, w: View<S, K>)
    requires AddOk(c, w)
    ensures AddOk(Collection(c), CollectionView(w))
  {
  }

  lemma EachRemoveOk<S(!new), K(!new), V(!new)>(c: Callbacks<S, K, V>, w: View<S, K>)
    requires RemoveOk(c, w)
    ensures RemoveOk(Collection(c), CollectionView(w))
  {
  }

  lemma EachUpdateOk<S(!new), K(!new), V(!new)>(c: Callbacks<S, K, V>, w: View<S, K>)
    requires AddOk(c, w) && RemoveOk(c, w)
    ensures UpdateOk(Collection(c), CollectionView(w))
  {
    var cc, ww := Collection(c), CollectionView(w);
    EachAddOk(c, w);
    EachRemoveOk(c, w);
    forall ss, k, v, now | ww.wf(ss) && k in ww.keys(ss)
      ensures ww.wf(cc.onUpdate(ss, k, v, now)) && ww.keys(cc.onUpdate(ss, k, v, now)) == ww.keys(ss)
    {
      var removed := cc.onRemove(ss, k);
      assert cc.onUpdate(ss, k, v, now) == cc.onAdd(removed, k, v, now);
    }
  }

  lemma EachGetOk<S(!new), K(!new), V(!new)>(c: Callbacks<S, K, V>, w: View<S, K>)
    requires GetOk(c, w)
    ensures GetOk(Collection(c), CollectionView(w))
  {
  }

  /** A collection of strategies that meet the contract meets it. */
  lemma CollectionMeetsContract<S(!new), K(!new), V(!new)>(c: Callbacks<S, K, V>, w: View<S, K>)
    requires Contract(c, w)
    ensures Contract(Collection(c), CollectionView(w))
  {
    EachAddOk(c, w);
    EachUpdateOk(c, w);
    EachRemoveOk(c, w);
    EachGetOk(c, w);
  }

  // ---- The collection's loops ----

  /** A notification other than an update reaches every strategy in turn. */
  method NotifyEach<S, K, V>(c: Callbacks<S, K, V>, ss: seq<S>, e: Event<K, V>) returns (r: seq<S>)
    requires !e.Updated?
    ensures r == Notified(Collection(c), ss, e)
  {
    r := [];
    for i := 0 to |ss|
      invariant |r| == i && forall j :: 0 <= j < i ==> r[j] == Notified(c, ss[j], e)
    {
      r := r + [Notified(c, ss[i], e)];
    }
  }

  /** Every strategy is asked, up to the first that says no. */
  method IsValidForEach<S, K, V>(c: Callbacks<S, K, V>, ss: seq<S>, k: K, now: int) returns (r: bool)
    ensures r <==> Collection(c).isValid(ss, k, now)
  {
    r := true;
    var i := 0;
    while i < |ss| && r
      invariant i <= |ss| && (r <==> AllValid(c, ss[..i], k, now))
    {
      r := c.isValid(ss[i], k, now);
      assert ss[..i + 1] == ss[..i] + [ss[i]];
      i := i + 1;
    }
    assert i == |ss| ==> ss[..i] == ss;
  }

  method ReplaceForEach<S, K, V>(c: Callbacks<S, K, V>, ss: seq<S>, now: int) returns (gone: set<K>)
    ensures gone == Collection(c).onReplace(ss, now)
  {
    gone := {};
    for i := 0 to |ss|
      invariant gone == Union(c, ss, now, i)
    {
      gone := gone + c.onReplace(ss[i], now);
    }
  }
}
