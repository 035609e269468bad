/**
  Collections of LRU, expire and access-expire strategies: what they keep and drop, by the notifications alone.
 */
module CachePolicies {
  import opened Options
  import opened CacheHistory
  import opened CacheContract
  import opened CacheStrategies

  datatype Policy = Policy(kind: Kind, limit: nat)

  // ---- Several strategies at once ----

  ghost predicate InStep<K, V>(ss: seq<Strategy<K>>, policies: seq<Policy>, h: History<K, V>) {
    |ss| == |policies| && forall i :: 0 <= i < |ss| ==> Follows(ss[i], policies[i], h)
  }

  ghost predicate Follows<K, V>(s: Strategy<K>, p: Policy, h: History<K, V>) {
    Ok(s, h) && s.kind == p.kind && s.limit == p.limit
  }

  ghost predicate AllFresh<K, V>(policies: seq<Policy>, h: History<K, V>, k: K, now: int) {
    forall i :: 0 <= i < |policies| ==> Fresh(policies[i].kind, policies[i].limit, h, k, now)
  }

  /** The keys the first `n` policies want gone. */
  ghost function Dooms<K, V>(policies: seq<Policy>, h: History<K, V>, now: int, n: nat): set<K>
    requires n <= |policies|
  {
    if n == 0 then {} else
      Dooms(policies, h, now, n - 1) + Doomed(policies[n - 1].kind, policies[n - 1].limit, h, now)
  }

  lemma {:induction false} DoomsCovers<K, V>(policies: seq<Policy>, h: History<K, V>, now: int, n: nat, i: nat)
    requires i < n <= |policies|
    ensures Doomed(policies[i].kind, policies[i].limit, h, now) <= Dooms(policies, h, now, n)
  {
    if i < n - 1 { DoomsCovers(policies, h, now, n - 1, i); }
  }

  // ---- The collection is what the policies say ----

  function Policies<K(==), V>(): Callbacks<seq<Strategy<K>>, K, V> {
    Collection(StrategyCallbacks<K, V>())
  }

  ghost predicate New<K>(ss: seq<Strategy<K>>, policies: seq<Policy>) {
    |ss| == |policies| && forall i :: 0 <= i < |ss| ==> Make(policies[i].kind, policies[i].limit) == Some(ss[i])
  }

  /** A collection of new strategies can be given to a cache. */
  lemma CanStart<K(!new), V(!new)>(ss: seq<Strategy<K>>, policies: seq<Policy>)
    requires New(ss, policies) && ss != []
    ensures Contract(Policies<K, V>(), CollectionView(StrategyView<K>()))
    ensures CollectionView(StrategyView<K>()).wf(ss) && CollectionView(StrategyView<K>()).keys(ss) == {}
  {
    StrategyMeetsContract<K, V>();
    CollectionMeetsContract(StrategyCallbacks<K, V>(), StrategyView<K>());
  }

  lemma NotifiedInStep<K, V>(ss: seq<Strategy<K>>, policies: seq<Policy>, h: History<K, V>, e: Event<K, V>)
    requires InStep(ss, policies, h) && Allowed(Replay(h), e)
    ensures InStep(Notified(Policies<K, V>(), ss, e), policies, Then(h, e))
  {
    var ss' := Notified(Policies<K, V>(), ss, e);
    forall i | 0 <= i < |ss'| ensures Follows(ss'[i], policies[i], Then(h, e)) {
      OnKeepsOk(ss[i], h, e);
      assert ss'[i] == On(ss[i], e);
    }
  }

  lemma {:induction false} AfterInStep<K, V>(ss: seq<Strategy<K>>, policies: seq<Policy>, h: History<K, V>)
    requires New(ss, policies) && Disciplined(h)
    ensures InStep(After(Policies<K, V>(), ss, h), policies, h)
  {
    if h.Then? {
      AfterInStep(ss, policies, h.past);
      NotifiedInStep(After(Policies<K, V>(), ss, h.past), policies, h.past, h.last);
    }
  }

  lemma ValidInStep<K, V>(ss: seq<Strategy<K>>, policies: seq<Policy>, h: History<K, V>, k: K, now: int)
    requires InStep(ss, policies, h)
    ensures Policies<K, V>().isValid(ss, k, now) <==> AllFresh(policies, h, k, now)
  {
    forall i | 0 <= i < |ss|
      ensures OnIsValid(ss[i], k, now) <==> Fresh(policies[i].kind, policies[i].limit, h, k, now)
    {
      ValidIsFresh(ss[i], h, k, now);
    }
  }

  lemma OneIsDoomed<K, V>(s: Strategy<K>, p: Policy, h: History<K, V>, now: int)
    requires Follows(s, p, h)
    ensures StrategyCallbacks<K, V>().onReplace(s, now) == Doomed(p.kind, p.limit, h, now)
  {
    ReplaceIsDoomed(s, h, now);
  }

  lemma {:induction false} UnionIsDooms<S, K, V>(c: Callbacks<S, K, V>, ss: seq<S>, policies: seq<Policy>,
    h: History<K, V>, now: int, n: nat)
    requires n <= |ss| == |policies|
    requires forall i :: 0 <= i < |ss| ==>
      c.onReplace(ss[i], now) == Doomed(policies[i].kind, policies[i].limit, h, now)
    ensures Union(c, ss, now, n) == Dooms(policies, h, now, n)
  {
    if n > 0 { UnionIsDooms(c, ss, policies, h, now, n - 1); }
  }

  /** After any history: which keys are valid, and which are to go. */
  lemma PoliciesDecide<K, V>(ss: seq<Strategy<K>>, policies: seq<Policy>, h: History<K, V>, now: int)
    requires New(ss, policies) && Disciplined(h)
    ensures forall k :: Policies<K, V>().isValid(After(Policies<K, V>(), ss, h), k, now) <==>
      AllFresh(policies, h, k, now)
    ensures Policies<K, V>().onReplace(After(Policies<K, V>(), ss, h), now) == Dooms(policies, h, now, |policies|)
  {
    var after := After(Policies<K, V>(), ss, h);
    AfterInStep(ss, policies, h);
    forall k ensures Policies<K, V>().isValid(after, k, now) <==> AllFresh(policies, h, k, now) {
      ValidInStep(after, policies, h, k, now);
    }
    forall i | 0 <= i < |after|
      ensures StrategyCallbacks<K, V>().onReplace(after[i], now) == Doomed(policies[i].kind, policies[i].limit, h, now)
    {
      OneIsDoomed(after[i], policies[i], h, now);
    }
    UnionIsDooms(StrategyCallbacks<K, V>(), after, policies, h, now, |after|);
  }

  // ---- What is left when they had their way ----

  lemma {:induction false} WithoutShrinks<K>(order: seq<K>, gone: set<K>)
    ensures |Without(order, gone)| <= |order|
  {
    if order != [] { WithoutShrinks(order[1..], gone); }
  }

  lemma LeftInOrder<K>(order: seq<K>, limit: nat, gone: set<K>)
    requires Distinct(order) && PastLimit(order, limit) <= gone
    ensures |Without(order, gone)| <= limit
  {
    if |order| > limit {
      var tail := PastLimit(order, limit);
      WithoutTail(order, limit, tail);
      WithoutTwice(order, tail, gone);
      assert tail + gone == gone;
      WithoutShrinks(order[..limit], gone);
    } else {
      WithoutShrinks(order, gone);
    }
  }

  lemma SizeInOrder<K, V>(h: History<K, V>)
    ensures |Replay(h)| == |Recency(h)|
  {
    RecencyKeys(h);
    DistinctSize(Recency(h));
    assert |Replay(h).Keys| == |Replay(h)|;
  }

  /** Once an LRU policy has had its way there are no more keys than it allows. */
  lemma DroppedToLimit<K, V>(limit: nat, h: History<K, V>, h': History<K, V>, gone: set<K>, now: int)
    requires Dropped(h, h', gone) && Doomed(Lru, limit, h, now) <= gone
    ensures |Replay(h')| <= limit
  {
    RecencyKeys(h);
    LeftInOrder(Recency(h), limit, gone);
    SizeInOrder(h');
  }

  /** Once an expiring policy has had its way every key left is fresh. */
  lemma DroppedLate<K, V>(p: Policy, h: History<K, V>, h': History<K, V>, gone: set<K>, now: int, k: K)
    requires p.kind != Lru && Dropped(h, h', gone) && Doomed(p.kind, p.limit, h, now) <= gone && k in Replay(h')
    ensures Fresh(p.kind, p.limit, h', k, now)
  {
    StampedKeys(h', p.kind == AccessExpire);
  }

  lemma OneDooms<K, V>(p: Policy, h: History<K, V>, now: int)
    ensures Dooms([p], h, now, 1) == Doomed(p.kind, p.limit, h, now)
  {
    assert Dooms([p], h, now, 0) == {};
    assert [p][0] == p;
  }

  /** Alone, an LRU policy keeps exactly the most recently used keys. */
  lemma MostRecentStay<K, V>(limit: nat, h: History<K, V>, h': History<K, V>, now: int)
    requires Dropped(h, h', Dooms([Policy(Lru, limit)], h, now, 1))
    ensures |Recency(h)| > limit ==> Recency(h') == Recency(h)[..limit]
    ensures |Recency(h)| <= limit ==> Recency(h') == Recency(h)
  {
    var order := Recency(h);
    OneDooms(Policy(Lru, limit), h, now);
    RecencyKeys(h);
    if |order| > limit {
      WithoutTail(order, limit, SetOf(order[limit..]));
    } else {
      WithoutNone(order, {});
    }
  }

  // ---- Reading an expired key ----

  lemma FreshAfterGet<K, V>(p: Policy, h: History<K, V>, k: K, t1: int, t2: int)
    ensures p.kind == AccessExpire ==>
      (Fresh(p.kind, p.limit, Then(h, Got(k, t1)), k, t2) <==> k in Replay(h) && t2 - t1 < p.limit)
    ensures p.kind != AccessExpire ==>
      (Fresh(p.kind, p.limit, Then(h, Got(k, t1)), k, t2) <==> Fresh(p.kind, p.limit, h, k, t2))
  {
    StampedKeys(h, true);
    StampedKeys(h, false);
  }

  /**
    In a cache with nothing but access expiry, whose clock does not move within a call, `get` returns every key that is
    present: the expired ones, which `has` denies, are stamped anew before anybody asks about them.
   */
  lemma ExpiredKeysReturn<K, V>(policies: seq<Policy>, h: History<K, V>, k: K, now: int)
    requires forall i :: 0 <= i < |policies| ==> policies[i].kind == AccessExpire && policies[i].limit > 0
    requires k in Replay(h)
    ensures AllFresh(policies, Then(h, Got(k, now)), k, now)
    ensures !AllFresh(policies, h, k, now) <==>
      exists i :: 0 <= i < |policies| && k in Doomed(policies[i].kind, policies[i].limit, h, now)
  {
    StampedKeys(h, true);
    forall i | 0 <= i < |policies| ensures Fresh(policies[i].kind, policies[i].limit, Then(h, Got(k, now)), k, now) {
      FreshAfterGet(policies[i], h, k, now, now);
    }
    forall i | 0 <= i < |policies|
      ensures Fresh(policies[i].kind, policies[i].limit, h, k, now) <==>
        k !in Doomed(policies[i].kind, policies[i].limit, h, now)
    {
    }
  }

  /** What holds once all policies had their way. */
  lemma Settled<K, V>(policies: seq<Policy>, h: History<K, V>, h': History<K, V>, now: int)
    requires Dropped(h, h', Dooms(policies, h, now, |policies|))
    ensures forall i :: 0 <= i < |policies| && policies[i].kind == Lru ==> |Replay(h')| <= policies[i].limit
    ensures forall k :: k in Replay(h') ==> AllFresh(policies, h', k, now)
  {
    var gone := Dooms(policies, h, now, |policies|);
    forall i | 0 <= i < |policies| && policies[i].kind == Lru ensures |Replay(h')| <= policies[i].limit {
      DoomsCovers(policies, h, now, |policies|, i);
      DroppedToLimit(policies[i].limit, h, h', gone, now);
    }
    forall k | k in Replay(h') ensures AllFresh(policies, h', k, now) {
      forall i | 0 <= i < |policies| ensures Fresh(policies[i].kind, policies[i].limit, h', k, now) {
        DoomsCovers(policies, h, now, |policies|, i);
        if policies[i].kind != Lru { DroppedLate(policies[i], h, h', gone, now, k); }
      }
    }
  }

  /** A cache over these strategies, once it has replaced: no LRU limit is exceeded, and every key left is valid. */
  lemma AfterReplacement<K, V>(ss: seq<Strategy<K>>, policies: seq<Policy>, h: History<K, V>, h': History<K, V>,
    now: int)
    requires New(ss, policies) && Disciplined(h)
    requires Dropped(h, h', Policies<K, V>().onReplace(After(Policies<K, V>(), ss, h), now))
    ensures forall i :: 0 <= i < |policies| && policies[i].kind == Lru ==> |Replay(h')| <= policies[i].limit
    ensures forall k :: k in Replay(h') ==> AllFresh(policies, h', k, now)
  {
    PoliciesDecide(ss, policies, h, now);
    Settled(policies, h, h', now);
  }
}
