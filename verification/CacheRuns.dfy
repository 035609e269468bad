/**
  Whole runs: any sequence of calls on a cache, step by step in the notifications sent, against the plain map of the
  calls alone.
 */
module CacheRuns {
  import opened Options
  import opened CacheHistory
  import opened CacheContract
  import opened CacheStrategies
  import opened CachePolicies
  import opened Cache

  /** A call, with the clock readings it makes. */
  datatype Call<K, V> =
    | CallAdd(key: K, value: V, now: int, later: int)
    | CallUpdate(key: K, value: V, now: int, later: int)
    | CallRemove(key: K)
    | CallGet(key: K, now: int, later: int)
    | CallClear
    | CallReplace(now: int)

  // ---- A plain map ----

  /** What a call does to a map that never loses anything by itself. */
  function Plain<K, V>(d: map<K, V>, call: Call<K, V>): map<K, V> {
    match call
    case CallAdd(k, v, _, _) => d[k := v]
    case CallUpdate(k, v, _, _) => d[k := v]
    case CallRemove(k) => d - {k}
    case CallGet(_, _, _) => d
    case CallClear => map[]
    case CallReplace(_) => d
  }

  /** The plain map after the first `n` calls. */
  function PlainAfter<K, V>(d: map<K, V>, calls: seq<Call<K, V>>, n: nat): map<K, V>
    requires n <= |calls|
  {
    if n == 0 then d else Plain(PlainAfter(d, calls, n - 1), calls[n - 1])
  }

  ghost predicate PartOf<K, V>(d: map<K, V>, plain: map<K, V>) {
    forall k :: k in d ==> k in plain && plain[k] == d[k]
  }

  // ---- One call ----

  /** From which notifications to which a call leads, and what it answers. */
  ghost predicate Goes<S, K, V>(c: Callbacks<S, K, V>, start: S, call: Call<K, V>, h: History<K, V>, h': History<K, V>,
    answer: Option<V>)
  {
    match call
    case CallAdd(k, v, now, later) =>
      var g := Adding(h, k, v, now);
      answer.None? && Dropped(g, h', Unwanted(c, start, g, later))
    case CallUpdate(k, v, now, later) =>
      var g := Updating(h, k, v, now);
      answer.None? && Dropped(g, h', Unwanted(c, start, g, later))
    case CallRemove(k) => answer.None? && h' == if k in Replay(h) then Then(h, Removed(k)) else h
    case CallGet(k, now, later) =>
      var g := Then(h, Got(k, now));
      if k !in Replay(h) then answer.None? && h' == h
      else if c.isValid(After(c, start, g), k, later) then answer == Some(Replay(h)[k]) && h' == g
      else answer.None? && h' == Then(g, Removed(k))
    case CallClear => answer.None? && h' == Then(h, Cleared)
    case CallReplace(now) => answer.None? && Dropped(h, h', Unwanted(c, start, h, now))
  }

  /** The keys that the strategy, not the caller, takes away with a call. */
  ghost function Evicted<S, K, V>(c: Callbacks<S, K, V>, start: S, call: Call<K, V>, h: History<K, V>): set<K> {
    match call
    case CallAdd(k, v, now, later) => Unwanted(c, start, Adding(h, k, v, now), later)
    case CallUpdate(k, v, now, later) => Unwanted(c, start, Updating(h, k, v, now), later)
    case CallGet(k, now, later) => if c.isValid(After(c, start, Then(h, Got(k, now))), k, later) then {} else {k}
    case CallReplace(now) => Unwanted(c, start, h, now)
    case _ => {}
  }

  /** A call does to the cache what it does to a plain map, less what the strategy takes away. */
  lemma GoesExactly<S, K, V>(c: Callbacks<S, K, V>, start: S, call: Call<K, V>, h: History<K, V>, h': History<K, V>,
    answer: Option<V>)
    requires Goes(c, start, call, h, h', answer) && Disciplined(h)
    ensures Disciplined(h') && Replay(h') == Plain(Replay(h), call) - Evicted(c, start, call, h)
  {
    match call
    case CallAdd(k, v, now, _) => assert Replay(Adding(h, k, v, now)) == Replay(h)[k := v];
    case CallUpdate(k, v, now, _) => assert Replay(Updating(h, k, v, now)) == Replay(h)[k := v];
    case CallRemove(k) => assert k !in Replay(h) ==> Replay(h) - {k} == Replay(h);
    case CallGet(k, _, _) => assert k !in Replay(h) ==> Replay(h) - {k} == Replay(h);
    case CallClear =>
    case CallReplace(_) =>
  }

  method Perform<S(!new), K(==, !new), V(!new)>(c: Cache<S, K, V>, call: Call<K, V>) returns (answer: Option<V>)
    requires c.Valid()
    modifies c
    ensures c.Valid() && Goes(c.callbacks, c.start, call, old(c.log), c.log, answer)
  {
    answer := None;
    match call
    case CallAdd(k, v, now, later) => c.Add(k, v, now, later);
    case CallUpdate(k, v, now, later) => c.Update(k, v, now, later);
    case CallRemove(k) => c.Remove(k);
    case CallGet(k, now, later) => answer := c.Get(k, now, later);
    case CallClear => c.Clear();
    case CallReplace(now) => c.ForceReplace(now);
  }

  // ---- Runs ----

  /** The notifications sent before each call and after the last, and the answers of the calls. */
  ghost predicate IsRun<S, K, V>(c: Callbacks<S, K, V>, start: S, calls: seq<Call<K, V>>, hs: seq<History<K, V>>,
    answers: seq<Option<V>>)
  {
    && |hs| == |calls| + 1 && |answers| == |calls| && Disciplined(hs[0])
    && forall i :: 0 <= i < |calls| ==> Goes(c, start, calls[i], hs[i], hs[i + 1], answers[i])
  }

  lemma {:induction false} RunIsDisciplined<S, K, V>(c: Callbacks<S, K, V>, start: S, calls: seq<Call<K, V>>,
    hs: seq<History<K, V>>, answers: seq<Option<V>>, n: nat)
    requires IsRun(c, start, calls, hs, answers) && n <= |calls|
    ensures Disciplined(hs[n])
  {
    if n > 0 {
      RunIsDisciplined(c, start, calls, hs, answers, n - 1);
      GoesExactly(c, start, calls[n - 1], hs[n - 1], hs[n], answers[n - 1]);
    }
  }

  /** After every run the cache is part of the plain map of the calls. */
  lemma {:induction false} RunIsWithinPlain<S, K, V>(c: Callbacks<S, K, V>, start: S, calls: seq<Call<K, V>>,
    hs: seq<History<K, V>>, answers: seq<Option<V>>, n: nat)
    requires IsRun(c, start, calls, hs, answers) && n <= |calls|
    ensures PartOf(Replay(hs[n]), PlainAfter(Replay(hs[0]), calls, n))
  {
    if n > 0 {
      RunIsWithinPlain(c, start, calls, hs, answers, n - 1);
      RunIsDisciplined(c, start, calls, hs, answers, n - 1);
      GoesExactly(c, start, calls[n - 1], hs[n - 1], hs[n], answers[n - 1]);
    }
  }

  predicate Rewrites<K(==), V>(call: Call<K, V>, k: K) {
    (call.CallAdd? || call.CallUpdate?) && call.key == k
  }

  /** The strategy has taken `k` away and no call has written it since. */
  ghost predicate Lost<S, K, V>(c: Callbacks<S, K, V>, start: S, calls: seq<Call<K, V>>, hs: seq<History<K, V>>, k: K,
    n: nat)
    requires n <= |calls| < |hs|
  {
    exists i :: LostAt(c, start, calls, hs, k, n, i)
  }

  ghost predicate LostAt<S, K, V>(c: Callbacks<S, K, V>, start: S, calls: seq<Call<K, V>>, hs: seq<History<K, V>>, k: K,
    n: nat, i: int)
    requires n <= |calls| < |hs|
  {
    0 <= i < n && k in Evicted(c, start, calls[i], hs[i]) && forall j :: i < j < n ==> !Rewrites(calls[j], k)
  }

  lemma LostNext<S, K, V>(c: Callbacks<S, K, V>, start: S, calls: seq<Call<K, V>>, hs: seq<History<K, V>>, k: K, n: nat,
    next: nat)
    requires n < |calls| < |hs| && next == n + 1
    ensures Lost(c, start, calls, hs, k, next) <==>
      || k in Evicted(c, start, calls[n], hs[n])
      || (!Rewrites(calls[n], k) && Lost(c, start, calls, hs, k, n))
  {
    if k in Evicted(c, start, calls[n], hs[n]) {
      assert LostAt(c, start, calls, hs, k, next, n);
    }
    if i :| LostAt(c, start, calls, hs, k, n, i) {
      assert !Rewrites(calls[n], k) ==> LostAt(c, start, calls, hs, k, next, i);
    }
    if i :| LostAt(c, start, calls, hs, k, next, i) {
      assert i < n ==> LostAt(c, start, calls, hs, k, n, i);
    }
  }

  /** A key of the plain map is in the cache unless it is lost. */
  lemma {:induction false} RunMissesLost<S, K, V>(c: Callbacks<S, K, V>, start: S, calls: seq<Call<K, V>>,
    hs: seq<History<K, V>>, answers: seq<Option<V>>, k: K, n: nat)
    requires IsRun(c, start, calls, hs, answers) && n <= |calls|
    ensures k in Replay(hs[n]) <==> k in PlainAfter(Replay(hs[0]), calls, n) && !Lost(c, start, calls, hs, k, n)
  {
    if n > 0 {
      RunMissesLost(c, start, calls, hs, answers, k, n - 1);
      RunIsDisciplined(c, start, calls, hs, answers, n - 1);
      GoesExactly(c, start, calls[n - 1], hs[n - 1], hs[n], answers[n - 1]);
      LostNext(c, start, calls, hs, k, n - 1, n);
    }
  }

  /** The answer of a get is the plain map's, or nothing; and nothing exactly when the key is missing or lost. */
  lemma AnswersArePlain<S, K, V>(c: Callbacks<S, K, V>, start: S, calls: seq<Call<K, V>>, hs: seq<History<K, V>>,
    answers: seq<Option<V>>, i: nat)
    requires IsRun(c, start, calls, hs, answers) && i < |calls|
    ensures answers[i].Some? ==> calls[i].CallGet?
    ensures answers[i].Some? ==>
      var plain := PlainAfter(Replay(hs[0]), calls, i); calls[i].key in plain && answers[i].value == plain[calls[i].key]
    ensures calls[i].CallGet? ==>
      (answers[i].Some? <==>
        && calls[i].key in PlainAfter(Replay(hs[0]), calls, i)
        && !Lost(c, start, calls, hs, calls[i].key, i)
        && calls[i].key !in Evicted(c, start, calls[i], hs[i]))
  {
    assert Goes(c, start, calls[i], hs[i], hs[i + 1], answers[i]);
    RunIsWithinPlain(c, start, calls, hs, answers, i);
    if calls[i].CallGet? { RunMissesLost(c, start, calls, hs, answers, calls[i].key, i); }
  }

  /** `h'` goes on from `h`. */
  ghost predicate Extends<K, V>(h: History<K, V>, h': History<K, V>) {
    h' == h || (h'.Then? && Extends(h, h'.past))
  }

  lemma {:induction false} RemovedExtends<K, V>(h: History<K, V>, g: History<K, V>, h': History<K, V>, gone: set<K>)
    requires Extends(h, g) && OnlyRemoved(g, h', gone)
    ensures Extends(h, h')
  {
    if h' != g { RemovedExtends(h, g, h'.past, gone); }
  }

  lemma {:induction false} ExtendsFurther<K, V>(h: History<K, V>, g: History<K, V>, h': History<K, V>)
    requires Extends(h, g) && Extends(g, h')
    ensures Extends(h, h')
  {
    if h' != g { ExtendsFurther(h, g, h'.past); }
  }

  lemma GoesOn<S, K, V>(c: Callbacks<S, K, V>, start: S, call: Call<K, V>, h: History<K, V>, h': History<K, V>,
    answer: Option<V>)
    requires Goes(c, start, call, h, h', answer)
    ensures Extends(h, h')
  {
    match call
    case CallAdd(k, v, now, later) =>
      var g := Adding(h, k, v, now);
      assert Extends(h, g.past) && Extends(h, g);
      RemovedExtends(h, g, h', Unwanted(c, start, g, later));
    case CallUpdate(k, v, now, later) =>
      var g := Updating(h, k, v, now);
      assert Extends(h, g);
      RemovedExtends(h, g, h', Unwanted(c, start, g, later));
    case CallRemove(k) => assert Extends(h, h);
    case CallGet(k, now, _) => assert Extends(h, h) && Extends(h, Then(h, Got(k, now)));
    case CallClear => assert Extends(h, h);
    case CallReplace(now) => RemovedExtends(h, h, h', Unwanted(c, start, h, now));
  }

  /** The notifications of a run go on from those before it. */
  lemma {:induction false} RunGoesOn<S, K, V>(c: Callbacks<S, K, V>, start: S, calls: seq<Call<K, V>>,
    hs: seq<History<K, V>>, answers: seq<Option<V>>, n: nat)
    requires IsRun(c, start, calls, hs, answers) && n <= |calls|
    ensures Extends(hs[0], hs[n])
  {
    if n > 0 {
      RunGoesOn(c, start, calls, hs, answers, n - 1);
      GoesOn(c, start, calls[n - 1], hs[n - 1], hs[n], answers[n - 1]);
      ExtendsFurther(hs[0], hs[n - 1], hs[n]);
    }
  }

  /** Among them, Adds minus Removes since the last Clear are the size. */
  lemma RunBalances<S, K, V>(c: Callbacks<S, K, V>, start: S, calls: seq<Call<K, V>>, hs: seq<History<K, V>>,
    answers: seq<Option<V>>, n: nat)
    requires IsRun(c, start, calls, hs, answers) && n <= |calls|
    ensures Balance(hs[n]) == |Replay(hs[n])|
  {
    RunIsDisciplined(c, start, calls, hs, answers, n);
    BalanceIsSize(hs[n]);
  }

  /** Every sequence of calls is such a run, on a cache over any strategy. */
  method Run<S(!new), K(==, !new), V(!new)>(c: Cache<S, K, V>, calls: seq<Call<K, V>>)
    returns (answers: seq<Option<V>>, ghost hs: seq<History<K, V>>)
    requires c.Valid()
    modifies c
    ensures c.Valid() && IsRun(c.callbacks, c.start, calls, hs, answers)
    ensures hs[0] == old(c.log) && hs[|calls|] == c.log
    // What that means for the caller.
    ensures PartOf(c.data, PlainAfter(old(c.data), calls, |calls|)) && Balance(c.log) == |c.data|
    ensures forall i :: 0 <= i < |calls| && answers[i].Some? ==>
      && calls[i].CallGet? && calls[i].key in PlainAfter(old(c.data), calls, i)
      && answers[i].value == PlainAfter(old(c.data), calls, i)[calls[i].key]
    ensures c.Lawful() ==> c.view.keys(c.strategy) == c.data.Keys
  {
    answers, hs := [], [c.log];
    for n := 0 to |calls|
      invariant c.Valid() && |hs| == n + 1 && |answers| == n && hs[0] == old(c.log) && hs[n] == c.log
      invariant forall i :: 0 <= i < n ==> Goes(c.callbacks, c.start, calls[i], hs[i], hs[i + 1], answers[i])
    {
      var answer := Perform(c, calls[n]);
      answers, hs := answers + [answer], hs + [c.log];
    }
    RunIsWithinPlain(c.callbacks, c.start, calls, hs, answers, |calls|);
    RunBalances(c.callbacks, c.start, calls, hs, answers, |calls|);
    forall i | 0 <= i < |calls| && answers[i].Some?
      ensures calls[i].CallGet? && calls[i].key in PlainAfter(old(c.data), calls, i)
      ensures answers[i].value == PlainAfter(old(c.data), calls, i)[calls[i].key]
    {
      AnswersArePlain(c.callbacks, c.start, calls, hs, answers, i);
    }
  }

  // ---- Collections of the three strategies ----

  ghost predicate Within(policies: seq<Policy>, n: nat) {
    forall i :: 0 <= i < |policies| && policies[i].kind == Lru ==> n <= policies[i].limit
  }

  lemma SmallerWithin<K, V>(policies: seq<Policy>, d: map<K, V>, gone: set<K>)
    requires Within(policies, |d|)
    ensures Within(policies, |d - gone|)
  {
    SubsetSize((d - gone).Keys, d.Keys);
    assert |(d - gone).Keys| == |d - gone| && |d.Keys| == |d|;
  }

  lemma RemovesWithin<S, K, V>(c: Callbacks<S, K, V>, start: S, policies: seq<Policy>, call: Call<K, V>,
    h: History<K, V>, h': History<K, V>, answer: Option<V>)
    requires Disciplined(h) && Within(policies, |Replay(h)|) && Goes(c, start, call, h, h', answer) && call.CallRemove?
    ensures Within(policies, |Replay(h')|)
  {
    GoesExactly(c, start, call, h, h', answer);
    SmallerWithin(policies, Replay(h), {call.key});
    assert Plain(Replay(h), call) - Evicted(c, start, call, h) == Replay(h) - {call.key};
  }

  /** A call that ends without a replacement adds no key. */
  lemma ShrinksWithin<S, K, V>(c: Callbacks<S, K, V>, start: S, policies: seq<Policy>, call: Call<K, V>,
    h: History<K, V>, h': History<K, V>, answer: Option<V>)
    requires Disciplined(h) && Within(policies, |Replay(h)|) && Goes(c, start, call, h, h', answer)
    requires call.CallRemove? || call.CallGet? || call.CallClear?
    ensures Within(policies, |Replay(h')|)
  {
    if call.CallRemove? {
      RemovesWithin(c, start, policies, call, h, h', answer);
    } else {
      GoesExactly(c, start, call, h, h', answer);
      if call.CallGet? { SmallerWithin(policies, Replay(h), Evicted(c, start, call, h)); }
    }
  }

  lemma ReplacedWithin<K, V>(ss: seq<Strategy<K>>, policies: seq<Policy>, g: History<K, V>, h': History<K, V>, now: int)
    requires New(ss, policies) && Disciplined(g) && Dropped(g, h', Unwanted(Policies<K, V>(), ss, g, now))
    ensures Within(policies, |Replay(h')|)
  {
    AfterReplacement(ss, policies, g, h', now);
  }

  lemma GoesWithin<K, V>(ss: seq<Strategy<K>>, policies: seq<Policy>, call: Call<K, V>, h: History<K, V>,
    h': History<K, V>, answer: Option<V>)
    requires New(ss, policies) && Disciplined(h) && Within(policies, |Replay(h)|)
    requires Goes(Policies<K, V>(), ss, call, h, h', answer)
    ensures Within(policies, |Replay(h')|)
  {
    match call
    case CallAdd(k, v, now, later) => ReplacedWithin(ss, policies, Adding(h, k, v, now), h', later);
    case CallUpdate(k, v, now, later) => ReplacedWithin(ss, policies, Updating(h, k, v, now), h', later);
    case CallReplace(now) => ReplacedWithin(ss, policies, h, h', now);
    case _ => ShrinksWithin(Policies<K, V>(), ss, policies, call, h, h', answer);
  }

  lemma RunGoes<S, K, V>(c: Callbacks<S, K, V>, start: S, calls: seq<Call<K, V>>, hs: seq<History<K, V>>,
    answers: seq<Option<V>>, n: nat)
    requires IsRun(c, start, calls, hs, answers) && n < |calls|
    ensures Disciplined(hs[n]) && Goes(c, start, calls[n], hs[n], hs[n + 1], answers[n])
  {
    RunIsDisciplined(c, start, calls, hs, answers, n);
  }

  lemma {:induction false} RunKeepsWithin<K, V>(ss: seq<Strategy<K>>, policies: seq<Policy>, calls: seq<Call<K, V>>,
    hs: seq<History<K, V>>, answers: seq<Option<V>>, n: nat)
    requires New(ss, policies) && IsRun(Policies<K, V>(), ss, calls, hs, answers) && hs[0] == Start && n <= |calls|
    ensures Within(policies, |Replay(hs[n])|)
  {
    if n > 0 {
      var m := n - 1;
      RunKeepsWithin(ss, policies, calls, hs, answers, m);
      RunGoes(Policies<K, V>(), ss, calls, hs, answers, m);
      GoesWithin(ss, policies, calls[m], hs[m], hs[n], answers[m]);
    }
  }

  /** In every run from the empty cache each strategy reflects the notifications, and no LRU limit is exceeded. */
  lemma RunStaysWithin<K, V>(ss: seq<Strategy<K>>, policies: seq<Policy>, calls: seq<Call<K, V>>,
    hs: seq<History<K, V>>, answers: seq<Option<V>>, n: nat)
    requires New(ss, policies) && IsRun(Policies<K, V>(), ss, calls, hs, answers) && hs[0] == Start && n <= |calls|
    ensures InStep(After(Policies<K, V>(), ss, hs[n]), policies, hs[n]) && Within(policies, |Replay(hs[n])|)
  {
    RunIsDisciplined(Policies<K, V>(), ss, calls, hs, answers, n);
    AfterInStep(ss, policies, hs[n]);
    RunKeepsWithin(ss, policies, calls, hs, answers, n);
  }

  /** Every sequence of calls on a new cache over these strategies. */
  method RunPolicies<K(==, !new), V(!new)>(ss: seq<Strategy<K>>, ghost policies: seq<Policy>, calls: seq<Call<K, V>>)
    returns (c: Cache<seq<Strategy<K>>, K, V>, answers: seq<Option<V>>, ghost hs: seq<History<K, V>>)
    requires New(ss, policies)
    ensures c.Valid() && IsRun(Policies<K, V>(), ss, calls, hs, answers) && hs[0] == Start && hs[|calls|] == c.log
    ensures InStep(c.strategy, policies, c.log) && Within(policies, |c.data|)
    ensures PartOf(c.data, PlainAfter(map[], calls, |calls|)) && Balance(c.log) == |c.data|
    ensures forall i :: 0 <= i < |calls| && answers[i].Some? ==>
      && calls[i].CallGet? && calls[i].key in PlainAfter(map[], calls, i)
      && answers[i].value == PlainAfter(map[], calls, i)[calls[i].key]
    ensures ss != [] ==> c.Lawful()
  {
    if ss != [] { CanStart<K, V>(ss, policies); }
    c := new Cache(Policies<K, V>(), ss, CollectionView(StrategyView<K>()));
    answers, hs := Run(c, calls);
    RunStaysWithin(ss, policies, calls, hs, answers, |calls|);
  }

  // ---- An expired key ----

  /** The history of one key added at 0: nothing to replace then, expired at `limit`, and fresh once it is read. */
  lemma AgeOfOne<K, V>(p: Policy, policies: seq<Policy>, k: K, v: V, h: History<K, V>)
    requires p.kind == AccessExpire && p.limit > 0 && policies == [p] && h == Then(Start, Added(k, v, 0))
    ensures Dooms(policies, h, 0, 1) == {}
    ensures !AllFresh(policies, h, k, p.limit) && AllFresh(policies, Then(h, Got(k, p.limit)), k, p.limit)
  {
    OneDooms(p, h, 0);
    assert Stamps(h, true) == map[k := 0];
    assert !Fresh(policies[0].kind, policies[0].limit, h, k, p.limit);
    FreshAfterGet(p, h, k, p.limit, p.limit);
  }

  /** A key added at 0 has expired at `limit`: `has` denies it, and `get` returns it. */
  method ExpiredYetReturned<K(==, !new), V(!new)>(k: K, v: V, limit: nat) returns (had: bool, got: Option<V>)
    requires limit >= SHORTEST
    ensures !had && got == Some(v)
  {
    var s: Strategy<K> := Make(AccessExpire, limit).value;
    ghost var policies := [Policy(AccessExpire, limit)];
    var c := new Cache(Policies<K, V>(), [s], CollectionView(StrategyView<K>()));
    ghost var h: History<K, V> := Then(Start, Added(k, v, 0));
    c.Add(k, v, 0, 0);
    AgeOfOne(Policy(AccessExpire, limit), policies, k, v, h);
    PoliciesDecide([s], policies, h, 0);
    assert c.log == h;
    PoliciesDecide([s], policies, h, limit);
    had := c.Has(k, limit);
    PoliciesDecide([s], policies, Then(h, Got(k, limit)), limit);
    got := c.Get(k, limit, limit);
  }
}
