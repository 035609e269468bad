/**
  What the notifications of a Poco cache say, read on their own: the plain map they build up, when each key was stamped
  last, and in which order the keys were used.  Nothing here knows how the cache or its strategies are built.
 */
module CacheHistory {

  /** A notification; those a strategy may time carry the clock reading. */
  datatype Event<K, V> =
    | Added(key: K, value: V, now: int)
    | Updated(key: K, value: V, now: int)
    | Removed(key: K)
    | Got(key: K, now: int)
    | Cleared

  datatype History<K, V> = Start | Then(past: History<K, V>, last: Event<K, V>)

  // ---- The plain map ----

  function Replay<K, V>(h: History<K, V>): map<K, V> {
    if h.Start? then map[] else
      var d := Replay(h.past);
      match h.last
      case Added(k, v, _) => d[k := v]
      case Updated(k, v, _) => d[k := v]
      case Removed(k) => d - {k}
      case Got(_, _) => d
      case Cleared => map[]
  }

  /** A key is added only when absent, and updated, read or removed only when present. */
  ghost predicate Allowed<K, V>(d: map<K, V>, e: Event<K, V>) {
    match e
    case Added(k, _, _) => k !in d
    case Updated(k, _, _) => k in d
    case Removed(k) => k in d
    case Got(k, _) => k in d
    case Cleared => true
  }

  ghost predicate Disciplined<K, V>(h: History<K, V>) {
    h.Then? ==> Disciplined(h.past) && Allowed(Replay(h.past), h.last)
  }

  function Events<K, V>(h: History<K, V>): seq<Event<K, V>> {
    if h.Start? then [] else Events(h.past) + [h.last]
  }

  ghost predicate Writes<K, V>(e: Event<K, V>, k: K, v: V) {
    (e.Added? || e.Updated?) && e.key == k && e.value == v
  }

  ghost predicate Touches<K, V>(e: Event<K, V>, k: K) {
    e.Cleared? || (!e.Got? && e.key == k)
  }

  /** Event `i` gave `k` the value `v`, and none since then wrote or removed `k` or cleared the cache. */
  ghost predicate LatestWrite<K, V>(es: seq<Event<K, V>>, i: int, k: K, v: V) {
    0 <= i < |es| && Writes(es[i], k, v) && forall j :: i < j < |es| ==> !Touches(es[j], k)
  }

  ghost predicate HasLatestWrite<K, V>(es: seq<Event<K, V>>, k: K, v: V) {
    exists i :: LatestWrite(es, i, k, v)
  }

  lemma LatestWriteOfMore<K, V>(es: seq<Event<K, V>>, e: Event<K, V>, k: K, v: V)
    ensures Touches(e, k) ==> (HasLatestWrite(es + [e], k, v) <==> Writes(e, k, v))
    ensures !Touches(e, k) ==> (HasLatestWrite(es + [e], k, v) <==> HasLatestWrite(es, k, v))
  {
    var more := es + [e];
    assert more[|es|] == e && forall j :: 0 <= j < |es| ==> more[j] == es[j];
    if Writes(e, k, v) { assert LatestWrite(more, |es|, k, v); }
    if !Touches(e, k) {
      if i :| LatestWrite(es, i, k, v) { assert LatestWrite(more, i, k, v); }
      if i :| LatestWrite(more, i, k, v) { assert LatestWrite(es, i, k, v); }
    }
  }

  lemma {:induction false} ReplayIsLatestWrite<K, V>(h: History<K, V>, k: K, v: V)
    ensures k in Replay(h) && Replay(h)[k] == v <==> HasLatestWrite(Events(h), k, v)
  {
    if h.Then? {
      ReplayIsLatestWrite(h.past, k, v);
      LatestWriteOfMore(Events(h.past), h.last, k, v);
    }
  }

  /** Add minus Remove notifications since the last Clear. */
  function Balance<K, V>(h: History<K, V>): int {
    if h.Start? then 0 else
      match h.last
      case Added(_, _, _) => Balance(h.past) + 1
      case Removed(_) => Balance(h.past) - 1
      case Cleared => 0
      case _ => Balance(h.past)
  }

  lemma {:induction false} BalanceIsSize<K, V>(h: History<K, V>)
    requires Disciplined(h)
    ensures Balance(h) == |Replay(h)|
  {
    if h.Then? {
      BalanceIsSize(h.past);
      var d := Replay(h.past);
      match h.last
      case Removed(k) => assert d == (d - {k})[k := d[k]];
      case Updated(k, v, _) => assert d[k := v].Keys == d.Keys; SameKeysSameSize(d, d[k := v]);
      case _ =>
    }
  }

  lemma SameKeysSameSize<K, V>(a: map<K, V>, b: map<K, V>)
    requires a.Keys == b.Keys
    ensures |a| == |b|
  {
    assert |a.Keys| == |a| && |b.Keys| == |b|;
  }

  // ---- When a key was stamped last ----

  /** The clock at the last Add or Update of each key or, where reading counts too, at its last Get. */
  function Stamps<K, V>(h: History<K, V>, access: bool): map<K, int> {
    if h.Start? then map[] else
      var s := Stamps(h.past, access);
      match h.last
      case Added(k, _, now) => s[k := now]
      case Updated(k, _, now) => s[k := now]
      case Removed(k) => s - {k}
      case Got(k, now) => if access && k in s then s[k := now] else s
      case Cleared => map[]
  }

  lemma {:induction false} StampedKeys<K, V>(h: History<K, V>, access: bool)
    ensures Stamps(h, access).Keys == Replay(h).Keys
  {
    if h.Then? { StampedKeys(h.past, access); }
  }

  // ---- In which order the keys were used ----

  function Without<K(==)>(order: seq<K>, gone: set<K>): seq<K> {
    if order == [] then [] else
      var rest := Without(order[1..], gone);
      if order[0] in gone then rest else [order[0]] + rest
  }

  function Recency<K(==), V>(h: History<K, V>): seq<K> {
    if h.Start? then [] else
      var o := Recency(h.past);
      match h.last
      case Added(k, _, _) => [k] + Without(o, {k})
      case Updated(k, _, _) => [k] + Without(o, {k})
      case Removed(k) => Without(o, {k})
      case Got(k, _) => if k in o then [k] + Without(o, {k}) else o
      case Cleared => []
  }

  function SetOf<K(==)>(order: seq<K>): set<K> {
    set k | k in order
  }

  lemma SetOfFront<K>(k: K, order: seq<K>)
    ensures SetOf([k] + order) == {k} + SetOf(order)
  {
  }

  lemma {:induction false} WithoutKeys<K>(order: seq<K>, gone: set<K>)
    ensures SetOf(Without(order, gone)) == SetOf(order) - gone
  {
    if order != [] {
      WithoutKeys(order[1..], gone);
      assert order == [order[0]] + order[1..];
      SetOfFront(order[0], order[1..]);
      SetOfFront(order[0], Without(order[1..], gone));
    }
  }

  ghost predicate Distinct<T>(s: seq<T>) {
    forall i, j :: 0 <= i < j < |s| ==> s[i] != s[j]
  }

  lemma {:induction false} WithoutDistinct<K>(order: seq<K>, gone: set<K>)
    requires Distinct(order)
    ensures Distinct(Without(order, gone))
  {
    if order != [] {
      WithoutDistinct(order[1..], gone);
      WithoutKeys(order[1..], gone);
      var rest := Without(order[1..], gone);
      forall j | 0 <= j < |rest| ensures rest[j] != order[0] { assert rest[j] in SetOf(rest); }
    }
  }

  lemma {:induction false} WithoutTwice<K>(order: seq<K>, some: set<K>, more: set<K>)
    ensures Without(Without(order, some), more) == Without(order, some + more)
  {
    if order != [] {
      WithoutTwice(order[1..], some, more);
      var rest := Without(order[1..], some);
      assert ([order[0]] + rest)[1..] == rest;
    }
  }

  lemma {:induction false} WithoutNone<K>(order: seq<K>, gone: set<K>)
    requires forall k :: k in order ==> k !in gone
    ensures Without(order, gone) == order
  {
    if order != [] {
      WithoutNone(order[1..], gone);
      assert order == [order[0]] + order[1..];
    }
  }

  /** Every key is in the order once. */
  lemma {:induction false} RecencyKeys<K, V>(h: History<K, V>)
    ensures Distinct(Recency(h)) && SetOf(Recency(h)) == Replay(h).Keys
  {
    if h.Then? {
      RecencyKeys(h.past);
      if !h.last.Cleared? {
        var o, k := Recency(h.past), h.last.key;
        WithoutDistinct(o, {k});
        WithoutKeys(o, {k});
        SetOfFront(k, Without(o, {k}));
        MovedToFront(o, k);
      }
    }
  }

  lemma MovedToFront<K>(order: seq<K>, k: K)
    requires Distinct(order)
    ensures Distinct([k] + Without(order, {k}))
  {
    var rest := Without(order, {k});
    WithoutDistinct(order, {k});
    WithoutKeys(order, {k});
    forall j | 0 <= j < |rest| ensures rest[j] != k { assert rest[j] in SetOf(rest); }
  }

  lemma {:induction false} DistinctSize<K>(order: seq<K>)
    requires Distinct(order)
    ensures |SetOf(order)| == |order|
  {
    if order != [] {
      DistinctSize(order[1..]);
      assert order == [order[0]] + order[1..];
      SetOfFront(order[0], order[1..]);
    }
  }

  /** Dropping the keys past the first `n` of a duplicate-free order leaves the first `n`. */
  lemma {:induction false} WithoutTail<K>(order: seq<K>, n: nat, tail: set<K>)
    requires n <= |order| && Distinct(order) && tail == SetOf(order[n..])
    ensures Without(order, tail) == order[..n]
  {
    if n == 0 {
      AllGone(order, tail);
    } else {
      assert order[1..][n - 1..] == order[n..];
      WithoutTail(order[1..], n - 1, tail);
      assert order[0] !in order[n..];
      assert order[..n] == [order[0]] + order[1..][..n - 1];
    }
  }

  lemma {:induction false} AllGone<K>(order: seq<K>, gone: set<K>)
    requires forall k :: k in order ==> k in gone
    ensures Without(order, gone) == []
  {
    if order != [] { AllGone(order[1..], gone); }
  }

  // ---- What removing a set of keys does ----

  /** `h'` is `h` followed by Remove notifications of keys in `gone` alone. */
  ghost predicate OnlyRemoved<K, V>(h: History<K, V>, h': History<K, V>, gone: set<K>) {
    h' == h || (h'.Then? && h'.last.Removed? && h'.last.key in gone && OnlyRemoved(h, h'.past, gone))
  }

  lemma {:induction false} OnlyRemovedMore<K, V>(h: History<K, V>, h': History<K, V>, gone: set<K>, k: K)
    requires OnlyRemoved(h, h', gone)
    ensures OnlyRemoved(h, h', gone + {k})
  {
    if h' != h { OnlyRemovedMore(h, h'.past, gone, k); }
  }

  /** After `h` the keys in `gone` were removed and nothing else happened. */
  ghost predicate Dropped<K, V>(h: History<K, V>, h': History<K, V>, gone: set<K>) {
    && OnlyRemoved(h, h', gone)
    && Disciplined(h') && Replay(h') == Replay(h) - gone && Recency(h') == Without(Recency(h), gone)
    && (forall access :: Stamps(h', access) == Stamps(h, access) - gone)
  }

  lemma NothingDropped<K, V>(h: History<K, V>)
    requires Disciplined(h)
    ensures Dropped(h, h, {})
  {
    WithoutNone(Recency(h), {});
  }

  lemma WithoutAbsent<K>(order: seq<K>, left: seq<K>, gone: set<K>, k: K)
    requires left == Without(order, gone) && k !in SetOf(left)
    ensures Without(order, gone + {k}) == left
  {
    WithoutNone(left, {k});
    WithoutTwice(order, gone, {k});
  }

  lemma MinusAbsent<K, V>(m: map<K, V>, left: map<K, V>, gone: set<K>, k: K)
    requires left == m - gone && k !in left
    ensures left == m - (gone + {k})
  {
  }

  /** A key that is not there is not missed. */
  lemma DroppedAbsent<K, V>(h: History<K, V>, h': History<K, V>, gone: set<K>, k: K)
    requires Dropped(h, h', gone) && k !in Replay(h')
    ensures Dropped(h, h', gone + {k})
  {
    OnlyRemovedMore(h, h', gone, k);
    RecencyKeys(h');
    WithoutAbsent(Recency(h), Recency(h'), gone, k);
    MinusAbsent(Replay(h), Replay(h'), gone, k);
    forall access ensures Stamps(h', access) == Stamps(h, access) - (gone + {k}) {
      StampedKeys(h', access);
      MinusAbsent(Stamps(h, access), Stamps(h', access), gone, k);
    }
  }

  lemma DroppedMore<K, V>(h: History<K, V>, h': History<K, V>, gone: set<K>, k: K)
    requires Dropped(h, h', gone) && k in Replay(h')
    ensures Dropped(h, Then(h', Removed(k)), gone + {k})
  {
    OnlyRemovedMore(h, h', gone, k);
    WithoutTwice(Recency(h), gone, {k});
    assert Replay(h) - gone - {k} == Replay(h) - (gone + {k});
    forall access ensures Stamps(h, access) - gone - {k} == Stamps(h, access) - (gone + {k}) { }
  }

  /** One more key, there or not. */
  lemma DroppedNext<K, V>(h: History<K, V>, h': History<K, V>, gone: set<K>, k: K, next: History<K, V>)
    requires Dropped(h, h', gone) && next == if k in Replay(h') then Then(h', Removed(k)) else h'
    ensures Dropped(h, next, gone + {k})
  {
    if k in Replay(h') { DroppedMore(h, h', gone, k); } else { DroppedAbsent(h, h', gone, k); }
  }
}
