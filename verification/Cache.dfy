/**
  Poco's `AbstractCache` over any strategy.  Every operation keeps the cache equal to the plain map its notifications
  describe and, if the strategy meets its contract, the strategy's keys equal to the cache's.
 */
module Cache {
  import opened Options
  import opened CacheHistory
  import opened CacheContract

  /** What the strategy wants gone after a history. */
  ghost function Unwanted<S, K, V>(c: Callbacks<S, K, V>, start: S, h: History<K, V>, now: int): set<K> {
    c.onReplace(After(c, start, h), now)
  }

  /** The notifications of `add`: an old entry goes first. */
  ghost function Adding<K, V>(h: History<K, V>, k: K, v: V, now: int): History<K, V> {
    Then(if k in Replay(h) then Then(h, Removed(k)) else h, Added(k, v, now))
  }

  ghost function Updating<K, V>(h: History<K, V>, k: K, v: V, now: int): History<K, V> {
    Then(h, if k in Replay(h) then Updated(k, v, now) else Added(k, v, now))
  }

  lemma Smaller<K, V>(d: map<K, V>, k: K)
    ensures |d - {k}| <= |d|
  {
    assert (d - {k}).Keys <= d.Keys;
    SubsetSize((d - {k}).Keys, d.Keys);
    assert |(d - {k}).Keys| == |d - {k}| && |d.Keys| == |d|;
  }

  lemma {:induction false} SubsetSize<T>(a: set<T>, b: set<T>)
    requires a <= b
    ensures |a| <= |b|
  {
    if a != {} {
      var x :| x in a;
      SubsetSize(a - {x}, b - {x});
    }
  }

  class Cache<S(!new), K(==, !new), V(!new)> {
    const callbacks: Callbacks<S, K, V>
    ghost const view: View<S, K>
    ghost const start: S
    var strategy: S
    var data: map<K, V>
    ghost var log: History<K, V>

    /** The strategy meets its contract, and starts without keys. */
    ghost predicate Lawful() {
      Contract(callbacks, view) && view.wf(start) && view.keys(start) == {}
    }

    /** The strategy is where its notifications have led it. */
    ghost predicate Informed()
      reads this
    {
      Disciplined(log) && strategy == After(callbacks, start, log) && (Lawful() ==> Agrees(view, strategy, Replay(log)))
    }

    ghost predicate Valid()
      reads this
    {
      Informed() && data == Replay(log)
    }

    constructor (c: Callbacks<S, K, V>, s: S, ghost w: View<S, K>)
      ensures Valid() && data == map[] && log == Start && callbacks == c && view == w && start == s
    {
      callbacks, view, start, strategy, data, log := c, w, s, s, map[], Start;
    }

    method Notify(e: Event<K, V>)
      requires Informed() && Allowed(Replay(log), e)
      modifies this`strategy, this`log
      ensures Informed() && log == Then(old(log), e)
    {
      strategy, log := Notified(callbacks, strategy, e), Then(log, e);
      if Lawful() { KeysAgree(callbacks, view, start, log); }
    }

    method DoRemove(k: K)
      requires Valid()
      modifies this`strategy, this`log, this`data
      ensures Valid() && data == old(data) - {k}
      ensures log == if k in old(data) then Then(old(log), Removed(k)) else old(log)
    {
      if k in data {
        Notify(Removed(k));
        data := data - {k};
      }
    }

    /** The keys the strategy names go one by one; names the cache does not know are ignored. */
    method DoReplace(now: int)
      requires Valid()
      modifies this`strategy, this`log, this`data
      ensures Valid() && Dropped(old(log), log, Unwanted(callbacks, start, old(log), now))
    {
      var todo := callbacks.onReplace(strategy, now);
      ghost var gone := {};
      NothingDropped(log);
      while todo != {}
        invariant Valid() && gone + todo == Unwanted(callbacks, start, old(log), now) && Dropped(old(log), log, gone)
        decreases |todo|
      {
        var k :| k in todo;
        ghost var before := log;
        DoRemove(k);
        DroppedNext(old(log), before, gone, k, log);
        todo, gone := todo - {k}, gone + {k};
      }
    }

    method ForceReplace(now: int)
      requires Valid()
      modifies this`strategy, this`log, this`data
      ensures Valid() && Dropped(old(log), log, Unwanted(callbacks, start, old(log), now))
    {
      DoReplace(now);
    }

    method Add(k: K, v: V, now: int, later: int)
      requires Valid()
      modifies this`strategy, this`log, this`data
      ensures Valid()
      ensures var h := Adding(old(log), k, v, now);
        Replay(h) == old(data)[k := v] && Dropped(h, log, Unwanted(callbacks, start, h, later))
    {
      ghost var before := data;
      DoRemove(k);
      Notify(Added(k, v, now));
      data := data[k := v];
      assert data == before[k := v];
      DoReplace(later);
    }

    method Update(k: K, v: V, now: int, later: int)
      requires Valid()
      modifies this`strategy, this`log, this`data
      ensures Valid()
      ensures var h := Updating(old(log), k, v, now);
        Replay(h) == old(data)[k := v] && Dropped(h, log, Unwanted(callbacks, start, h, later))
    {
      if k !in data {
        Notify(Added(k, v, now));
      } else {
        Notify(Updated(k, v, now));
      }
      data := data[k := v];
      DoReplace(later);
    }

    method Remove(k: K)
      requires Valid()
      modifies this`strategy, this`log, this`data
      ensures Valid() && data == old(data) - {k} && |data| <= old(|data|)
      ensures log == if k in old(data) then Then(old(log), Removed(k)) else old(log)
    {
      DoRemove(k);
      Smaller(old(data), k);
    }

    method Has(k: K, now: int) returns (r: bool)
      requires Valid()
      ensures r <==> k in Replay(log) && callbacks.isValid(After(callbacks, start, log), k, now)
    {
      r := false;
      if k in data { r := callbacks.isValid(strategy, k, now); }
    }

    /** The value of the latest add or update of `k`, or nothing, and then the key is gone. */
    method Get(k: K, now: int, later: int) returns (r: Option<V>)
      requires Valid()
      modifies this`strategy, this`log, this`data
      ensures Valid() && |data| <= old(|data|)
      ensures var h := Then(old(log), Got(k, now));
        r.Some? <==> k in old(data) && callbacks.isValid(After(callbacks, start, h), k, later)
      ensures r.Some? ==> data == old(data) && log == Then(old(log), Got(k, now))
      ensures r.Some? ==> r.value == old(data)[k] && HasLatestWrite(Events(old(log)), k, r.value)
      ensures r.None? ==> data == old(data) - {k}
      ensures r.None? ==> log == if k in old(data) then Then(Then(old(log), Got(k, now)), Removed(k)) else old(log)
    {
      r := None;
      if k in data {
        Notify(Got(k, now));
        var valid := callbacks.isValid(strategy, k, later);
        if !valid {
          DoRemove(k);
          Smaller(old(data), k);
        } else {
          r := Some(data[k]);
          ReplayIsLatestWrite(old(log), k, data[k]);
        }
      }
    }

    method Clear()
      requires Valid()
      modifies this`strategy, this`log, this`data
      ensures Valid() && data == map[] && log == Then(old(log), Cleared)
    {
      Notify(Cleared);
      data := map[];
    }

    method Size(now: int) returns (n: nat)
      requires Valid()
      modifies this`strategy, this`log, this`data
      ensures Valid() && Dropped(old(log), log, Unwanted(callbacks, start, old(log), now))
      ensures n == |data| == Balance(log)
    {
      DoReplace(now);
      BalanceIsSize(log);
      n := |data|;
    }
  }
}
