/**
  Any number of active-method calls and any number of result handles, copied, swapped, assigned and destroyed by
  their holders while the calls run: safety and finality over whole runs.
 */
module ActiveSystem {
  import opened ActiveCall

  /** Live calls by number, and for every handle in a caller's hands the call whose holder it points to. */
  datatype State<V, E> = State(calls: map<nat, Call<V, E>>, handles: map<nat, nat>)

  datatype Event<V, E> =
    | Invoke(call: nat)                              // a thread enters operator()
    | Thread(call: nat, step: Step<V, E>, given: nat) // a step of the call; `given` names the handle of a Return
    | Copy(source: nat, copy: nat)                   // ActiveResult(const ActiveResult&)
    | Swap(left: nat, right: nat)
    | Destroy(handle: nat)                           // ~ActiveResult

  function Empty<V, E>(): State<V, E> { State(map[], map[]) }

  predicate Possible<V, E>(s: State<V, E>, e: Event<V, E>) {
    match e
    case Invoke(id) => id !in s.calls
    case Thread(id, step, h) => id in s.calls && Enabled(s.calls[id], step) && (step.Return? ==> h !in s.handles)
    case Copy(h, h') => h in s.handles && s.handles[h] in s.calls && h' !in s.handles
    case Swap(h, h') => h in s.handles && h' in s.handles
    case Destroy(h) => h in s.handles && s.handles[h] in s.calls
  }

  function Next<V, E>(s: State<V, E>, e: Event<V, E>): State<V, E>
    requires Possible(s, e)
  {
    match e
    case Invoke(id) => s.(calls := s.calls[id := Initial()])
    case Thread(id, step, h) =>
      State(s.calls[id := Apply(s.calls[id], step)], if step.Return? then s.handles[h := id] else s.handles)
    case Copy(h, h') =>
      var id := s.handles[h];
      State(s.calls[id := DuplicateHolder(s.calls[id])], s.handles[h' := id])
    case Swap(h, h') => s.(handles := s.handles[h := s.handles[h']][h' := s.handles[h]])
    case Destroy(h) =>
      var id := s.handles[h];
      State(s.calls[id := ReleaseHolder(s.calls[id])], s.handles - {h})
  }

  // ---- Counting handles ----

  function Holding(handles: map<nat, nat>, id: nat): set<nat> { set h | h in handles && handles[h] == id }

  function Count(handles: map<nat, nat>, id: nat): nat { |Holding(handles, id)| }

  lemma CountAdded(handles: map<nat, nat>, h: nat, id: nat, other: nat)
    requires h !in handles
    ensures Count(handles[h := id], other) == Count(handles, other) + One(other == id)
  {
    HoldingAdded(handles, h, id, other);
  }

  lemma HoldingAdded(handles: map<nat, nat>, h: nat, id: nat, other: nat)
    requires h !in handles
    ensures other == id ==> Holding(handles[h := id], other) == Holding(handles, other) + {h}
    ensures other != id ==> Holding(handles[h := id], other) == Holding(handles, other)
    ensures h !in Holding(handles, other)
  {
  }

  lemma CountRemoved(handles: map<nat, nat>, h: nat, other: nat)
    requires h in handles
    ensures Count(handles - {h}, other) == Count(handles, other) - One(other == handles[h])
  {
    if other == handles[h] {
      assert Holding(handles - {h}, other) == Holding(handles, other) - {h};
    } else {
      assert Holding(handles - {h}, other) == Holding(handles, other);
    }
  }

  lemma CountSwapped(handles: map<nat, nat>, h: nat, h': nat, other: nat)
    requires h in handles && h' in handles
    ensures Count(handles[h := handles[h']][h' := handles[h]], other) == Count(handles, other)
  {
    if handles[h] == handles[h'] {
      assert handles[h := handles[h']][h' := handles[h]] == handles;
    } else {
      var rest: map<nat, nat> := handles - {h} - {h'};
      assert rest[h := handles[h]][h' := handles[h']] == handles;
      assert rest[h := handles[h']][h' := handles[h]] == handles[h := handles[h']][h' := handles[h]];
      CountTwoAdded(rest, h, handles[h], h', handles[h'], other);
      CountTwoAdded(rest, h, handles[h'], h', handles[h], other);
    }
  }

  lemma CountTwoAdded(handles: map<nat, nat>, h: nat, id: nat, h': nat, id': nat, other: nat)
    requires h !in handles && h' !in handles && h != h'
    ensures Count(handles[h := id][h' := id'], other) == Count(handles, other) + One(other == id) + One(other == id')
  {
    CountAdded(handles, h, id, other);
    CountAdded(handles[h := id], h', id', other);
  }

  // ---- The invariant ----

  ghost predicate Inv<V(!new), E(!new)>(s: State<V, E>) {
    && (forall h :: h in s.handles ==> s.handles[h] in s.calls)
    && (forall id :: id in s.calls ==> CallOk(s.calls[id], Count(s.handles, id)))
  }

  lemma NextKeepsInv<V(!new), E(!new)>(s: State<V, E>, e: Event<V, E>)
    requires Inv(s) && Possible(s, e)
    ensures Inv(Next(s, e))
  {
    var s' := Next(s, e);
    forall id | id in s'.calls ensures CallOk(s'.calls[id], Count(s'.handles, id)) {
      NextKeepsCall(s, e, id);
    }
  }

  lemma ThreadKeepsCall<V(!new), E(!new)>(s: State<V, E>, e: Event<V, E>, id: nat)
    requires Inv(s) && Possible(s, e) && e.Thread? && id in s.calls
    ensures CallOk(Next(s, e).calls[id], Count(Next(s, e).handles, id))
  {
    if e.step.Return? { CountAdded(s.handles, e.given, e.call, id); }
    if id == e.call { StepKeepsOk(s.calls[id], e.step, Count(s.handles, id)); }
  }

  lemma CopyKeepsCall<V(!new), E(!new)>(s: State<V, E>, h: nat, h': nat, id: nat)
    requires Inv(s) && Possible(s, Copy(h, h')) && id in s.calls
    ensures CallOk(Next(s, Copy(h, h')).calls[id], Count(Next(s, Copy(h, h')).handles, id))
  {
    CountAdded(s.handles, h', s.handles[h], id);
    if id == s.handles[h] {
      assert h in Holding(s.handles, id);
      CopyKeepsOk(s.calls[id], Count(s.handles, id));
    }
  }

  lemma DestroyKeepsCall<V(!new), E(!new)>(s: State<V, E>, h: nat, id: nat)
    requires Inv(s) && Possible(s, Destroy(h)) && id in s.calls
    ensures CallOk(Next(s, Destroy(h)).calls[id], Count(Next(s, Destroy(h)).handles, id))
  {
    CountRemoved(s.handles, h, id);
    if id == s.handles[h] {
      assert h in Holding(s.handles, id);
      DestroyKeepsOk(s.calls[id], Count(s.handles, id));
    }
  }

  lemma InvokeKeepsCall<V(!new), E(!new)>(s: State<V, E>, new_: nat, id: nat)
    requires Inv(s) && Possible(s, Invoke(new_)) && id in Next(s, Invoke(new_)).calls
    ensures CallOk(Next(s, Invoke(new_)).calls[id], Count(Next(s, Invoke(new_)).handles, id))
  {
    if id == new_ {
      assert Holding(s.handles, id) == {};
      InitialOk<V, E>();
    }
  }

  lemma NextKeepsCall<V(!new), E(!new)>(s: State<V, E>, e: Event<V, E>, id: nat)
    requires Inv(s) && Possible(s, e) && id in Next(s, e).calls
    ensures CallOk(Next(s, e).calls[id], Count(Next(s, e).handles, id))
  {
    match e
    case Invoke(new_) => InvokeKeepsCall(s, new_, id);
    case Thread(_, _, _) => ThreadKeepsCall(s, e, id);
    case Copy(h, h') => CopyKeepsCall(s, h, h', id);
    case Swap(h, h') => CountSwapped(s.handles, h, h', id);
    case Destroy(h) => DestroyKeepsCall(s, h, id);
  }

  /** What never changes once it holds, over one event. */
  lemma NextGoesForward<V(!new), E(!new)>(s: State<V, E>, e: Event<V, E>, id: nat)
    requires Inv(s) && Possible(s, e) && id in s.calls
    ensures id in Next(s, e).calls
    ensures NoGoingBack(s.calls[id], Next(s, e).calls[id]) && ResultKept(s.calls[id], Next(s, e).calls[id])
  {
    var c := s.calls[id];
    HandlesGoForward(c);
    match e
    case Invoke(_) => assert Next(s, e).calls[id] == c;
    case Thread(call, step, _) => if call == id { StepGoesForward(c, step, Count(s.handles, id)); }
    case Copy(h, _) => HandleKeepsAlive(s, h);
    case Swap(_, _) =>
    case Destroy(h) => HandleKeepsAlive(s, h);
  }

  // ---- Whole runs ----

  ghost predicate IsRun<V(!new), E(!new)>(s: State<V, E>, events: seq<Event<V, E>>)
    decreases |events|
  {
    events == [] || (Possible(s, events[0]) && IsRun(Next(s, events[0]), events[1..]))
  }

  ghost function After<V(!new), E(!new)>(s: State<V, E>, events: seq<Event<V, E>>): State<V, E>
    requires IsRun(s, events)
    decreases |events|
  {
    if events == [] then s else After(Next(s, events[0]), events[1..])
  }

  lemma {:induction false} RunKeepsInv<V(!new), E(!new)>(s: State<V, E>, events: seq<Event<V, E>>)
    requires Inv(s) && IsRun(s, events)
    ensures Inv(After(s, events))
    decreases |events|
  {
    if events != [] {
      NextKeepsInv(s, events[0]);
      RunKeepsInv(Next(s, events[0]), events[1..]);
    }
  }

  /**
    In every interleaving no thread ever touches a deleted runnable or holder, the runnable exists while a thread may
    still use it, and the holder outlives every handle to it.
   */
  lemma EveryRunIsSafe<V(!new), E(!new)>(events: seq<Event<V, E>>, id: nat)
    requires IsRun(Empty<V, E>(), events) && id in After(Empty<V, E>(), events).calls
    ensures var s := After(Empty<V, E>(), events);
            && !s.calls[id].fault
            && (RunnableInUse(s.calls[id]) <==> s.calls[id].runnable.Live?)
            && (forall h :: h in s.handles && s.handles[h] == id ==> s.calls[id].holder.Alive?)
  {
    RunKeepsInv(Empty<V, E>(), events);
    var s := After(Empty<V, E>(), events);
    InUseIsLive(s.calls[id], Count(s.handles, id));
    forall h | h in s.handles && s.handles[h] == id ensures s.calls[id].holder.Alive? {
      assert h in Holding(s.handles, id);
    }
  }

  /** Nothing that has been deleted comes back, over a whole run. */
  lemma {:induction false} DeletedOnce<V(!new), E(!new)>(s: State<V, E>, events: seq<Event<V, E>>, id: nat)
    requires Inv(s) && IsRun(s, events) && id in s.calls
    ensures id in After(s, events).calls && NoGoingBack(s.calls[id], After(s, events).calls[id])
    decreases |events|
  {
    if events != [] {
      NextGoesForward(s, events[0], id);
      NextKeepsInv(s, events[0]);
      DeletedOnce(Next(s, events[0]), events[1..], id);
    }
  }

  /**
    A released waiter finds exactly one of data and exception, and it finds the same one at any later time, whatever
    happened in between, for as long as it keeps its handle.
   */
  lemma {:induction false} ResultIsFinal<V(!new), E(!new)>(s: State<V, E>, events: seq<Event<V, E>>, id: nat, h: nat)
    requires Inv(s) && IsRun(s, events) && id in s.calls && s.calls[id].holder.Alive? && s.calls[id].holder.signalled
    ensures ExactlyOne(s.calls[id].holder)
    ensures var s' := After(s, events);
            h in s'.handles && s'.handles[h] == id ==>
              && id in s'.calls && s'.calls[id].holder.Alive? && s'.calls[id].holder.signalled
              && s'.calls[id].holder.data == s.calls[id].holder.data
              && s'.calls[id].holder.exc == s.calls[id].holder.exc
    decreases |events|
  {
    if events == [] {
    } else {
      var s1 := Next(s, events[0]);
      NextGoesForward(s, events[0], id);
      NextKeepsInv(s, events[0]);
      RunKeepsInv(s1, events[1..]);
      if s1.calls[id].holder.Alive? {
        ResultIsFinal(s1, events[1..], id, h);
      } else {
        DeletedOnce(s1, events[1..], id);
        HandleKeepsAlive(After(s, events), h);
      }
    }
  }

  lemma HandleKeepsAlive<V(!new), E(!new)>(s: State<V, E>, h: nat)
    requires Inv(s)
    ensures h in s.handles ==> s.calls[s.handles[h]].holder.Alive?
  {
    if h in s.handles {
      assert h in Holding(s.handles, s.handles[h]);
    }
  }

  /** A new call can be invoked at any time; it starts with nothing, beside the others. */
  lemma InvokeStarts<V(!new), E(!new)>(s: State<V, E>, id: nat)
    ensures id !in s.calls <==> Possible(s, Invoke(id))
    ensures id !in s.calls ==>
      Next(s, Invoke(id)) == State(s.calls[id := Call(Start, Idle, NoRunnable, NoHolder, false)], s.handles)
  {
  }

  /** The threads of a call go on as they would alone; only its own handle is given out. */
  lemma ThreadGoesOn<V(!new), E(!new)>(s: State<V, E>, id: nat, step: Step<V, E>, h: nat)
    requires id in s.calls && Enabled(s.calls[id], step) && h !in s.handles
    ensures Possible(s, Thread(id, step, h))
    ensures Next(s, Thread(id, step, h)).calls == s.calls[id := Apply(s.calls[id], step)]
    ensures Next(s, Thread(id, step, h)).handles == if step.Return? then s.handles[h := id] else s.handles
  {
  }

  /** Whoever has a handle can copy, swap and destroy it, and what that does to the handles. */
  lemma HandlesAreFree<V(!new), E(!new)>(s: State<V, E>, h: nat, other: nat, fresh_: nat)
    requires Inv(s) && h in s.handles && other in s.handles && fresh_ !in s.handles
    ensures Possible(s, Copy(h, fresh_)) && Next(s, Copy(h, fresh_)).handles == s.handles[fresh_ := s.handles[h]]
    ensures Possible(s, Swap(h, other)) &&
      Next(s, Swap(h, other)) == State(s.calls, s.handles[h := s.handles[other]][other := s.handles[h]])
    ensures Possible(s, Destroy(h)) && Next(s, Destroy(h)).handles == s.handles - {h}
  {
  }

  /** `operator =` is a copy, a swap and a destruction; it redirects one handle and changes no other. */
  lemma AssignRedirects<V(!new), E(!new)>(s: State<V, E>, to: nat, from: nat, tmp: nat)
    requires Inv(s) && to in s.handles && from in s.handles && tmp !in s.handles
    ensures Possible(s, Copy(from, tmp))
    ensures var s1 := Next(s, Copy(from, tmp));
            Possible(s1, Swap(to, tmp)) &&
            var s2 := Next(s1, Swap(to, tmp));
            Possible(s2, Destroy(tmp)) &&
            Next(s2, Destroy(tmp)).handles == s.handles[to := s.handles[from]]
  {
    var s1 := Next(s, Copy(from, tmp));
    var s2 := Next(s1, Swap(to, tmp));
    assert s1.handles == s.handles[tmp := s.handles[from]];
    HandlesAfterSwap(s.handles, to, from, tmp);
  }

  lemma HandlesAfterSwap(handles: map<nat, nat>, to: nat, from: nat, tmp: nat)
    requires to in handles && from in handles && tmp !in handles
    ensures var copied := handles[tmp := handles[from]];
            copied[to := copied[tmp]][tmp := copied[to]] - {tmp} == handles[to := handles[from]]
  {
  }

  /** When every call has come to rest and every handle is gone, every object is gone. */
  lemma NothingRemains<V(!new), E(!new)>(s: State<V, E>)
    requires Inv(s) && s.handles == map[] && forall id :: id in s.calls ==> Quiescent(s.calls[id])
    ensures forall id :: id in s.calls ==> s.calls[id].runnable == Gone && s.calls[id].holder == Deleted
  {
    forall id | id in s.calls ensures s.calls[id].runnable == Gone && s.calls[id].holder == Deleted {
      assert Holding(s.handles, id) == {};
      NothingLeaks(s.calls[id], 0);
    }
  }
}
