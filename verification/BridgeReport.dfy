/**
  The Bridge: one thread stores the newest sample of each device type, another reads and then clears the store for its
  report, as two separate steps.  A sample is named by its place in the order of collection.
 */
module BridgeReport {
  import opened Options

  /** A report: for each device type the sample it holds, if any. */
  type Point = map<string, Option<nat>>

  /** Where the timer's callback is; `read` is a sample read and not cleared yet. */
  datatype Timer = Idle | Reading(next: nat, point: Point) | Clearing(next: nat, point: Point, read: nat)

  /** The types collected so far in order, the sample stored for each type, and the reports pushed. */
  datatype State = State(collected: seq<string>, stored: map<string, nat>, timer: Timer, pushed: seq<Point>)

  datatype Step = Collect(typ: string) | Begin | Read | Clear | Finish(registered: bool)

  const Initial := State([], map[], Idle, [])

  predicate Enabled(devices: seq<string>, s: State, step: Step) {
    match step
    case Collect(_) => true
    case Begin => s.timer.Idle?
    case Read => s.timer.Reading? && s.timer.next < |devices|
    case Clear => s.timer.Clearing? && s.timer.next < |devices|
    case Finish(_) => s.timer.Reading? && s.timer.next == |devices|
  }

  function Apply(devices: seq<string>, s: State, step: Step): State
    requires Enabled(devices, s, step)
  {
    match step
    case Collect(t) => s.(collected := s.collected + [t], stored := s.stored[t := |s.collected|])
    case Begin => s.(timer := Reading(0, map[]))
    case Read =>
      var i, t := s.timer.next, devices[s.timer.next];
      if t in s.stored then s.(timer := Clearing(i, s.timer.point, s.stored[t]))
      else s.(timer := Reading(i + 1, s.timer.point[t := None]))
    case Clear =>
      var t := devices[s.timer.next];
      s.(stored := s.stored - {t}, timer := Reading(s.timer.next + 1, s.timer.point[t := Some(s.timer.read)]))
    case Finish(registered) =>
      s.(timer := Idle, pushed := if registered then s.pushed + [s.timer.point] else s.pushed)
  }

  // ---- What every step keeps ----

  /** `x` is a sample of type `t`. */
  ghost predicate IsSample(s: State, t: string, x: nat) {
    x < |s.collected| && s.collected[x] == t
  }

  ghost predicate Newest(s: State, t: string, x: nat) {
    IsSample(s, t, x) && forall j :: x < j < |s.collected| ==> s.collected[j] != t
  }

  ghost predicate Holds(p: Point, t: string, x: nat) {
    t in p && p[t] == Some(x)
  }

  /** Every report of `t` in `p` is a sample, and older than `x`. */
  ghost predicate Before(p: Point, t: string, x: nat) {
    t in p && p[t].Some? ==> p[t].value < x
  }

  ghost predicate AfterPushed(s: State, t: string, x: nat) {
    forall i :: 0 <= i < |s.pushed| ==> Before(s.pushed[i], t, x)
  }

  ghost predicate Samples(s: State, p: Point) {
    forall t :: t in p && p[t].Some? ==> IsSample(s, t, p[t].value)
  }

  ghost predicate InOrder(s: State) {
    forall i, j, t :: 0 <= i < j < |s.pushed| && t in s.pushed[j] && s.pushed[j][t].Some? ==>
      Before(s.pushed[i], t, s.pushed[j][t].value)
  }

  /** The report in the making. */
  ghost function Draft(s: State): Point {
    if s.timer.Idle? then map[] else s.timer.point
  }

  ghost predicate StoredOk(s: State) {
    forall t :: t in s.stored ==>
      Newest(s, t, s.stored[t]) && AfterPushed(s, t, s.stored[t]) && Before(Draft(s), t, s.stored[t])
  }

  ghost predicate DraftOk(s: State) {
    Samples(s, Draft(s)) && forall t :: t in Draft(s) && Draft(s)[t].Some? ==> AfterPushed(s, t, Draft(s)[t].value)
  }

  /** The sample in hand is one of its type and newer than every report; the store may have moved on, not back. */
  ghost predicate InHandOk(devices: seq<string>, s: State) {
    s.timer.Clearing? ==>
      && s.timer.next < |devices|
      && var t := devices[s.timer.next];
      IsSample(s, t, s.timer.read) && AfterPushed(s, t, s.timer.read) && Before(Draft(s), t, s.timer.read)
      && (t in s.stored ==> s.timer.read <= s.stored[t])
  }

  ghost predicate Inv(devices: seq<string>, s: State) {
    && (forall i :: 0 <= i < |s.pushed| ==> Samples(s, s.pushed[i]))
    && InOrder(s) && StoredOk(s) && DraftOk(s) && InHandOk(devices, s)
  }

  lemma CollectKeeps(devices: seq<string>, s: State, t: string)
    requires Inv(devices, s)
    ensures Inv(devices, Apply(devices, s, Collect(t)))
  {
    var s' := Apply(devices, s, Collect(t));
    assert forall u, x :: IsSample(s, u, x) ==> IsSample(s', u, x);
    forall i | 0 <= i < |s.pushed| ensures Samples(s', s'.pushed[i]) && Before(s.pushed[i], t, |s.collected|) {
      assert Samples(s, s.pushed[i]);
    }
    forall u | u in s'.stored
      ensures Newest(s', u, s'.stored[u]) && AfterPushed(s', u, s'.stored[u]) && Before(Draft(s'), u, s'.stored[u])
    {
      if u != t { assert Newest(s, u, s.stored[u]) && AfterPushed(s, u, s.stored[u]); }
    }
    forall u | u in Draft(s) && Draft(s)[u].Some? ensures AfterPushed(s', u, Draft(s')[u].value) {
      assert AfterPushed(s, u, Draft(s)[u].value);
    }
    if s.timer.Clearing? { assert AfterPushed(s, devices[s.timer.next], s.timer.read); }
  }

  lemma ReadKeeps(devices: seq<string>, s: State)
    requires Inv(devices, s) && Enabled(devices, s, Read)
    ensures Inv(devices, Apply(devices, s, Read))
    ensures var s' := Apply(devices, s, Read); s'.timer.Clearing? ==> Newest(s, devices[s.timer.next], s'.timer.read)
  {
    var s', t := Apply(devices, s, Read), devices[s.timer.next];
    assert t in s.stored ==> Newest(s, t, s.stored[t]) && AfterPushed(s, t, s.stored[t]);
    forall i | 0 <= i < |s.pushed| ensures Samples(s', s'.pushed[i]) { assert Samples(s, s.pushed[i]); }
    forall u, x | AfterPushed(s, u, x) ensures AfterPushed(s', u, x) { }
    forall u | u in s'.stored
      ensures Newest(s', u, s'.stored[u]) && AfterPushed(s', u, s'.stored[u]) && Before(Draft(s'), u, s'.stored[u])
    {
      assert Newest(s, u, s.stored[u]) && Before(Draft(s), u, s.stored[u]);
    }
  }

  lemma ClearKeeps(devices: seq<string>, s: State)
    requires Inv(devices, s) && Enabled(devices, s, Clear)
    ensures Inv(devices, Apply(devices, s, Clear))
  {
    var s', t := Apply(devices, s, Clear), devices[s.timer.next];
    forall i | 0 <= i < |s.pushed| ensures Samples(s', s'.pushed[i]) { assert Samples(s, s.pushed[i]); }
    forall u, x | AfterPushed(s, u, x) ensures AfterPushed(s', u, x) { }
    forall u | u in s'.stored
      ensures Newest(s', u, s'.stored[u]) && AfterPushed(s', u, s'.stored[u]) && Before(Draft(s'), u, s'.stored[u])
    {
      assert Newest(s, u, s.stored[u]) && Before(Draft(s), u, s.stored[u]);
    }
  }

  lemma FinishKeeps(devices: seq<string>, s: State, registered: bool)
    requires Inv(devices, s) && Enabled(devices, s, Finish(registered))
    ensures Inv(devices, Apply(devices, s, Finish(registered)))
  {
    var s' := Apply(devices, s, Finish(registered));
    forall i | 0 <= i < |s'.pushed| ensures Samples(s', s'.pushed[i]) {
      if i < |s.pushed| { assert Samples(s, s.pushed[i]); }
    }
    forall u | u in s'.stored ensures Newest(s', u, s'.stored[u]) && AfterPushed(s', u, s'.stored[u]) {
      assert Newest(s, u, s.stored[u]) && AfterPushed(s, u, s.stored[u]) && Before(Draft(s), u, s.stored[u]);
    }
    forall i, j, t | 0 <= i < j < |s'.pushed| && t in s'.pushed[j] && s'.pushed[j][t].Some?
      ensures Before(s'.pushed[i], t, s'.pushed[j][t].value)
    {
      if j == |s.pushed| { assert AfterPushed(s, t, Draft(s)[t].value); }
    }
  }

  lemma BeginKeeps(devices: seq<string>, s: State)
    requires Inv(devices, s) && Enabled(devices, s, Begin)
    ensures Inv(devices, Apply(devices, s, Begin))
  {
    var s' := Apply(devices, s, Begin);
    forall i | 0 <= i < |s.pushed| ensures Samples(s', s'.pushed[i]) { assert Samples(s, s.pushed[i]); }
    forall u | u in s'.stored ensures Newest(s', u, s'.stored[u]) && AfterPushed(s', u, s'.stored[u]) {
      assert Newest(s, u, s.stored[u]) && AfterPushed(s, u, s.stored[u]);
    }
  }

  // ---- Runs ----

  /** The state after the first `n` steps, as long as each was enabled. */
  ghost predicate IsRun(devices: seq<string>, steps: seq<Step>, states: seq<State>) {
    && |states| == |steps| + 1 && states[0] == Initial
    && forall i :: 0 <= i < |steps| ==>
      Enabled(devices, states[i], steps[i]) && states[i + 1] == Apply(devices, states[i], steps[i])
  }

  lemma {:induction false} RunKeepsInv(devices: seq<string>, steps: seq<Step>, states: seq<State>, n: nat)
    requires IsRun(devices, steps, states) && n <= |steps|
    ensures Inv(devices, states[n])
  {
    if n > 0 {
      RunKeepsInv(devices, steps, states, n - 1);
      var s := states[n - 1];
      match steps[n - 1]
      case Collect(t) => CollectKeeps(devices, s, t);
      case Begin => BeginKeeps(devices, s);
      case Read => ReadKeeps(devices, s);
      case Clear => ClearKeeps(devices, s);
      case Finish(r) => FinishKeeps(devices, s, r);
    }
  }

  /** In every run, two reports never hold the same sample of a type, and the later report holds the later sample. */
  lemma ReportsFollowCollection(devices: seq<string>, steps: seq<Step>, states: seq<State>, n: nat, i: nat, j: nat,
    t: string, x: nat, y: nat)
    requires IsRun(devices, steps, states) && n <= |steps|
    requires i < j < |states[n].pushed| && Holds(states[n].pushed[i], t, x) && Holds(states[n].pushed[j], t, y)
    ensures x < y && IsSample(states[n], t, x) && IsSample(states[n], t, y)
  {
    RunKeepsInv(devices, steps, states, n);
    assert Samples(states[n], states[n].pushed[i]) && Samples(states[n], states[n].pushed[j]);
    assert Before(states[n].pushed[i], t, y);
  }

  /** What is read for a type is the newest sample of it collected so far. */
  lemma ReadsNewest(devices: seq<string>, steps: seq<Step>, states: seq<State>, n: nat)
    requires IsRun(devices, steps, states) && n < |steps| && steps[n] == Read && states[n + 1].timer.Clearing?
    ensures Newest(states[n], devices[states[n].timer.next], states[n + 1].timer.read)
  {
    RunKeepsInv(devices, steps, states, n);
    ReadKeeps(devices, states[n]);
  }

  // ---- The fate of a sample ----

  /** The step of the timer concerns the type `t`. */
  predicate Handles(devices: seq<string>, s: State, t: string) {
    !s.timer.Idle? && s.timer.next < |devices| && devices[s.timer.next] == t
  }

  ghost predicate Reported(s: State, t: string, x: nat) {
    exists i :: 0 <= i < |s.pushed| && Holds(s.pushed[i], t, x)
  }

  predicate InHand(devices: seq<string>, s: State, t: string, x: nat) {
    s.timer.Clearing? && Handles(devices, s, t) && s.timer.read == x
  }

  predicate IsStored(s: State, t: string, x: nat) {
    t in s.stored && s.stored[t] == x
  }

  /** Sample `x` of type `t` waits in the store and is nowhere else. */
  ghost predicate Waiting(devices: seq<string>, s: State, t: string, x: nat) {
    && x < |s.collected| && IsStored(s, t, x)
    && !InHand(devices, s, t, x) && !Holds(Draft(s), t, x) && !Reported(s, t, x)
  }

  /** A device behind place `i` and before `n` has type `t`. */
  ghost predicate Again(devices: seq<string>, t: string, i: nat, n: nat) {
    exists j :: i < j < n && j < |devices| && devices[j] == t
  }

  /** It was read for the device at place `i`: in hand, then in the draft until another device of its type. */
  ghost predicate Taken(devices: seq<string>, s: State, t: string, x: nat, i: nat) {
    && x < |s.collected| && !Reported(s, t, x) && !s.timer.Idle?
    && (InHand(devices, s, t, x) ==> s.timer.next == i && !Holds(Draft(s), t, x))
    && (!InHand(devices, s, t, x) ==> i < s.timer.next && !IsStored(s, t, x))
    && (!InHand(devices, s, t, x) ==> (Holds(Draft(s), t, x) <==> !Again(devices, t, i, s.timer.next)))
  }

  /** It is nowhere: not stored, not in hand, not in a report. */
  ghost predicate Gone(devices: seq<string>, s: State, t: string, x: nat) {
    && x < |s.collected| && !IsStored(s, t, x)
    && !InHand(devices, s, t, x) && !Holds(Draft(s), t, x) && !Reported(s, t, x)
  }

  lemma PushedMore(s: State, s': State, t: string, x: nat)
    requires s'.pushed == s.pushed
    ensures Reported(s', t, x) <==> Reported(s, t, x)
  {
  }

  lemma PushedOne(s: State, s': State, p: Point, t: string, x: nat)
    requires s'.pushed == s.pushed + [p]
    ensures Reported(s', t, x) <==> Reported(s, t, x) || Holds(p, t, x)
  {
    assert s'.pushed[|s.pushed|] == p;
    if i :| 0 <= i < |s.pushed| && Holds(s.pushed[i], t, x) { assert Holds(s'.pushed[i], t, x); }
  }

  /** Only the end of a registered pass reports anything, namely the draft. */
  lemma ReportedAfter(devices: seq<string>, s: State, step: Step, t: string, x: nat)
    requires Enabled(devices, s, step)
    ensures Reported(Apply(devices, s, step), t, x) <==>
      Reported(s, t, x) || (step == Finish(true) && Holds(Draft(s), t, x))
  {
    var s' := Apply(devices, s, step);
    if step == Finish(true) { PushedOne(s, s', s.timer.point, t, x); } else { PushedMore(s, s', t, x); }
  }

  /** The step may decide about a sample of type `t` that waits in the store. */
  predicate Concerns(devices: seq<string>, s: State, step: Step, t: string) {
    step == Collect(t) || ((step.Read? || step.Clear?) && Handles(devices, s, t))
  }

  lemma NewSampleWaits(devices: seq<string>, s: State, t: string)
    requires Inv(devices, s)
    ensures Waiting(devices, Apply(devices, s, Collect(t)), t, |s.collected|)
  {
    var x := |s.collected|;
    ReportedAfter(devices, s, Collect(t), t, x);
    forall i | 0 <= i < |s.pushed| ensures !Holds(s.pushed[i], t, x) { assert Samples(s, s.pushed[i]); }
  }

  lemma WaitingStep(devices: seq<string>, s: State, step: Step, t: string, x: nat)
    requires Waiting(devices, s, t, x) && Enabled(devices, s, step)
    ensures !Concerns(devices, s, step, t) ==> Waiting(devices, Apply(devices, s, step), t, x)
    ensures Concerns(devices, s, step, t) && step.Read? ==> Taken(devices, Apply(devices, s, step), t, x, s.timer.next)
    ensures Concerns(devices, s, step, t) && !step.Read? ==> Gone(devices, Apply(devices, s, step), t, x)
  {
    ReportedAfter(devices, s, step, t, x);
  }

  lemma AgainNext(devices: seq<string>, t: string, i: nat, n: nat)
    requires i < n < |devices|
    ensures Again(devices, t, i, n + 1) <==> Again(devices, t, i, n) || devices[n] == t
  {
    if devices[n] == t { assert i < n < n + 1 && devices[n] == t; }
    if j :| i < j < n && j < |devices| && devices[j] == t { assert i < j < n + 1; }
  }

  lemma TakenStep(devices: seq<string>, s: State, step: Step, t: string, x: nat, i: nat)
    requires Taken(devices, s, t, x, i) && Enabled(devices, s, step) && !step.Finish?
    ensures Taken(devices, Apply(devices, s, step), t, x, i)
  {
    ReportedAfter(devices, s, step, t, x);
    if !step.Collect? && !s.timer.Idle? && i < s.timer.next < |devices| { AgainNext(devices, t, i, s.timer.next); }
  }

  /** At the end of the pass it is reported, if no later device had its type and the report is pushed, or lost. */
  lemma TakenEnds(devices: seq<string>, s: State, registered: bool, t: string, x: nat, i: nat)
    requires Taken(devices, s, t, x, i) && Enabled(devices, s, Finish(registered))
    ensures registered && !Again(devices, t, i, |devices|) ==> Reported(Apply(devices, s, Finish(registered)), t, x)
    ensures !(registered && !Again(devices, t, i, |devices|)) ==>
      Gone(devices, Apply(devices, s, Finish(registered)), t, x)
  {
    ReportedAfter(devices, s, Finish(registered), t, x);
  }

  lemma GoneStep(devices: seq<string>, s: State, step: Step, t: string, x: nat)
    requires Gone(devices, s, t, x) && Enabled(devices, s, step)
    ensures Gone(devices, Apply(devices, s, step), t, x)
  {
    ReportedAfter(devices, s, step, t, x);
  }

  // ---- Exactly what a report holds ----

  /** The types of the first `n` devices. */
  function Types(devices: seq<string>, n: nat): set<string>
    requires n <= |devices|
  {
    set t | t in devices[..n]
  }

  /** What the store holds of a type. */
  function Stored(s: State, t: string): Option<nat> {
    if t in s.stored then Some(s.stored[t]) else None
  }

  ghost predicate Sized(steps: seq<Step>, states: seq<State>) {
    |states| == |steps| + 1
  }

  ghost predicate Unfinished(steps: seq<Step>, r: nat, n: nat)
    requires n <= |steps|
  {
    forall m :: r < m < n ==> !steps[m].Finish?
  }

  /** The step `r` of the pass under way reads the device at place `j`. */
  ghost predicate ReadsAt(steps: seq<Step>, states: seq<State>, n: nat, r: nat, j: nat)
    requires Sized(steps, states) && n <= |steps|
  {
    r < n && steps[r] == Read && Unfinished(steps, r, n) && !states[r].timer.Idle? && states[r].timer.next == j
  }

  /** The entry of `t` after `m` devices comes from the last device of its type among them. */
  ghost predicate EntryFrom(devices: seq<string>, steps: seq<Step>, states: seq<State>, n: nat, m: nat, t: string,
    r: nat, j: nat)
    requires Sized(steps, states) && n <= |steps|
  {
    && j < m <= |devices| && devices[j] == t && !Again(devices, t, j, m) && ReadsAt(steps, states, n, r, j)
    && t in Draft(states[n]) && Draft(states[n])[t] == Stored(states[r], t)
  }

  ghost predicate HasEntry(devices: seq<string>, steps: seq<Step>, states: seq<State>, n: nat, m: nat, t: string)
    requires Sized(steps, states) && n <= |steps|
  {
    exists r: nat, j: nat :: EntryFrom(devices, steps, states, n, m, t, r, j)
  }

  /** The draft of a pass has an entry for every type read so far, and the sample in hand comes from this pass too. */
  ghost predicate DraftComplete(devices: seq<string>, steps: seq<Step>, states: seq<State>, n: nat)
    requires Sized(steps, states) && n <= |steps|
  {
    var s := states[n];
    !s.timer.Idle? ==>
      && s.timer.next <= |devices| && Draft(s).Keys == Types(devices, s.timer.next)
      && (forall t :: t in Types(devices, s.timer.next) ==> HasEntry(devices, steps, states, n, s.timer.next, t))
      && (s.timer.Clearing? ==> HandHasSource(devices, steps, states, n, s.timer.next, s.timer.read))
  }

  /** The sample `x` in hand for the device at place `m` was stored when that was read. */
  ghost predicate HandHasSource(devices: seq<string>, steps: seq<Step>, states: seq<State>, n: nat, m: nat, x: nat)
    requires Sized(steps, states) && n <= |steps|
  {
    m < |devices| && exists r: nat :: ReadsAt(steps, states, n, r, m) && Stored(states[r], devices[m]) == Some(x)
  }

  lemma TypesMore(devices: seq<string>, n: nat)
    requires n < |devices|
    ensures Types(devices, n + 1) == Types(devices, n) + {devices[n]}
  {
    assert devices[..n + 1] == devices[..n] + [devices[n]];
  }

  /** A step that does not touch the draft, nor the place of the timer, keeps it complete. */
  lemma SameDraft(devices: seq<string>, steps: seq<Step>, states: seq<State>, n: nat)
    requires IsRun(devices, steps, states) && n < |steps| && DraftComplete(devices, steps, states, n)
    requires !steps[n].Finish? && !states[n].timer.Idle? && states[n + 1].timer.next == states[n].timer.next
    requires Draft(states[n + 1]) == Draft(states[n])
    requires states[n + 1].timer.Clearing? && states[n].timer != states[n + 1].timer ==>
      && steps[n] == Read && states[n].timer.next < |devices|
      && Stored(states[n], devices[states[n].timer.next]) == Some(states[n + 1].timer.read)
    ensures DraftComplete(devices, steps, states, n + 1)
  {
    var s, s', m := states[n], states[n + 1], states[n].timer.next;
    forall t | t in Types(devices, m) ensures HasEntry(devices, steps, states, n + 1, m, t) {
      assert HasEntry(devices, steps, states, n, m, t);
      var r: nat, j: nat :| EntryFrom(devices, steps, states, n, m, t, r, j);
      assert EntryFrom(devices, steps, states, n + 1, m, t, r, j);
    }
    if s'.timer.Clearing? {
      if s.timer == s'.timer {
        var r: nat :| ReadsAt(steps, states, n, r, m) && Stored(states[r], devices[m]) == Some(s.timer.read);
        assert ReadsAt(steps, states, n + 1, r, m);
      } else {
        assert ReadsAt(steps, states, n + 1, n, m);
      }
    }
  }

  /** A step that writes the entry of the device in turn goes on to the next. */
  lemma NextDraft(devices: seq<string>, steps: seq<Step>, states: seq<State>, n: nat, r: nat, m: nat)
    requires IsRun(devices, steps, states) && n < |steps| && DraftComplete(devices, steps, states, n)
    requires !steps[n].Finish? && !states[n].timer.Idle? && m == states[n].timer.next < |devices|
    requires states[n + 1].timer.Reading? && states[n + 1].timer.next == m + 1
    requires ReadsAt(steps, states, n + 1, r, m)
    requires Draft(states[n + 1]) == Draft(states[n])[devices[m] := Stored(states[r], devices[m])]
    ensures DraftComplete(devices, steps, states, n + 1)
  {
    var k, types := m + 1, Types(devices, m + 1);
    TypesMore(devices, m);
    forall t | t in types ensures HasEntry(devices, steps, states, n + 1, k, t) {
      if t == devices[m] {
        assert EntryFrom(devices, steps, states, n + 1, k, t, r, m);
      } else {
        assert HasEntry(devices, steps, states, n, m, t);
        var q: nat, j: nat :| EntryFrom(devices, steps, states, n, m, t, q, j);
        AgainNext(devices, t, j, m);
        assert EntryFrom(devices, steps, states, n + 1, k, t, q, j);
      }
    }
  }

  lemma ReadDraft(devices: seq<string>, steps: seq<Step>, states: seq<State>, n: nat)
    requires IsRun(devices, steps, states) && n < |steps| && steps[n] == Read
    requires DraftComplete(devices, steps, states, n)
    ensures DraftComplete(devices, steps, states, n + 1)
  {
    if states[n + 1].timer.Clearing? {
      SameDraft(devices, steps, states, n);
    } else {
      NextDraft(devices, steps, states, n, n, states[n].timer.next);
    }
  }

  lemma ClearDraft(devices: seq<string>, steps: seq<Step>, states: seq<State>, n: nat)
    requires IsRun(devices, steps, states) && n < |steps| && steps[n] == Clear
    requires DraftComplete(devices, steps, states, n)
    ensures DraftComplete(devices, steps, states, n + 1)
  {
    var m, x := states[n].timer.next, states[n].timer.read;
    assert HandHasSource(devices, steps, states, n, m, x);
    var r: nat :| ReadsAt(steps, states, n, r, m) && Stored(states[r], devices[m]) == Some(x);
    assert ReadsAt(steps, states, n + 1, r, m);
    NextDraft(devices, steps, states, n, r, m);
  }

  lemma {:induction false} DraftIsComplete(devices: seq<string>, steps: seq<Step>, states: seq<State>, n: nat)
    requires IsRun(devices, steps, states) && n <= |steps|
    ensures DraftComplete(devices, steps, states, n)
  {
    if n > 0 {
      DraftIsComplete(devices, steps, states, n - 1);
      match steps[n - 1]
      case Collect(_) => if !states[n].timer.Idle? { SameDraft(devices, steps, states, n - 1); }
      case Begin => assert devices[..0] == [];
      case Read => ReadDraft(devices, steps, states, n - 1);
      case Clear => ClearDraft(devices, steps, states, n - 1);
      case Finish(_) =>
    }
  }

  lemma {:induction false} NextFits(devices: seq<string>, steps: seq<Step>, states: seq<State>, n: nat)
    requires IsRun(devices, steps, states) && n <= |steps|
    ensures !states[n].timer.Idle? ==> states[n].timer.next <= |devices|
    ensures states[n].timer.Clearing? ==> states[n].timer.next < |devices|
  {
    if n > 0 { NextFits(devices, steps, states, n - 1); }
  }

  /** In every run, samples come at any time, and the timer always has exactly one kind of step to take. */
  lemma AlwaysOneStep(devices: seq<string>, steps: seq<Step>, states: seq<State>, n: nat, t: string, registered: bool)
    requires IsRun(devices, steps, states) && n <= |steps|
    ensures Enabled(devices, states[n], Collect(t))
    ensures Enabled(devices, states[n], Begin) <==> states[n].timer == Idle
    ensures Enabled(devices, states[n], Clear) <==> states[n].timer.Clearing?
    ensures Enabled(devices, states[n], Finish(registered)) <==>
      states[n].timer.Reading? && states[n].timer.next == |devices|
    ensures Enabled(devices, states[n], Read) <==> states[n].timer.Reading? && states[n].timer.next != |devices|
  {
    NextFits(devices, steps, states, n);
  }

  /** A report is pushed at the end of a registered pass, one each, and at no other step. */
  lemma PushesOne(devices: seq<string>, s: State, step: Step)
    requires Enabled(devices, s, step)
    ensures step == Finish(true) ==> Apply(devices, s, step).pushed == s.pushed + [Draft(s)]
    ensures step != Finish(true) ==> Apply(devices, s, step).pushed == s.pushed
  {
  }

  /** The step that pushed a report. */
  lemma {:induction false} PushedBy(devices: seq<string>, steps: seq<Step>, states: seq<State>, n: nat, i: nat)
    returns (f: nat)
    requires IsRun(devices, steps, states) && n <= |steps| && i < |states[n].pushed|
    ensures f < n && steps[f] == Finish(true) && |states[f].pushed| == i && Draft(states[f]) == states[n].pushed[i]
  {
    PushesOne(devices, states[n - 1], steps[n - 1]);
    if i < |states[n - 1].pushed| { f := PushedBy(devices, steps, states, n - 1, i); } else { f := n - 1; }
  }

  /**
    In every run, every report has exactly the configured types as keys; the entry of a type is what was stored for it,
    or nothing, when the last device of the type was read in the pass that ended in the report.
   */
  lemma ReportIsComplete(devices: seq<string>, steps: seq<Step>, states: seq<State>, n: nat, i: nat, t: string)
    returns (f: nat, r: nat, j: nat)
    requires IsRun(devices, steps, states) && n <= |steps| && i < |states[n].pushed|
    ensures states[n].pushed[i].Keys == set u | u in devices
    ensures f < n && steps[f] == Finish(true) && |states[f].pushed| == i
    ensures t in devices ==>
      && j < |devices| && devices[j] == t && !Again(devices, t, j, |devices|) && ReadsAt(steps, states, f, r, j)
      && states[n].pushed[i][t] == if t in states[r].stored then Some(states[r].stored[t]) else None
  {
    f := PushedBy(devices, steps, states, n, i);
    DraftIsComplete(devices, steps, states, f);
    assert devices[..|devices|] == devices;
    r, j := 0, 0;
    if t in devices {
      assert HasEntry(devices, steps, states, f, |devices|, t);
      r, j :| EntryFrom(devices, steps, states, f, |devices|, t, r, j);
    }
  }

  // ---- Exactly which samples are reported ----

  /** No step between `c` and `n` concerns the type. */
  ghost predicate Quiet(devices: seq<string>, steps: seq<Step>, states: seq<State>, t: string, c: nat, n: nat)
    requires Sized(steps, states) && n <= |steps|
  {
    forall m :: c < m < n ==> !Concerns(devices, states[m], steps[m], t)
  }

  /** The next step after `c` that concerns the type is the timer reading it. */
  ghost predicate ReadNext(devices: seq<string>, steps: seq<Step>, states: seq<State>, t: string, c: nat, r: nat)
    requires Sized(steps, states)
  {
    c < r < |steps| && Quiet(devices, steps, states, t, c, r) && steps[r].Read? && Handles(devices, states[r], t)
  }

  /** The pass that is under way at `r` ends at `f`, and its report is pushed. */
  ghost predicate PassEnds(steps: seq<Step>, r: nat, f: nat) {
    r < f < |steps| && Unfinished(steps, r, f) && steps[f] == Finish(true)
  }

  /** It is read next, in a pass that ends in a report, and no later device of the pass has its type. */
  ghost predicate Scheduled(devices: seq<string>, steps: seq<Step>, states: seq<State>, t: string, c: nat, r: nat,
    f: nat)
    requires Sized(steps, states)
  {
    && ReadNext(devices, steps, states, t, c, r) && PassEnds(steps, r, f)
    && !Again(devices, t, states[r].timer.next, |devices|)
  }

  lemma {:induction false} WaitsWhileQuiet(devices: seq<string>, steps: seq<Step>, states: seq<State>, t: string,
    c: nat, n: nat)
    requires IsRun(devices, steps, states) && c < n <= |steps| && steps[c] == Collect(t)
    requires Quiet(devices, steps, states, t, c, n)
    ensures Waiting(devices, states[n], t, |states[c].collected|)
  {
    if n == c + 1 {
      RunKeepsInv(devices, steps, states, c);
      NewSampleWaits(devices, states[c], t);
    } else {
      WaitsWhileQuiet(devices, steps, states, t, c, n - 1);
      WaitingStep(devices, states[n - 1], steps[n - 1], t, |states[c].collected|);
    }
  }

  lemma {:induction false} TakenUntilFinish(devices: seq<string>, steps: seq<Step>, states: seq<State>, t: string,
    c: nat, r: nat, n: nat)
    requires IsRun(devices, steps, states) && c < |steps| && steps[c] == Collect(t)
    requires ReadNext(devices, steps, states, t, c, r) && r < n <= |steps| && Unfinished(steps, r, n)
    ensures Taken(devices, states[n], t, |states[c].collected|, states[r].timer.next)
  {
    var x := |states[c].collected|;
    if n == r + 1 {
      WaitsWhileQuiet(devices, steps, states, t, c, r);
      WaitingStep(devices, states[r], steps[r], t, x);
    } else {
      TakenUntilFinish(devices, steps, states, t, c, r, n - 1);
      TakenStep(devices, states[n - 1], steps[n - 1], t, x, states[r].timer.next);
    }
  }

  lemma {:induction false} GoneForEver(devices: seq<string>, steps: seq<Step>, states: seq<State>, n: nat, m: nat,
    t: string, x: nat)
    requires IsRun(devices, steps, states) && n <= m <= |steps| && Gone(devices, states[n], t, x)
    ensures Gone(devices, states[m], t, x)
  {
    if n < m {
      GoneForEver(devices, steps, states, n, m - 1, t, x);
      GoneStep(devices, states[m - 1], steps[m - 1], t, x);
    }
  }

  lemma {:induction false} ReportedForEver(devices: seq<string>, steps: seq<Step>, states: seq<State>, n: nat, m: nat,
    t: string, x: nat)
    requires IsRun(devices, steps, states) && n <= m <= |steps| && Reported(states[n], t, x)
    ensures Reported(states[m], t, x)
  {
    if n < m {
      ReportedForEver(devices, steps, states, n, m - 1, t, x);
      ReportedAfter(devices, states[m - 1], steps[m - 1], t, x);
    }
  }

  lemma ScheduledIsReported(devices: seq<string>, steps: seq<Step>, states: seq<State>, t: string, c: nat, r: nat,
    f: nat)
    requires IsRun(devices, steps, states) && c < |steps| && steps[c] == Collect(t)
    requires Scheduled(devices, steps, states, t, c, r, f)
    ensures Reported(states[|steps|], t, |states[c].collected|)
  {
    var x := |states[c].collected|;
    TakenUntilFinish(devices, steps, states, t, c, r, f);
    TakenEnds(devices, states[f], true, t, x, states[r].timer.next);
    ReportedForEver(devices, steps, states, f + 1, |steps|, t, x);
  }

  /** The first step after `c` that concerns the type, or the end of the run. */
  lemma {:induction false} NextConcern(devices: seq<string>, steps: seq<Step>, states: seq<State>, t: string, c: nat,
    n: nat)
    returns (r: nat)
    requires Sized(steps, states) && c < n <= |steps| && Quiet(devices, steps, states, t, c, n)
    ensures n <= r <= |steps| && Quiet(devices, steps, states, t, c, r)
    ensures r < |steps| ==> Concerns(devices, states[r], steps[r], t)
    decreases |steps| - n
  {
    if n == |steps| || Concerns(devices, states[n], steps[n], t) {
      r := n;
    } else {
      r := NextConcern(devices, steps, states, t, c, n + 1);
    }
  }

  lemma {:induction false} NextFinish(steps: seq<Step>, r: nat, n: nat) returns (f: nat)
    requires r < n <= |steps| && Unfinished(steps, r, n)
    ensures n <= f <= |steps| && Unfinished(steps, r, f) && (f < |steps| ==> steps[f].Finish?)
    decreases |steps| - n
  {
    if n == |steps| || steps[n].Finish? { f := n; } else { f := NextFinish(steps, r, n + 1); }
  }

  lemma ReportedIsScheduled(devices: seq<string>, steps: seq<Step>, states: seq<State>, t: string, c: nat)
    returns (r: nat, f: nat)
    requires IsRun(devices, steps, states) && c < |steps| && steps[c] == Collect(t)
    requires Reported(states[|steps|], t, |states[c].collected|)
    ensures Scheduled(devices, steps, states, t, c, r, f)
  {
    var x, end := |states[c].collected|, |steps|;
    r := NextConcern(devices, steps, states, t, c, c + 1);
    f := end;
    WaitsWhileQuiet(devices, steps, states, t, c, r);
    if r < end && !steps[r].Read? {
      WaitingStep(devices, states[r], steps[r], t, x);
      GoneForEver(devices, steps, states, r + 1, end, t, x);
    } else if r < end {
      f := NextFinish(steps, r, r + 1);
      TakenUntilFinish(devices, steps, states, t, c, r, f);
      if f < end {
        var i := states[r].timer.next;
        TakenEnds(devices, states[f], steps[f].registered, t, x, i);
        if !(steps[f].registered && !Again(devices, t, i, |devices|)) {
          GoneForEver(devices, steps, states, f + 1, end, t, x);
        }
      }
    }
  }

  /**
    In every run, the sample of a `Collect` step is in a pushed report if and only if the next step that concerns its
    type is the timer reading it, the pass under way then ends in a pushed report, and no later device of that pass has
    the same type.
   */
  lemma ReportedExactly(devices: seq<string>, steps: seq<Step>, states: seq<State>, t: string, c: nat)
    requires IsRun(devices, steps, states) && c < |steps| && steps[c] == Collect(t)
    ensures Reported(states[|steps|], t, |states[c].collected|) <==>
      exists r: nat, f: nat :: Scheduled(devices, steps, states, t, c, r, f)
  {
    if Reported(states[|steps|], t, |states[c].collected|) {
      var r, f := ReportedIsScheduled(devices, steps, states, t, c);
    }
    if r: nat, f: nat :| Scheduled(devices, steps, states, t, c, r, f) {
      ScheduledIsReported(devices, steps, states, t, c, r, f);
    }
  }

  /** Every sample stored between the read of its type and the clear is in no report, at any later time. */
  lemma {:induction false} LateSampleIsLost(devices: seq<string>, steps: seq<Step>, states: seq<State>, t: string,
    c: nat, n: nat)
    requires IsRun(devices, steps, states) && c < n <= |steps| && steps[c] == Collect(t)
    requires states[c].timer.Clearing? && Handles(devices, states[c], t)
    ensures !Reported(states[n], t, |states[c].collected|)
    ensures
      || Gone(devices, states[n], t, |states[c].collected|)
      || (states[n].timer.Clearing? && Handles(devices, states[n], t) &&
        Waiting(devices, states[n], t, |states[c].collected|))
  {
    var x := |states[c].collected|;
    if n == c + 1 {
      RunKeepsInv(devices, steps, states, c);
      NewSampleWaits(devices, states[c], t);
    } else {
      LateSampleIsLost(devices, steps, states, t, c, n - 1);
      var s, step := states[n - 1], steps[n - 1];
      if Gone(devices, s, t, x) { GoneStep(devices, s, step, t, x); } else { WaitingStep(devices, s, step, t, x); }
    }
  }

  // ---- A run that loses a sample ----

  lemma OneStepMore(devices: seq<string>, steps: seq<Step>, states: seq<State>, step: Step)
    returns (steps': seq<Step>, states': seq<State>)
    requires IsRun(devices, steps, states) && Enabled(devices, states[|steps|], step)
    ensures steps' == steps + [step] && states' == states + [Apply(devices, states[|steps|], step)]
    ensures IsRun(devices, steps', states')
  {
    steps', states' := steps + [step], states + [Apply(devices, states[|steps|], step)];
    forall i | 0 <= i < |steps'|
      ensures Enabled(devices, states'[i], steps'[i]) && states'[i + 1] == Apply(devices, states'[i], steps'[i])
    {
      if i < |steps| { assert states'[i] == states[i] && states'[i + 1] == states[i + 1] && steps'[i] == steps[i]; }
    }
  }

  /** Collected and read. */
  lemma FirstHalf(t: string) returns (steps: seq<Step>, states: seq<State>)
    ensures steps == [Collect(t), Begin, Read] && IsRun([t], steps, states)
    ensures states[3] == State([t], map[t := 0], Clearing(0, map[], 0), [])
  {
    var d := [t];
    steps, states := [], [Initial];
    steps, states := OneStepMore(d, steps, states, Collect(t));
    steps, states := OneStepMore(d, steps, states, Begin);
    steps, states := OneStepMore(d, steps, states, Read);
  }

  /** Collected again, cleared, reported: the second sample is gone. */
  lemma SecondSampleLost(t: string) returns (steps: seq<Step>, states: seq<State>)
    ensures steps == [Collect(t), Begin, Read] + [Collect(t)] + [Clear] + [Finish(true)]
    ensures IsRun([t], steps, states) && Reported(states[6], t, 0) && Gone([t], states[6], t, 1)
  {
    var d := [t];
    steps, states := FirstHalf(t);
    steps, states := OneStepMore(d, steps, states, Collect(t));
    steps, states := OneStepMore(d, steps, states, Clear);
    assert states[5] == State([t, t], map[], Reading(1, map[t := Some(0)]), []);
    steps, states := OneStepMore(d, steps, states, Finish(true));
    OnlyFirstReported(d, states[6], t);
  }

  lemma OnlyFirstReported(d: seq<string>, s: State, t: string)
    requires s == State([t, t], map[], Idle, [map[t := Some(0)]])
    ensures Reported(s, t, 0) && Gone(d, s, t, 1)
  {
    assert Holds(s.pushed[0], t, 0);
  }
}
