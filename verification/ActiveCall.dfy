/**
  One invocation of a Poco active method, as interleaved atomic steps of the invoking thread, of the worker thread
  and of the threads that hold result handles.  Reference counts, deletion and the result slots are explicit; an
  access to an object that is gone is not excluded but recorded as a fault.
 */
module ActiveCall {
  import opened Options

  /** What the called method does: return a value, or throw. */
  datatype Behaviour<V, E> = Returns(value: V) | Throws(error: E)

  /**
    How far the invoker is in `ActiveMethod::operator()` and `ActiveStarter::start`.  The `Fail` states unwind a
    launch that threw.  `elided` says that the local `result` itself became the caller's handle.
   */
  datatype Invoker =
    | Start | HasResult | HasRunnable | HasParam | Launched | Duplicated | ParamDropped
    | Returned(elided: bool) | PtrDropped | Done
    | FailParam | FailPtr | FailResult | Failed

  /** How far the worker is in `ActiveRunnable::run`. */
  datatype Worker = Idle | Ready | Running | Stored | Notified | Finished

  /** The runnable; `Dying` is between the count reaching zero and the end of its destructor. */
  datatype Runnable = NoRunnable | Live(count: int) | Dying | Gone

  /** The result holder. */
  datatype Holder<V, E> =
    | NoHolder
    | Alive(refs: int, data: Option<V>, exc: Option<E>, signalled: bool)
    | Deleted

  datatype Call<V, E> = Call(invoker: Invoker, worker: Worker, runnable: Runnable, holder: Holder<V, E>, fault: bool)

  /** The steps of the two threads of one call; `Return` hands a handle to the caller. */
  datatype Step<V, E> =
    | NewResult | NewRunnable | PassByValue | Launch | LaunchFails | Duplicate | DropParam
    | Return(elide: bool) | DropPtr | DropResult
    | Begin | Execute(behaviour: Behaviour<V, E>) | Notify | GuardReleases
    | DestroyRunnable

  function Initial<V, E>(): Call<V, E> { Call(Start, Idle, NoRunnable, NoHolder, false) }

  // ---- Operations on the two counted objects ----

  function DuplicateRunnable<V, E>(c: Call<V, E>): Call<V, E> {
    if c.runnable.Live? then c.(runnable := Live(c.runnable.count + 1)) else c.(fault := true)
  }

  function ReleaseRunnable<V, E>(c: Call<V, E>): Call<V, E> {
    if !c.runnable.Live? then c.(fault := true)
    else if c.runnable.count == 1 then c.(runnable := Dying)
    else c.(runnable := Live(c.runnable.count - 1))
  }

  function UseRunnable<V, E>(c: Call<V, E>): Call<V, E> {
    if c.runnable.Live? then c else c.(fault := true)
  }

  function DuplicateHolder<V, E>(c: Call<V, E>): Call<V, E> {
    if c.holder.Alive? then c.(holder := c.holder.(refs := c.holder.refs + 1)) else c.(fault := true)
  }

  function ReleaseHolder<V, E>(c: Call<V, E>): Call<V, E> {
    if !c.holder.Alive? then c.(fault := true)
    else if c.holder.refs == 1 then c.(holder := Deleted)
    else c.(holder := c.holder.(refs := c.holder.refs - 1))
  }

  /** `_result.data(v)` or `_result.error(e)`. */
  function Store<V, E>(c: Call<V, E>, b: Behaviour<V, E>): Call<V, E> {
    if !c.holder.Alive? then c.(fault := true)
    else
      match b
      case Returns(v) => c.(holder := c.holder.(data := Some(v)))
      case Throws(e) => c.(holder := c.holder.(exc := Some(e)))
  }

  function Signal<V, E>(c: Call<V, E>): Call<V, E> {
    if c.holder.Alive? then c.(holder := c.holder.(signalled := true)) else c.(fault := true)
  }

  // ---- Steps ----

  /** Only program order restricts the threads; nothing here asks whether an object still exists. */
  predicate Enabled<V, E>(c: Call<V, E>, step: Step<V, E>) {
    match step
    case NewResult => c.invoker.Start?
    case NewRunnable => c.invoker.HasResult?
    case PassByValue => c.invoker.HasRunnable?
    case Launch => c.invoker.HasParam?
    case LaunchFails => c.invoker.HasParam?
    case Duplicate => c.invoker.Launched?
    case DropParam => c.invoker.Duplicated? || c.invoker.FailParam?
    case Return(_) => c.invoker.ParamDropped?
    case DropPtr => c.invoker.Returned? || c.invoker.FailPtr?
    case DropResult => c.invoker.PtrDropped? || c.invoker.FailResult?
    case Begin => c.worker.Ready?
    case Execute(_) => c.worker.Running?
    case Notify => c.worker.Stored?
    case GuardReleases => c.worker.Notified?
    case DestroyRunnable => c.runnable.Dying?
  }

  function Apply<V, E>(c: Call<V, E>, step: Step<V, E>): Call<V, E>
    requires Enabled(c, step)
  {
    match step
    case NewResult => c.(invoker := HasResult, holder := Alive(1, None, None, false))
    case NewRunnable => DuplicateHolder(c.(invoker := HasRunnable, runnable := Live(1)))
    case PassByValue => DuplicateRunnable(c.(invoker := HasParam))
    case Launch => UseRunnable(c.(invoker := Launched, worker := Ready))
    case LaunchFails => c.(invoker := FailParam)
    case Duplicate => DuplicateRunnable(c.(invoker := Duplicated))
    case DropParam => ReleaseRunnable(c.(invoker := if c.invoker.Duplicated? then ParamDropped else FailPtr))
    case Return(elide) =>
      if elide then c.(invoker := Returned(true)) else DuplicateHolder(c.(invoker := Returned(false)))
    case DropPtr =>
      var next := if c.invoker.FailPtr? then FailResult else if c.invoker.elided then Done else PtrDropped;
      ReleaseRunnable(c.(invoker := next))
    case DropResult => ReleaseHolder(c.(invoker := if c.invoker.PtrDropped? then Done else Failed))
    case Begin => UseRunnable(c.(worker := Running))
    case Execute(b) => Store(UseRunnable(c.(worker := Stored)), b)
    case Notify => Signal(UseRunnable(c.(worker := Notified)))
    case GuardReleases => ReleaseRunnable(c.(worker := Finished))
    case DestroyRunnable => ReleaseHolder(c.(runnable := Gone))
  }

  /** Whether a step gives the caller one more handle. */
  function HandlesGiven<V, E>(step: Step<V, E>): nat { if step.Return? then 1 else 0 }

  // ---- Who holds a count ----

  function One(b: bool): nat { if b then 1 else 0 }

  predicate HoldsResult(i: Invoker) {
    !(i.Start? || i.Done? || i.Failed? || (i.Returned? && i.elided))
  }

  predicate HoldsPtr(i: Invoker) {
    || i.HasRunnable? || i.HasParam? || i.Launched? || i.Duplicated? || i.ParamDropped? || i.Returned?
    || i.FailParam? || i.FailPtr?
  }

  predicate HoldsParam(i: Invoker) { i.HasParam? || i.Launched? || i.Duplicated? || i.FailParam? }

  /** The invoker has added the count that the worker's guard gives back. */
  predicate AddedForWorker(i: Invoker) { i.Duplicated? || i.ParamDropped? || i.Returned? || i.PtrDropped? || i.Done? }

  predicate RunnableMade(i: Invoker) { !i.Start? && !i.HasResult? }

  predicate WasLaunched(i: Invoker) { i.Launched? || AddedForWorker(i) }

  /** The count the runnable ought to have; the worker may have given its count back before it was added. */
  function RunnableRefs(i: Invoker, w: Worker): int {
    One(HoldsPtr(i)) + One(HoldsParam(i)) + One(AddedForWorker(i)) - One(w.Finished?)
  }

  predicate ExactlyOne<V, E>(h: Holder<V, E>) {
    h.Alive? && (h.data.Some? <==> h.exc.None?)
  }

  /**
    The invariant of one call with `clients` handles in the hands of callers: both counts are the number of owners,
    an object is gone exactly when nobody owns it, and the result slots follow the worker.
   */
  ghost predicate CallOk<V(!new), E(!new)>(c: Call<V, E>, clients: nat) {
    && !c.fault
    && (c.worker.Idle? <==> !WasLaunched(c.invoker))
    && (match c.runnable
        case NoRunnable => !RunnableMade(c.invoker)
        case Live(n) => RunnableMade(c.invoker) && n == RunnableRefs(c.invoker, c.worker) > 0
        case Dying => RunnableMade(c.invoker) && RunnableRefs(c.invoker, c.worker) == 0
        case Gone => RunnableMade(c.invoker) && RunnableRefs(c.invoker, c.worker) == 0)
    && (match c.holder
        case NoHolder => c.invoker.Start? && clients == 0
        case Alive(n, _, _, _) => !c.invoker.Start? && n == HolderRefs(c, clients) > 0
        case Deleted => !c.invoker.Start? && HolderRefs(c, clients) == 0)
    && (c.holder.Alive? ==>
          if c.worker.Idle? || c.worker.Ready? || c.worker.Running?
          then c.holder.data.None? && c.holder.exc.None? && !c.holder.signalled
          else ExactlyOne(c.holder) && (c.holder.signalled <==> !c.worker.Stored?))
  }

  function HolderRefs<V, E>(c: Call<V, E>, clients: nat): nat {
    One(HoldsResult(c.invoker)) + One(c.runnable.Live? || c.runnable.Dying?) + clients
  }

  lemma InitialOk<V(!new), E(!new)>()
    ensures CallOk(Initial<V, E>(), 0)
  {
  }

  // ---- Step by step ----

  lemma CreationKeepsOk<V(!new), E(!new)>(c: Call<V, E>, step: Step<V, E>, clients: nat)
    requires CallOk(c, clients) && Enabled(c, step) && (step.NewResult? || step.NewRunnable?)
    ensures CallOk(Apply(c, step), clients + HandlesGiven(step))
  {
  }

  lemma PassKeepsOk<V(!new), E(!new)>(c: Call<V, E>, step: Step<V, E>, clients: nat)
    requires CallOk(c, clients) && Enabled(c, step) && step.PassByValue?
    ensures CallOk(Apply(c, step), clients + HandlesGiven(step))
  {
  }

  lemma LaunchKeepsOk<V(!new), E(!new)>(c: Call<V, E>, step: Step<V, E>, clients: nat)
    requires CallOk(c, clients) && Enabled(c, step) && (step.Launch? || step.LaunchFails?)
    ensures CallOk(Apply(c, step), clients + HandlesGiven(step))
  {
  }

  lemma DuplicateKeepsOk<V(!new), E(!new)>(c: Call<V, E>, step: Step<V, E>, clients: nat)
    requires CallOk(c, clients) && Enabled(c, step) && step.Duplicate?
    ensures CallOk(Apply(c, step), clients + HandlesGiven(step))
  {
  }

  lemma DropParamKeepsOk<V(!new), E(!new)>(c: Call<V, E>, step: Step<V, E>, clients: nat)
    requires CallOk(c, clients) && Enabled(c, step) && step.DropParam?
    ensures CallOk(Apply(c, step), clients + HandlesGiven(step))
  {
  }

  lemma ReturnKeepsOk<V(!new), E(!new)>(c: Call<V, E>, step: Step<V, E>, clients: nat)
    requires CallOk(c, clients) && Enabled(c, step) && step.Return?
    ensures CallOk(Apply(c, step), clients + HandlesGiven(step))
  {
  }

  lemma DropPtrKeepsOk<V(!new), E(!new)>(c: Call<V, E>, step: Step<V, E>, clients: nat)
    requires CallOk(c, clients) && Enabled(c, step) && step.DropPtr?
    ensures CallOk(Apply(c, step), clients + HandlesGiven(step))
  {
  }

  lemma DropResultKeepsOk<V(!new), E(!new)>(c: Call<V, E>, step: Step<V, E>, clients: nat)
    requires CallOk(c, clients) && Enabled(c, step) && step.DropResult?
    ensures CallOk(Apply(c, step), clients + HandlesGiven(step))
  {
  }

  lemma BeginKeepsOk<V(!new), E(!new)>(c: Call<V, E>, step: Step<V, E>, clients: nat)
    requires CallOk(c, clients) && Enabled(c, step) && step.Begin?
    ensures CallOk(Apply(c, step), clients + HandlesGiven(step))
  {
  }

  lemma ExecuteKeepsOk<V(!new), E(!new)>(c: Call<V, E>, step: Step<V, E>, clients: nat)
    requires CallOk(c, clients) && Enabled(c, step) && step.Execute?
    ensures CallOk(Apply(c, step), clients + HandlesGiven(step))
  {
  }

  lemma NotifyKeepsOk<V(!new), E(!new)>(c: Call<V, E>, step: Step<V, E>, clients: nat)
    requires CallOk(c, clients) && Enabled(c, step) && step.Notify?
    ensures CallOk(Apply(c, step), clients + HandlesGiven(step))
  {
  }

  lemma GuardKeepsOk<V(!new), E(!new)>(c: Call<V, E>, step: Step<V, E>, clients: nat)
    requires CallOk(c, clients) && Enabled(c, step) && step.GuardReleases?
    ensures CallOk(Apply(c, step), clients + HandlesGiven(step))
  {
  }

  lemma DestroyRunnableKeepsOk<V(!new), E(!new)>(c: Call<V, E>, step: Step<V, E>, clients: nat)
    requires CallOk(c, clients) && Enabled(c, step) && step.DestroyRunnable?
    ensures CallOk(Apply(c, step), clients + HandlesGiven(step))
  {
  }

  /** No step of either thread breaks the invariant; in particular no step ever touches a dead object. */
  lemma StepKeepsOk<V(!new), E(!new)>(c: Call<V, E>, step: Step<V, E>, clients: nat)
    requires CallOk(c, clients) && Enabled(c, step)
    ensures CallOk(Apply(c, step), clients + HandlesGiven(step))
  {
    match step
    case NewResult => CreationKeepsOk(c, step, clients);
    case NewRunnable => CreationKeepsOk(c, step, clients);
    case PassByValue => PassKeepsOk(c, step, clients);
    case Launch => LaunchKeepsOk(c, step, clients);
    case LaunchFails => LaunchKeepsOk(c, step, clients);
    case Duplicate => DuplicateKeepsOk(c, step, clients);
    case DropParam => DropParamKeepsOk(c, step, clients);
    case Return(_) => ReturnKeepsOk(c, step, clients);
    case DropPtr => DropPtrKeepsOk(c, step, clients);
    case DropResult => DropResultKeepsOk(c, step, clients);
    case Begin => BeginKeepsOk(c, step, clients);
    case Execute(_) => ExecuteKeepsOk(c, step, clients);
    case Notify => NotifyKeepsOk(c, step, clients);
    case GuardReleases => GuardKeepsOk(c, step, clients);
    case DestroyRunnable => DestroyRunnableKeepsOk(c, step, clients);
  }

  /** A caller copies one of its handles, or destroys one. */
  lemma CopyKeepsOk<V(!new), E(!new)>(c: Call<V, E>, clients: nat)
    requires CallOk(c, clients) && clients > 0
    ensures CallOk(DuplicateHolder(c), clients + 1)
  {
  }

  lemma DestroyKeepsOk<V(!new), E(!new)>(c: Call<V, E>, clients: nat)
    requires CallOk(c, clients) && clients > 0
    ensures CallOk(ReleaseHolder(c), clients - 1)
  {
  }

  // ---- What a fault is ----

  /** These steps count, uncount or read the runnable ... */
  predicate UsesRunnable<V, E>(step: Step<V, E>) {
    || step.PassByValue? || step.Launch? || step.Duplicate? || step.DropParam? || step.DropPtr?
    || step.Begin? || step.Execute? || step.Notify? || step.GuardReleases?
  }

  /** ... and these the holder. */
  predicate UsesHolder<V, E>(step: Step<V, E>) {
    || step.NewRunnable? || step == Return(false) || step.DropResult? || step.DestroyRunnable?
    || step.Execute? || step.Notify?
  }

  /** A step that touches an object that is not alive is a fault, nothing else is, and no fault is forgotten. */
  lemma FaultExactly<V(!new), E(!new)>(c: Call<V, E>, step: Step<V, E>)
    requires Enabled(c, step)
    ensures Apply(c, step).fault <==>
      || c.fault
      || (UsesRunnable(step) && !c.runnable.Live?)
      || (UsesHolder(step) && !c.holder.Alive?)
  {
  }

  /** The same for the callers' copies and destructions. */
  lemma HandleFaultExactly<V(!new), E(!new)>(c: Call<V, E>)
    ensures DuplicateHolder(c).fault <==> c.fault || !c.holder.Alive?
    ensures ReleaseHolder(c).fault <==> c.fault || !c.holder.Alive?
  {
  }

  // ---- No schedule is left out ----

  predicate IsWorkers<V, E>(step: Step<V, E>) {
    step.Begin? || step.Execute? || step.Notify? || step.GuardReleases?
  }

  /** Neither thread waits for the other: whether it can go on is a matter of its own place in the program. */
  lemma ThreadsAreFree<V(!new), E(!new)>(c: Call<V, E>, c': Call<V, E>, step: Step<V, E>)
    ensures step.DestroyRunnable? ==> (Enabled(c, step) <==> c.runnable == Dying)
    ensures IsWorkers(step) && c.worker == c'.worker ==> Enabled(c, step) == Enabled(c', step)
    ensures !IsWorkers(step) && !step.DestroyRunnable? && c.invoker == c'.invoker ==>
      Enabled(c, step) == Enabled(c', step)
  {
  }

  ghost predicate Goes<V(!new), E(!new)>(c: Call<V, E>, step: Step<V, E>, c': Call<V, E>) {
    Enabled(c, step) && c' == Apply(c, step)
  }

  /** The invoker gets as far as launching the worker ... */
  lemma CallLaunches<V(!new), E(!new)>() returns (cs: seq<Call<V, E>>)
    ensures |cs| == 5 && cs[0] == Call(Start, Idle, NoRunnable, NoHolder, false)
    ensures Goes(cs[0], NewResult, cs[1]) && Goes(cs[1], NewRunnable, cs[2])
    ensures Goes(cs[2], PassByValue, cs[3]) && cs[3].invoker == HasParam && Goes(cs[3], Launch, cs[4])
    ensures cs[4] == Call(Launched, Ready, Live(2), Alive(2, None, None, false), false)
  {
    var c1 := Apply(Initial<V, E>(), NewResult);
    var c2 := Apply(c1, NewRunnable);
    var c3 := Apply(c2, PassByValue);
    cs := [Initial(), c1, c2, c3, Apply(c3, Launch)];
  }

  /** ... the worker to its end, whatever the called method does, and then the outcome is there to be waited for ... */
  lemma WorkerRuns<V(!new), E(!new)>(c: Call<V, E>, n: int, b: Behaviour<V, E>) returns (cs: seq<Call<V, E>>)
    requires c.worker.Ready? && c.runnable.Live? && c.holder == Alive(n, None, None, false)
    ensures |cs| == 5 && cs[0] == c && Goes(cs[0], Begin, cs[1]) && Goes(cs[1], Execute(b), cs[2])
    ensures Goes(cs[2], Notify, cs[3]) && Goes(cs[3], GuardReleases, cs[4]) && cs[4].invoker == c.invoker
    ensures b.Returns? ==> cs[4].holder == Alive(n, Some(b.value), None, true)
    ensures b.Throws? ==> cs[4].holder == Alive(n, None, Some(b.error), true)
  {
    var c1 := Apply(c, Begin);
    var c2 := Apply(c1, Execute(b));
    var c3 := Apply(c2, Notify);
    cs := [c, c1, c2, c3, Apply(c3, GuardReleases)];
  }

  /** ... and the invoker to its own, in both ways of returning ... */
  lemma InvokerReturns<V(!new), E(!new)>(c: Call<V, E>, elide: bool) returns (cs: seq<Call<V, E>>)
    requires c.invoker.Launched?
    ensures |cs| == 6 && cs[0] == c && Goes(cs[0], Duplicate, cs[1]) && Goes(cs[1], DropParam, cs[2])
    ensures Goes(cs[2], Return(elide), cs[3]) && Goes(cs[3], DropPtr, cs[4])
    ensures if elide then cs[5] == cs[4] else Goes(cs[4], DropResult, cs[5])
    ensures cs[5].invoker == Done && cs[5].worker == c.worker
  {
    var c1 := Apply(c, Duplicate);
    var c2 := Apply(c1, DropParam);
    var c3 := Apply(c2, Return(elide));
    var c4 := Apply(c3, DropPtr);
    cs := [c, c1, c2, c3, c4, if elide then c4 else Apply(c4, DropResult)];
  }

  /** ... and when the launch fails. */
  lemma LaunchMayFail<V(!new), E(!new)>(c: Call<V, E>) returns (cs: seq<Call<V, E>>)
    requires c.invoker.HasParam?
    ensures |cs| == 5 && cs[0] == c && Goes(cs[0], LaunchFails, cs[1]) && Goes(cs[1], DropParam, cs[2])
    ensures Goes(cs[2], DropPtr, cs[3]) && Goes(cs[3], DropResult, cs[4])
    ensures cs[4].invoker == Failed && cs[4].worker == c.worker
  {
    var c1 := Apply(c, LaunchFails);
    var c2 := Apply(c1, DropParam);
    var c3 := Apply(c2, DropPtr);
    cs := [c, c1, c2, c3, Apply(c3, DropResult)];
  }

  // ---- Consequences ----

  /** Some thread of the call may still use the runnable. */
  predicate RunnableInUse<V, E>(c: Call<V, E>) {
    HoldsPtr(c.invoker) || HoldsParam(c.invoker) || (WasLaunched(c.invoker) && !c.worker.Finished?)
  }

  /** The count is positive exactly while some thread may still use the runnable. */
  lemma InUseIsLive<V(!new), E(!new)>(c: Call<V, E>, clients: nat)
    requires CallOk(c, clients)
    ensures RunnableInUse(c) <==> c.runnable.Live?
    ensures c.runnable.Live? ==> c.runnable.count > 0
  {
  }

  /** Creation, life, death: no object goes back, so its count reaches zero at most once. */
  predicate NoGoingBack<V, E>(c: Call<V, E>, c': Call<V, E>) {
    && (!c.runnable.NoRunnable? ==> !c'.runnable.NoRunnable?)
    && (c.runnable.Dying? ==> c'.runnable.Dying? || c'.runnable.Gone?)
    && (c.runnable.Gone? ==> c'.runnable.Gone?)
    && (!c.holder.NoHolder? ==> !c'.holder.NoHolder?)
    && (c.holder.Deleted? ==> c'.holder.Deleted?)
  }

  /** The result slots of a signalled holder stay as they are for as long as the holder lives. */
  predicate ResultKept<V(==), E(==)>(c: Call<V, E>, c': Call<V, E>) {
    c.holder.Alive? && c.holder.signalled && c'.holder.Alive? ==>
      c'.holder.signalled && c'.holder.data == c.holder.data && c'.holder.exc == c.holder.exc
  }

  lemma StepGoesForward<V(!new), E(!new)>(c: Call<V, E>, step: Step<V, E>, clients: nat)
    requires CallOk(c, clients) && Enabled(c, step)
    ensures NoGoingBack(c, Apply(c, step)) && ResultKept(c, Apply(c, step))
  {
    StepKeepsResult(c, step, clients);
  }

  lemma StepKeepsResult<V(!new), E(!new)>(c: Call<V, E>, step: Step<V, E>, clients: nat)
    requires CallOk(c, clients) && Enabled(c, step)
    ensures ResultKept(c, Apply(c, step))
  {
  }

  /** So it is when callers copy and destroy their handles, and when nothing happens to the call. */
  lemma HandlesGoForward<V(!new), E(!new)>(c: Call<V, E>)
    ensures NoGoingBack(c, c) && ResultKept(c, c)
    ensures c.holder.Alive? ==> NoGoingBack(c, DuplicateHolder(c)) && ResultKept(c, DuplicateHolder(c))
    ensures c.holder.Alive? ==> NoGoingBack(c, ReleaseHolder(c)) && ResultKept(c, ReleaseHolder(c))
  {
  }

  /** How many steps the two threads of a call can still take. */
  function StepsLeft<V, E>(c: Call<V, E>): nat {
    InvokerSteps(c.invoker) + WorkerSteps(c.worker) + One(c.runnable.Dying?)
  }

  function InvokerSteps(i: Invoker): nat {
    match i
    case Start => 20 case HasResult => 19 case HasRunnable => 18 case HasParam => 17
    case Launched => 7 case Duplicated => 6 case ParamDropped => 5 case Returned(_) => 4 case PtrDropped => 2
    case Done => 0 case FailParam => 6 case FailPtr => 4 case FailResult => 2 case Failed => 0
  }

  function WorkerSteps(w: Worker): nat {
    match w case Idle => 0 case Ready => 5 case Running => 4 case Stored => 3 case Notified => 2 case Finished => 0
  }

  predicate IsWork<V, E>(step: Step<V, E>) {
    step.Begin? || step.Execute? || step.Notify? || step.GuardReleases? || step.DestroyRunnable?
  }

  predicate IsDrop<V, E>(step: Step<V, E>) {
    step.DropParam? || step.DropPtr? || step.DropResult?
  }

  lemma WorkRunsOut<V(!new), E(!new)>(c: Call<V, E>, step: Step<V, E>, clients: nat)
    requires CallOk(c, clients) && Enabled(c, step) && IsWork(step)
    ensures StepsLeft(Apply(c, step)) < StepsLeft(c)
  {
  }

  lemma DropsRunOut<V(!new), E(!new)>(c: Call<V, E>, step: Step<V, E>, clients: nat)
    requires CallOk(c, clients) && Enabled(c, step) && IsDrop(step)
    ensures StepsLeft(Apply(c, step)) < StepsLeft(c)
  {
  }

  lemma OthersRunOut<V(!new), E(!new)>(c: Call<V, E>, step: Step<V, E>, clients: nat)
    requires CallOk(c, clients) && Enabled(c, step) && !IsWork(step) && !IsDrop(step)
    ensures StepsLeft(Apply(c, step)) < StepsLeft(c)
  {
  }

  /** Every schedule of a call is finite. */
  lemma StepsRunOut<V(!new), E(!new)>(c: Call<V, E>, step: Step<V, E>, clients: nat)
    requires CallOk(c, clients) && Enabled(c, step)
    ensures StepsLeft(Apply(c, step)) < StepsLeft(c)
  {
    if IsWork(step) {
      WorkRunsOut(c, step, clients);
    } else if IsDrop(step) {
      DropsRunOut(c, step, clients);
    } else {
      OthersRunOut(c, step, clients);
    }
  }

  /** Neither thread has anything left to do. */
  predicate Quiescent<V, E>(c: Call<V, E>) {
    && (c.invoker.Done? || c.invoker.Failed?)
    && (c.worker.Idle? || c.worker.Finished?)
    && !c.runnable.Dying?
  }

  /** A call that is not finished can go on. */
  lemma NeverStuck<V(!new), E(!new)>(c: Call<V, E>, clients: nat, b: Behaviour<V, E>) returns (step: Step<V, E>)
    requires CallOk(c, clients) && !Quiescent(c)
    ensures Enabled(c, step)
  {
    if c.runnable.Dying? { return DestroyRunnable; }
    match c.worker
    case Ready => return Begin;
    case Running => return Execute(b);
    case Stored => return Notify;
    case Notified => return GuardReleases;
    case _ =>
      step := match c.invoker
        case Start => NewResult case HasResult => NewRunnable case HasRunnable => PassByValue case HasParam => Launch
        case Launched => Duplicate case Duplicated => DropParam case ParamDropped => Return(true)
        case Returned(_) => DropPtr case PtrDropped => DropResult case FailParam => DropParam
        case FailPtr => DropPtr case _ => DropResult;
  }

  /** A finished call leaks nothing: the runnable is gone, and so is the holder once the last handle is. */
  lemma NothingLeaks<V(!new), E(!new)>(c: Call<V, E>, clients: nat)
    requires CallOk(c, clients) && Quiescent(c)
    ensures c.runnable == Gone
    ensures c.holder.Deleted? <==> clients == 0
  {
  }
}
