/** A whole process as one transition system: the SnapStart lifecycle, hook by hook and request by request,
    then the workers, all over one client whose pool is looked up each time a request is sent. */
module WholeRun {
  import opened Common
  import opened Runs
  import Invocation
  import SnapStart
  import WorkerPool

  /** How far a process has got. */
  datatype Phase =
    | BeforeHooks(left: nat)
    | AwaitRestore
    | ResetPool
    | AfterHooks(done: nat)
    | Reporting(kind: SnapStart.ReportKind, error: SnapStart.Error)
    | Serving
    | Over(outcome: SnapStart.Outcome)

  /** `log` is everything observable so far. */
  datatype Process = Process(
    snapStart: bool, world: SnapStart.World, phase: Phase,
    client: SnapStart.Client, workers: WorkerPool.State, log: seq<SnapStart.Event>)
  {
    function Goto(next: Phase): Process { this.(phase := next) }

    function Logs(e: SnapStart.Event): Process { this.(log := log + [e]) }

    /** A request leaves through the pool that the client uses at this moment. */
    function Send(endpoint: SnapStart.Endpoint): Process { Logs(SnapStart.Call(client.Pool(), endpoint)) }
  }

  datatype Event = Advance | Work(event: WorkerPool.Event)

  /** How a process is started. */
  datatype Start = Start(
    snapStart: bool, world: SnapStart.World,
    limit: nat, traced: bool, behaviour: iset<(string, Invocation.Handler)>)

  function Workers(s: Start): WorkerPool.State { WorkerPool.Init(s.limit, s.traced, s.behaviour) }

  /** Outside a SnapStart environment the lifecycle is skipped. */
  function Init(s: Start): Process {
    Process(s.snapStart, s.world, if s.snapStart then BeforeHooks(|s.world.before|) else Serving,
            SnapStart.NewClient(), Workers(s), [])
  }

  /** After a hook: on to the next phase, or to the report of its error, or out with a panic. */
  function AfterHook(p: Process, h: SnapStart.HookOutcome, kind: SnapStart.ReportKind, next: Phase): Process {
    match h
    case Passes => p.Goto(next)
    case Panics => p.Goto(Over(SnapStart.Unwound))
    case Fails(error, displayPanics) =>
      p.Goto(if displayPanics then Over(SnapStart.Unwound) else Reporting(kind, error))
  }

  /** The next step of the lifecycle. */
  function Lifecycle(p: Process): Option<Process> {
    var w := p.world;
    match p.phase
    case BeforeHooks(left) =>
      if left > |w.before| then None
      else if left > 0 then
        Some(AfterHook(p.Logs(SnapStart.Before(left - 1)), w.before[left - 1], SnapStart.Init, BeforeHooks(left - 1)))
      else
        Some(match w.nextBuild
             case Some(error) => p.Goto(Over(SnapStart.Failed(error)))
             case None => p.Send(SnapStart.RestoreNext).Goto(AwaitRestore))
    case AwaitRestore =>
      Some(match SnapStart.NextError(w)
           case Some(error) => p.Goto(Reporting(SnapStart.Init, error))
           case None => p.Goto(ResetPool))
    case ResetPool => Some(p.(client := p.client.Reset()).Logs(SnapStart.Reset).Goto(AfterHooks(0)))
    case AfterHooks(done) =>
      if done >= |w.after| then Some(p.Goto(Serving))
      else Some(AfterHook(p.Logs(SnapStart.After(done)), w.after[done], SnapStart.Restore, AfterHooks(done + 1)))
    case Reporting(kind, error) =>
      var q := p.Logs(SnapStart.Report(kind));
      Some((if w.reportBuild.Some? then q
            else q.Send(if kind.Init? then SnapStart.InitError else SnapStart.RestoreError))
           .Goto(Over(SnapStart.Failed(error))))
    case Serving => None
    case Over(_) => None
  }

  function Step(p: Process, e: Event): Option<Process> {
    match e
    case Advance => Lifecycle(p)
    case Work(event) =>
      if !p.phase.Serving? || WorkerPool.Step(p.workers, event).None? then None
      else
        var q := match WorkerPool.Sends(p.workers, event)
                 case None => p
                 case Some(endpoint) => p.Send(endpoint);
        Some(q.(workers := WorkerPool.Step(p.workers, event).value))
  }

  predicate FromWorkers(e: SnapStart.Event) {
    e.Call? && (e.endpoint.NextInvocation? || e.endpoint.InvocationAnswer?)
  }

  /* ---------- where every phase stands ---------- */

  predicate PassedFrom(hooks: seq<SnapStart.HookOutcome>, lo: nat, hi: nat) {
    forall k :: lo <= k < hi && k < |hooks| ==> hooks[k].Passes?
  }

  /** What the phase says about the hooks, the API's replies and the log. */
  ghost predicate PhaseInv(p: Process) {
    var w, n := p.world, |p.world.before|;
    var asked := SnapStart.Downwards(n, 0) + [SnapStart.Call(0, SnapStart.RestoreNext)];
    match p.phase
    case BeforeHooks(left) =>
      left <= n && PassedFrom(w.before, left, n) && p.log == SnapStart.Downwards(n, left)
    case AwaitRestore => PassedFrom(w.before, 0, n) && w.nextBuild.None? && p.log == asked
    case ResetPool => SnapStart.Restored(w) && p.log == asked
    case AfterHooks(done) =>
      && SnapStart.Restored(w) && done <= |w.after| && PassedFrom(w.after, 0, done)
      && p.log == asked + ([SnapStart.Reset] + SnapStart.Upwards(done))
    case Reporting(kind, error) =>
      SnapStart.Ending(w) == (SnapStart.Failed(error), Some(kind)) && p.log == SnapStart.Work(w, 0)
    case Over(outcome) => SnapStart.Lifecycle(w, 0, 1) == (outcome, p.log)
    case Serving =>
      var before := if p.snapStart then SnapStart.Lifecycle(w, 0, 1).1 else [];
      && (p.snapStart ==> SnapStart.Ending(w).0.Completed?)
      && before <= p.log && forall i :: |before| <= i < |p.log| ==> FromWorkers(p.log[i])
  }

  /** The pool has been reset. */
  predicate HasReset(p: Process) {
    p.snapStart
    && match p.phase
       case AfterHooks(_) => true
       case Serving => true
       case Reporting(kind, _) => kind.Restore?
       case Over(_) => SnapStart.Restored(p.world)
       case _ => false
  }

  /** The write-once cell is written exactly by the reset, which happens at most once. */
  ghost predicate ClientInv(p: Process) {
    p.client == if HasReset(p) then SnapStart.NewClient().Reset() else SnapStart.NewClient()
  }

  /** The pool a request must leave through. */
  function PoolFor(snapStart: bool, endpoint: SnapStart.Endpoint): nat {
    if snapStart && !endpoint.RestoreNext? && !endpoint.InitError? then 1 else 0
  }

  ghost predicate CallsInv(p: Process) {
    forall i :: 0 <= i < |p.log| && p.log[i].Call? ==> p.log[i].pool == PoolFor(p.snapStart, p.log[i].endpoint)
  }

  ghost predicate Inv(p: Process) {
    && p.world.Valid() && (!p.snapStart ==> p.phase.Serving?)
    && PhaseInv(p) && ClientInv(p) && CallsInv(p)
  }

  lemma BeforeHookKeepsPhase(p: Process)
    requires PhaseInv(p) && p.phase.BeforeHooks? && p.phase.left > 0
    ensures Lifecycle(p).Some? && PhaseInv(Lifecycle(p).value)
  {
    var w, n, left := p.world, |p.world.before|, p.phase.left;
    assert SnapStart.Downwards(n, left - 1) == SnapStart.Downwards(n, left) + [SnapStart.Before(left - 1)];
    if !w.before[left - 1].Passes? {
      StopsAtLast(w.before, left - 1);
      SnapStart.StoppedBefore(w, 0, 1);
      SilentEnding(w);
    }
  }

  lemma StopsAtLast(hooks: seq<SnapStart.HookOutcome>, k: nat)
    requires k < |hooks| && !hooks[k].Passes? && PassedFrom(hooks, k + 1, |hooks|)
    ensures SnapStart.LastStop(hooks) == Some(k)
  {
    SnapStart.LastStopFacts(hooks);
  }

  lemma StopsAtFirst(hooks: seq<SnapStart.HookOutcome>, k: nat)
    requires k < |hooks| && !hooks[k].Passes? && PassedFrom(hooks, 0, k)
    ensures SnapStart.FirstStop(hooks) == Some(k)
  {
    SnapStart.FirstStopFacts(hooks);
  }

  lemma AllPassed(hooks: seq<SnapStart.HookOutcome>)
    requires PassedFrom(hooks, 0, |hooks|)
    ensures SnapStart.LastStop(hooks).None? && SnapStart.FirstStop(hooks).None?
  {
    SnapStart.LastStopFacts(hooks);
    SnapStart.FirstStopFacts(hooks);
  }

  /** An ending without a report adds nothing to the work done. */
  lemma SilentEnding(w: SnapStart.World)
    ensures SnapStart.Ending(w).1.None? ==>
              SnapStart.Lifecycle(w, 0, 1) == (SnapStart.Ending(w).0, SnapStart.Work(w, 0))
  {
    assert SnapStart.Work(w, 0) + [] == SnapStart.Work(w, 0);
  }

  lemma AskingKeepsPhase(p: Process)
    requires PhaseInv(p) && p.phase.BeforeHooks? && p.phase.left == 0 && p.client.Pool() == 0
    ensures Lifecycle(p).Some? && PhaseInv(Lifecycle(p).value)
  {
    AllPassed(p.world.before);
    if p.world.nextBuild.Some? {
      SnapStart.WorkWithoutRequest(p.world, 0);
      SilentEnding(p.world);
    }
  }

  lemma ReplyKeepsPhase(p: Process)
    requires PhaseInv(p) && p.phase.AwaitRestore?
    ensures Lifecycle(p).Some? && PhaseInv(Lifecycle(p).value)
  {
    AllPassed(p.world.before);
    if SnapStart.NextError(p.world).Some? {
      SnapStart.WorkWithRequest(p.world, 0);
    }
  }

  lemma AfterHookKeepsPhase(p: Process)
    requires PhaseInv(p) && p.phase.AfterHooks? && p.phase.done < |p.world.after|
    ensures Lifecycle(p).Some? && PhaseInv(Lifecycle(p).value)
  {
    var w, n, done := p.world, |p.world.before|, p.phase.done;
    var asked := SnapStart.Downwards(n, 0) + [SnapStart.Call(0, SnapStart.RestoreNext)];
    assert SnapStart.Upwards(done + 1) == SnapStart.Upwards(done) + [SnapStart.After(done)];
    SnapStart.Regroup(asked, [SnapStart.Reset] + SnapStart.Upwards(done), [SnapStart.After(done)]);
    SnapStart.Regroup([SnapStart.Reset], SnapStart.Upwards(done), [SnapStart.After(done)]);
    if !w.after[done].Passes? {
      StopsAtFirst(w.after, done);
      SnapStart.WorkWhenRestored(w, 0);
      SnapStart.StoppedAfter(w, 0, 1);
      SilentEnding(w);
    }
  }

  lemma ServingStarts(p: Process)
    requires PhaseInv(p) && p.phase.AfterHooks? && p.phase.done == |p.world.after| && p.snapStart
    ensures Lifecycle(p) == Some(p.Goto(Serving)) && PhaseInv(Lifecycle(p).value)
    ensures SnapStart.Lifecycle(p.world, 0, 1) == (SnapStart.Completed, p.log)
  {
    AllPassed(p.world.after);
    SnapStart.WorkWhenRestored(p.world, 0);
    SilentEnding(p.world);
  }

  lemma ResetKeepsPhase(p: Process)
    requires PhaseInv(p) && p.phase.ResetPool?
    ensures Lifecycle(p).Some? && PhaseInv(Lifecycle(p).value)
  {
    assert [SnapStart.Reset] + SnapStart.Upwards(0) == [SnapStart.Reset];
  }

  lemma ReportKeepsPhase(p: Process)
    requires PhaseInv(p) && p.phase.Reporting? && p.client.Pool() == (if p.phase.kind.Init? then 0 else 1)
    ensures Lifecycle(p).Some? && PhaseInv(Lifecycle(p).value)
  {
    var w, kind, pool := p.world, p.phase.kind, p.client.Pool();
    assert SnapStart.Tail(w, 0, 1) == SnapStart.ReportEvents(w, kind, pool);
    var call := SnapStart.Call(pool, if kind.Init? then SnapStart.InitError else SnapStart.RestoreError);
    if w.reportBuild.Some? {
      assert [SnapStart.Report(kind)] + [] == [SnapStart.Report(kind)];
    } else {
      SnapStart.Regroup(p.log, [SnapStart.Report(kind)], [call]);
    }
  }

  /** A report goes to `/restore/error` exactly after the restore. */
  lemma EndingKind(w: SnapStart.World)
    ensures SnapStart.Ending(w).1.Some? ==> (SnapStart.Ending(w).1.value.Restore? <==> SnapStart.Restored(w))
  {
    SnapStart.LastStopFacts(w.before);
    SnapStart.FirstStopFacts(w.after);
  }

  lemma LifecycleKeepsPhase(p: Process)
    requires Inv(p) && Lifecycle(p).Some?
    ensures PhaseInv(Lifecycle(p).value)
  {
    match p.phase
    case BeforeHooks(left) => if left > 0 { BeforeHookKeepsPhase(p); } else { AskingKeepsPhase(p); }
    case AwaitRestore => ReplyKeepsPhase(p);
    case ResetPool => ResetKeepsPhase(p);
    case AfterHooks(done) => if done < |p.world.after| { AfterHookKeepsPhase(p); } else { ServingStarts(p); }
    case Reporting(_, _) => ReportKeepsPhase(p);
  }

  lemma LifecycleKeepsClient(p: Process)
    requires Inv(p) && Lifecycle(p).Some?
    ensures ClientInv(Lifecycle(p).value)
  {
    EndingKind(p.world);
    SnapStart.LastStopFacts(p.world.before);
    match p.phase
    case BeforeHooks(left) =>
      if left > 0 && !p.world.before[left - 1].Passes? {
        assert SnapStart.LastStop(p.world.before) == Some(left - 1);
      }
    case _ =>
  }

  lemma LifecycleKeepsCalls(p: Process)
    requires Inv(p) && Lifecycle(p).Some?
    ensures CallsInv(Lifecycle(p).value)
  {
  }

  lemma WorkKeepsInv(p: Process, e: WorkerPool.Event)
    requires Inv(p) && Step(p, Work(e)).Some?
    ensures Inv(Step(p, Work(e)).value)
  {
  }

  lemma StepKeepsInv(p: Process, e: Event)
    requires Inv(p) && Step(p, e).Some?
    ensures Inv(Step(p, e).value)
  {
    match e
    case Advance =>
      LifecycleKeepsPhase(p);
      LifecycleKeepsClient(p);
      LifecycleKeepsCalls(p);
    case Work(event) => WorkKeepsInv(p, event);
  }

  ghost predicate Reachable(s: Start, p: Process) {
    s.world.Valid() && Reaches(Step, Init(s), p)
  }

  lemma ReachableInv(s: Start, p: Process)
    requires Reachable(s, p)
    ensures Inv(p) && p.snapStart == s.snapStart && p.world == s.world
  {
    var inv := (a: Process) => Inv(a) && a.snapStart == s.snapStart && a.world == s.world;
    forall a, e | inv(a) && Step(a, e).Some? ensures inv(Step(a, e).value) { StepKeepsInv(a, e); }
    InvariantHolds(Step, inv, Init(s), p);
  }

  /* ---------- whole runs ---------- */

  /** Wherever a run of a SnapStart process has got: a `/next` or an answer in its log comes after every
      before-hook, last registered first, `/restore/next`, the reset and every after-hook, first
      registered first, and all of them succeeded. */
  lemma NoWorkBeforeLifecycle(s: Start, p: Process, i: nat)
    requires Reachable(s, p) && s.snapStart && i < |p.log| && FromWorkers(p.log[i])
    ensures s.world.nextBuild.None? && s.world.next.Ok? && 200 <= s.world.next.value < 300
    ensures var (w, n) := (s.world, |s.world.before|);
      && 2 * n + 2 <= i < |p.log|
      && p.log[n] == SnapStart.Call(0, SnapStart.RestoreNext) && p.log[n + 1] == SnapStart.Reset
      && (forall k :: 0 <= k < n ==> p.log[k] == SnapStart.Before(n - 1 - k) && w.before[k].Passes?)
      && (forall k :: 0 <= k < n ==> p.log[n + 2 + k] == SnapStart.After(k) && w.after[k].Passes?)
      && (forall j :: 2 * n + 2 <= j < |p.log| ==> FromWorkers(p.log[j]))
  {
    ReachableInv(s, p);
    var w, n := s.world, |s.world.before|;
    LifecycleIsNotWork(p, i);
    assert p.phase.Serving?;
    CompleteWork(w);
    CompleteWorkAt(w);
    SnapStart.RestoredIff(w);
    assert SnapStart.Work(w, 0) <= p.log;
  }

  lemma CompleteWorkAt(w: SnapStart.World)
    requires w.Valid() && |SnapStart.Work(w, 0)| == 2 * |w.before| + 2
    ensures var (t, n) := (SnapStart.Work(w, 0), |w.before|);
      && t[n] == SnapStart.Call(0, SnapStart.RestoreNext) && t[n + 1] == SnapStart.Reset
      && forall k :: 0 <= k < n ==> t[k] == SnapStart.Before(n - 1 - k) && t[n + 2 + k] == SnapStart.After(k)
  {
    var n := |w.before|;
    forall k | 0 <= k < n
      ensures SnapStart.Work(w, 0)[k] == SnapStart.Before(n - 1 - k)
      ensures SnapStart.Work(w, 0)[n + 2 + k] == SnapStart.After(k)
    {
      SnapStart.WorkAt(w, 0, k);
      SnapStart.WorkAt(w, 0, n + 2 + k);
    }
    SnapStart.WorkAt(w, 0, n);
    SnapStart.WorkAt(w, 0, n + 1);
  }

  /** A process that is not serving has sent nothing on behalf of workers. */
  lemma LifecycleIsNotWork(p: Process, i: nat)
    requires Inv(p) && i < |p.log| && FromWorkers(p.log[i])
    ensures p.phase.Serving?
    ensures p.snapStart ==> |SnapStart.Lifecycle(p.world, 0, 1).1| <= i
  {
    if p.snapStart {
      var w, n := p.world, |p.world.before|;
      var t := SnapStart.Lifecycle(w, 0, 1).1;
      if i < |t| {
        SnapStart.TailAt(w, 0, 1, i);
        if i < |SnapStart.Work(w, 0)| { SnapStart.WorkAt(w, 0, i); }
      }
      match p.phase
      case BeforeHooks(left) => SnapStart.DownwardsAt(n, left, i);
      case AwaitRestore => HooksAreNoCalls(n, i);
      case ResetPool => HooksAreNoCalls(n, i);
      case AfterHooks(done) =>
        HooksAreNoCalls(n, i);
        SnapStart.UpwardsAt(done);
      case _ =>
    }
  }

  lemma HooksAreNoCalls(n: nat, i: nat)
    ensures |SnapStart.Downwards(n, 0)| == n && (i < n ==> !SnapStart.Downwards(n, 0)[i].Call?)
  {
    SnapStart.DownwardsLength(n, 0);
    if i < n { SnapStart.DownwardsAt(n, 0, i); }
  }

  /** A lifecycle that completes has run everything. */
  lemma CompleteWork(w: SnapStart.World)
    requires w.Valid() && SnapStart.Ending(w).0.Completed?
    ensures SnapStart.Restored(w) && SnapStart.Lifecycle(w, 0, 1).1 == SnapStart.Work(w, 0)
    ensures |SnapStart.Work(w, 0)| == 2 * |w.before| + 2
    ensures forall k :: 0 <= k < |w.before| ==> w.before[k].Passes? && w.after[k].Passes?
  {
    SnapStart.LastStopFacts(w.before);
    SnapStart.FirstStopFacts(w.after);
    SnapStart.WorkWhenRestored(w, 0);
    SnapStart.DownwardsLength(|w.before|, 0);
    SnapStart.UpwardsAt(|w.after|);
  }

  /** In a SnapStart process `/restore/next` and `/init/error` leave through the original pool, and
      everything later (`/restore/error`, every `/next`, every answer) through the one rebuilt after the
      restore; any other process uses the original pool throughout. */
  lemma PoolOfEveryRequest(s: Start, p: Process, i: nat)
    requires Reachable(s, p) && i < |p.log| && p.log[i].Call?
    ensures p.log[i].pool ==
      if s.snapStart && (FromWorkers(p.log[i]) || p.log[i].endpoint.RestoreError?) then 1 else 0
  {
    ReachableInv(s, p);
  }

  /** The pool is rebuilt once at most, and only in a SnapStart process. */
  lemma OneResetAtMost(s: Start, p: Process)
    requires Reachable(s, p)
    ensures p.client.built == (if p.client.restored.Some? then 2 else 1)
    ensures p.client.restored.Some? ==>
      && s.snapStart && (forall k :: 0 <= k < |s.world.before| ==> s.world.before[k].Passes?)
      && s.world.nextBuild.None? && s.world.next.Ok? && 200 <= s.world.next.value < 300
    ensures p.phase.Serving? && s.snapStart ==> p.client.restored == Some(1)
  {
    ReachableInv(s, p);
    EndingKind(s.world);
    SnapStart.RestoredIff(s.world);
    if p.phase.Serving? && s.snapStart { CompleteWork(s.world); }
  }

  /** How many requests to an endpoint the log shows. */
  function Requests(log: seq<SnapStart.Event>, endpoint: SnapStart.Endpoint): nat {
    if log == [] then 0
    else
      var last := log[|log| - 1];
      Requests(log[..|log| - 1], endpoint) + (if last.Call? && last.endpoint == endpoint then 1 else 0)
  }

  lemma RequestsGrow(p: Process, e: SnapStart.Event, endpoint: SnapStart.Endpoint)
    ensures Requests(p.Logs(e).log, endpoint)
            == Requests(p.log, endpoint) + (if e.Call? && e.endpoint == endpoint then 1 else 0)
  {
    assert p.Logs(e).log[..|p.log|] == p.log;
  }

  /** The lifecycle neither polls nor answers. */
  lemma LifecycleIsSilent(p: Process, endpoint: SnapStart.Endpoint)
    requires Lifecycle(p).Some? && (endpoint.NextInvocation? || endpoint.InvocationAnswer?)
    ensures var q := Lifecycle(p).value;
      q.workers == p.workers && Requests(q.log, endpoint) == Requests(p.log, endpoint)
  {
    match p.phase
    case BeforeHooks(left) =>
      RequestsGrow(p, if left > 0 then SnapStart.Before(left - 1)
                      else SnapStart.Call(p.client.Pool(), SnapStart.RestoreNext), endpoint);
    case ResetPool => RequestsGrow(p, SnapStart.Reset, endpoint);
    case AfterHooks(done) => RequestsGrow(p, SnapStart.After(done), endpoint);
    case Reporting(kind, _) => ReportIsSilent(p, endpoint);
    case _ =>
  }

  lemma ReportIsSilent(p: Process, endpoint: SnapStart.Endpoint)
    requires p.phase.Reporting? && (endpoint.NextInvocation? || endpoint.InvocationAnswer?)
    ensures Lifecycle(p).Some?
    ensures var q := Lifecycle(p).value;
      q.workers == p.workers && Requests(q.log, endpoint) == Requests(p.log, endpoint)
  {
    var kind := p.phase.kind;
    var q := p.Logs(SnapStart.Report(kind));
    RequestsGrow(p, SnapStart.Report(kind), endpoint);
    RequestsGrow(q, SnapStart.Call(p.client.Pool(), if kind.Init? then SnapStart.InitError else SnapStart.RestoreError),
                 endpoint);
  }

  /** A worker event sends a `/next` exactly when it is a poll, and an answer exactly when one is new. */
  lemma WorkSends(p: Process, e: WorkerPool.Event)
    requires Step(p, Work(e)).Some?
    ensures var q := Step(p, Work(e)).value;
      && Requests(q.log, SnapStart.NextInvocation)
         == Requests(p.log, SnapStart.NextInvocation) + (if e.Poll? then 1 else 0)
      && Requests(q.log, SnapStart.InvocationAnswer) + |p.workers.posts|
         == Requests(p.log, SnapStart.InvocationAnswer) + |q.workers.posts|
  {
    WorkerPool.PostsMove(p.workers, e);
    var endpoint := WorkerPool.Sends(p.workers, e);
    if endpoint.Some? {
      var call := SnapStart.Call(p.client.Pool(), endpoint.value);
      RequestsGrow(p, call, SnapStart.NextInvocation);
      RequestsGrow(p, call, SnapStart.InvocationAnswer);
    }
  }

  ghost predicate WorkersInv(s: Start, p: Process) {
    && Reaches(WorkerPool.Step, Workers(s), p.workers)
    && Requests(p.log, SnapStart.InvocationAnswer) == |p.workers.posts|
  }

  lemma WorkersInvKept(s: Start, p: Process, e: Event)
    requires WorkersInv(s, p) && Step(p, e).Some?
    ensures WorkersInv(s, Step(p, e).value)
  {
    match e
    case Advance => LifecycleIsSilent(p, SnapStart.InvocationAnswer);
    case Work(event) =>
      ReachesNext(WorkerPool.Step, Workers(s), p.workers, event);
      WorkSends(p, event);
  }

  /** How many of the events are polls of a worker. */
  function Polls(evs: seq<Event>): nat {
    if evs == [] then 0
    else (if evs[0].Work? && evs[0].event.Poll? then 1 else 0) + Polls(evs[1..])
  }

  /** Every poll sends one `/next`, and nothing else does. */
  lemma {:induction false} EveryPollIsSent(p: Process, evs: seq<Event>, q: Process)
    requires Exec(Step, p, evs) == Some(q)
    ensures Requests(q.log, SnapStart.NextInvocation) == Requests(p.log, SnapStart.NextInvocation) + Polls(evs)
    decreases |evs|
  {
    if evs != [] {
      match evs[0] {
        case Advance => LifecycleIsSilent(p, SnapStart.NextInvocation);
        case Work(event) => WorkSends(p, event);
      }
      EveryPollIsSent(Step(p, evs[0]).value, evs[1..], q);
    }
  }

  /** What is proved of the worker pool holds inside a process: its workers run the pool's own system, and
      every answer they have sent is in the log. */
  lemma WorkersRunInside(s: Start, p: Process)
    requires Reachable(s, p)
    ensures WorkerPool.Reachable(s.limit, p.workers)
    ensures Requests(p.log, SnapStart.InvocationAnswer) == |p.workers.posts|
  {
    ReachesItself(WorkerPool.Step, Workers(s));
    var inv := (a: Process) => WorkersInv(s, a);
    forall a, e | inv(a) && Step(a, e).Some? ensures inv(Step(a, e).value) { WorkersInvKept(s, a, e); }
    InvariantHolds(Step, inv, Init(s), p);
    assert WorkersInv(s, p);
  }

  /* ---------- the code ---------- */

  function StepsLeft(p: Process): nat {
    var n := |p.world.after|;
    match p.phase
    case BeforeHooks(left) => n + 5 + left
    case AwaitRestore => n + 4
    case ResetPool => n + 3
    case AfterHooks(done) => if done <= n then 2 + n - done else 2
    case Reporting(_, _) => 1
    case Serving => 0
    case Over(_) => 0
  }

  /** Every lifecycle runs to its end, having logged just what Lifecycle says. */
  lemma {:induction false} LifecycleEnds(s: Start, p: Process) returns (q: Process)
    requires Reachable(s, p) && s.snapStart && !p.phase.Serving? && !p.phase.Over?
    ensures Reachable(s, q) && q.workers == p.workers
    ensures var (o, log) := SnapStart.Lifecycle(s.world, 0, 1);
      q.log == log && q.phase == if o.Completed? then Serving else Over(o)
    decreases StepsLeft(p)
  {
    ReachableInv(s, p);
    var r := Next(Step, Init(s), p, Advance);
    ReachableInv(s, r);
    if r.phase.Serving? || r.phase.Over? {
      q := r;
      EndsAsStated(p);
    } else {
      q := LifecycleEnds(s, r);
    }
  }

  lemma EndsAsStated(p: Process)
    requires Inv(p) && p.snapStart && Lifecycle(p).Some?
    requires Lifecycle(p).value.phase.Serving? || Lifecycle(p).value.phase.Over?
    ensures var (o, log) := SnapStart.Lifecycle(p.world, 0, 1);
      Lifecycle(p).value.log == log && Lifecycle(p).value.phase == if o.Completed? then Serving else Over(o)
  {
    if Lifecycle(p).value.phase.Serving? {
      ServingStarts(p);
    } else {
      LifecycleKeepsPhase(p);
      LastPhase(p);
    }
  }

  /** A lifecycle that is over has not completed. */
  lemma LastPhase(p: Process)
    requires Lifecycle(p).Some? && Lifecycle(p).value.phase.Over?
    ensures !Lifecycle(p).value.phase.outcome.Completed?
  {
  }

  /** `run` and `run_concurrent` up to the first poll, on the client itself: what they do is a run of the
      system above to the point where the workers take over, or the process is over. */
  method Boot(s: Start) returns (o: SnapStart.Outcome, client: SnapStart.PooledClient, ghost p: Process)
    requires s.world.Valid()
    ensures Reachable(s, p) && p.workers == Workers(s)
    ensures p.phase == if o.Completed? then Serving else Over(o)
    ensures p.log == client.trace && p.client == client.State()
  {
    client := new SnapStart.PooledClient();
    o := SnapStart.Completed;
    p := Init(s);
    ReachesItself(Step, p);
    if s.snapStart {
      o := SnapStart.RunRestoreLifecycle(client, s.world);
      assert [] + SnapStart.Lifecycle(s.world, 0, 1).1 == SnapStart.Lifecycle(s.world, 0, 1).1;
      p := LifecycleEnds(s, p);
      ReachableInv(s, p);
      EndingKind(s.world);
    }
  }
}
