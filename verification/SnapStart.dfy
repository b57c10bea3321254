/** The SnapStart restore lifecycle over the pooled client. */
module SnapStart {
  import opened Common

  type Error = string

  datatype Endpoint = NextInvocation | InvocationAnswer | RestoreNext | InitError | RestoreError

  datatype ReportKind = Init | Restore

  /** What an observer of the process sees, in order: hook `i` running, the pool being reset, an error
      report being attempted, a request leaving through connection pool `pool`. */
  datatype Event =
    | Before(hook: nat)
    | After(hook: nat)
    | Reset
    | Report(kind: ReportKind)
    | Call(pool: nat, endpoint: Endpoint)

  /** Hooks are user code: they may panic, and so may the text of the error they return. */
  datatype HookOutcome = Passes | Fails(error: Error, displayPanics: bool) | Panics

  /** How the outside world answers: every hook, the building of requests, and `/restore/next` with the
      text its status prints as. */
  datatype World = World(
    before: seq<HookOutcome>, after: seq<HookOutcome>,
    nextBuild: Option<Error>, next: Result<nat, Error>, statusText: string,
    reportBuild: Option<Error>)
  {
    predicate Valid() { |before| == |after| }
  }

  /** How the lifecycle ends: it returns, with or without an error, or a panic unwinds through it. */
  datatype Outcome = Completed | Failed(error: Error) | Unwound

  predicate IsSuccess(status: nat) { 200 <= status < 300 }

  /* ---------- the pooled client ---------- */

  /** `restored` is the write-once cell: the number of the pool built after a restore. Pool 0 is the
      original one; `built` counts the pools built so far. */
  datatype Client = Client(restored: Option<nat>, built: nat) {
    /** The pool a request leaves through when it is sent. */
    function Pool(): nat {
      match restored
      case Some(pool) => pool
      case None => 0
    }

    /** `reset_pool` always builds a pool, and keeps it only the first time. */
    function Reset(): Client {
      Client(if restored.None? then Some(built) else restored, built + 1)
    }

    function Resets(n: nat): Client {
      if n == 0 then this else Resets(n - 1).Reset()
    }
  }

  function NewClient(): Client { Client(None, 1) }

  /** However often the pool is reset, requests use the original pool until the first reset and the pool
      that one built ever after. */
  lemma {:induction false} FirstResetCounts(n: nat)
    ensures NewClient().Resets(n).Pool() == if n == 0 then 0 else 1
    ensures NewClient().Resets(n).built == n + 1
  {
    if n > 0 {
      FirstResetCounts(n - 1);
      if n > 1 { assert NewClient().Resets(n - 1).restored.Some?; }
    }
  }

  class PooledClient {
    var restored: Option<nat>
    var built: nat
    var trace: seq<Event>

    constructor ()
      ensures State() == NewClient() && trace == []
    {
      restored, built, trace := None, 1, [];
    }

    function State(): Client
      reads this
    {
      Client(restored, built)
    }

    method CallApi(endpoint: Endpoint)
      modifies `trace
      ensures trace == old(trace) + [Call(State().Pool(), endpoint)]
    {
      trace := trace + [Call(match restored { case Some(pool) => pool case None => 0 }, endpoint)];
    }

    method ResetPool()
      modifies this
      ensures State() == old(State()).Reset()
      ensures trace == old(trace) + [Reset]
    {
      if restored.None? {
        restored := Some(built);
      }
      built := built + 1;
      trace := trace + [Reset];
    }

    method Run(hook: Event)
      modifies `trace
      ensures trace == old(trace) + [hook]
    {
      trace := trace + [hook];
    }
  }

  /* ---------- what the lifecycle does ---------- */

  /** The hook at which the reverse loop stops. */
  function LastStop(hooks: seq<HookOutcome>): Option<nat> {
    if hooks == [] then None
    else if !hooks[|hooks| - 1].Passes? then Some(|hooks| - 1)
    else LastStop(hooks[..|hooks| - 1])
  }

  /** The hook at which the forward loop stops. */
  function FirstStop(hooks: seq<HookOutcome>): Option<nat> {
    if hooks == [] then None
    else
      match FirstStop(hooks[..|hooks| - 1])
      case Some(i) => Some(i)
      case None => if hooks[|hooks| - 1].Passes? then None else Some(|hooks| - 1)
  }

  lemma {:induction false} LastStopFacts(hooks: seq<HookOutcome>)
    ensures match LastStop(hooks)
            case None => forall i :: 0 <= i < |hooks| ==> hooks[i].Passes?
            case Some(k) => k < |hooks| && !hooks[k].Passes? && forall i :: k < i < |hooks| ==> hooks[i].Passes?
  {
    if hooks != [] && hooks[|hooks| - 1].Passes? {
      LastStopFacts(hooks[..|hooks| - 1]);
    }
  }

  lemma {:induction false} FirstStopFacts(hooks: seq<HookOutcome>)
    ensures match FirstStop(hooks)
            case None => forall i :: 0 <= i < |hooks| ==> hooks[i].Passes?
            case Some(k) => k < |hooks| && !hooks[k].Passes? && forall i :: 0 <= i < k ==> hooks[i].Passes?
  {
    if hooks != [] {
      FirstStopFacts(hooks[..|hooks| - 1]);
    }
  }

  /** Before-hooks `hi - 1` down to `lo`. */
  function Downwards(hi: nat, lo: nat): seq<Event>
    decreases hi - lo
  {
    if hi <= lo then [] else Downwards(hi, lo + 1) + [Before(lo)]
  }

  /** After-hooks 0 up to `n - 1`. */
  function Upwards(n: nat): seq<Event> {
    if n == 0 then [] else Upwards(n - 1) + [After(n - 1)]
  }

  function ReportEvents(w: World, kind: ReportKind, pool: nat): seq<Event> {
    [Report(kind)]
    + (if w.reportBuild.Some? then [] else [Call(pool, if kind.Init? then InitError else RestoreError)])
  }

  function StatusError(w: World): Error {
    "/restore/next returned a non-success status: " + w.statusText
  }

  /** The error `/restore/next` ends in, if any, once its request is built. */
  function NextError(w: World): Option<Error> {
    match w.next
    case Err(e) => Some(e)
    case Ok(status) =>
      if IsSuccess(status) then None else Some(StatusError(w))
  }

  /** All before-hooks passed and `/restore/next` succeeded. */
  predicate Restored(w: World) {
    LastStop(w.before).None? && w.nextBuild.None? && NextError(w).None?
  }

  /** A hook whose panic, or whose error's, unwinds through the lifecycle. */
  predicate Unwinds(h: HookOutcome) { h.Panics? || (h.Fails? && h.displayPanics) }

  /** How a hook that did not pass ends the lifecycle, and the report attempted before. */
  function HookEnding(h: HookOutcome, kind: ReportKind): (Outcome, Option<ReportKind>) {
    if h.Fails? && !h.displayPanics then (Failed(h.error), Some(kind)) else (Unwound, None)
  }

  function Ending(w: World): (Outcome, Option<ReportKind>) {
    LastStopFacts(w.before);
    FirstStopFacts(w.after);
    match LastStop(w.before)
    case Some(k) => HookEnding(w.before[k], Init)
    case None =>
      if w.nextBuild.Some? then (Failed(w.nextBuild.value), None)
      else
        match NextError(w)
        case Some(e) => (Failed(e), Some(Init))
        case None =>
          match FirstStop(w.after)
          case Some(k) => HookEnding(w.after[k], Restore)
          case None => (Completed, None)
  }

  /** The events of the lifecycle before its report, if it makes one. */
  function Work(w: World, pool: nat): seq<Event> {
    match LastStop(w.before)
    case Some(k) => Downwards(|w.before|, k)
    case None =>
      Downwards(|w.before|, 0)
      + (if w.nextBuild.Some? then [] else [Call(pool, RestoreNext)])
      + (if !Restored(w) then []
         else [Reset] + Upwards(match FirstStop(w.after) case Some(k) => k + 1 case None => |w.after|))
  }

  function Tail(w: World, pool: nat, rebuilt: nat): seq<Event> {
    match Ending(w).1
    case None => []
    case Some(kind) => ReportEvents(w, kind, if kind.Init? then pool else rebuilt)
  }

  /** The outcome and the events of one lifecycle that starts on pool `pool` and rebuilds to pool
      `rebuilt`. */
  function Lifecycle(w: World, pool: nat, rebuilt: nat): (Outcome, seq<Event>) {
    (Ending(w).0, Work(w, pool) + Tail(w, pool, rebuilt))
  }

  /** The restore succeeded: every before-hook passed, the request could be built and was answered with a
      status of 200 to 299. */
  lemma RestoredIff(w: World)
    ensures Restored(w) <==>
      && (forall k :: 0 <= k < |w.before| ==> w.before[k].Passes?)
      && w.nextBuild.None? && w.next.Ok? && 200 <= w.next.value < 300
  {
    LastStopFacts(w.before);
  }

  /* ---------- the code ---------- */

  method ReportDiagnostic(client: PooledClient, w: World, err: Error, kind: ReportKind) returns (e: Error)
    modifies client`trace
    ensures e == err
    ensures client.trace == old(client.trace) + ReportEvents(w, kind, client.State().Pool())
  {
    client.Run(Report(kind));
    match w.reportBuild {
      case None => client.CallApi(if kind.Init? then InitError else RestoreError);
      case Some(_) =>
    }
    e := err;
  }

  /** What follows a hook that did not pass: its error is printed, reported and returned, unless a panic
      gets there first. */
  method StopAt(client: PooledClient, w: World, h: HookOutcome, kind: ReportKind) returns (o: Outcome)
    requires !h.Passes?
    modifies client`trace
    ensures o == HookEnding(h, kind).0
    ensures client.trace == old(client.trace)
              + (if Unwinds(h) then [] else ReportEvents(w, kind, client.State().Pool()))
  {
    match h {
      case Panics => return Unwound;
      case Fails(error, displayPanics) =>
        if displayPanics { return Unwound; }
        var e := ReportDiagnostic(client, w, error, kind);
        return Failed(e);
    }
  }

  /** The before-snapshot loop: reverse order, stopping at the first hook that does not pass. */
  method RunBeforeHooks(client: PooledClient, w: World) returns (stopped: Option<Outcome>)
    modifies client`trace
    ensures match LastStop(w.before)
            case None => stopped == None && client.trace == old(client.trace) + Downwards(|w.before|, 0)
            case Some(k) =>
              && k < |w.before|
              && stopped == Some(HookEnding(w.before[k], Init).0)
              && client.trace == old(client.trace) + Downwards(|w.before|, k)
                   + (if Unwinds(w.before[k]) then [] else ReportEvents(w, Init, client.State().Pool()))
  {
    ghost var start := client.trace;
    LastStopFacts(w.before);
    var i := |w.before|;
    while i > 0
      invariant 0 <= i <= |w.before|
      invariant client.trace == start + Downwards(|w.before|, i)
      invariant forall j :: i <= j < |w.before| ==> w.before[j].Passes?
    {
      i := i - 1;
      client.Run(Before(i));
      assert client.trace == start + Downwards(|w.before|, i);
      if !w.before[i].Passes? {
        assert LastStop(w.before) == Some(i);
        var o := StopAt(client, w, w.before[i], Init);
        return Some(o);
      }
    }
    return None;
  }

  /** The after-restore loop: registration order, stopping at the first hook that does not pass. */
  method RunAfterHooks(client: PooledClient, w: World) returns (stopped: Option<Outcome>)
    modifies client`trace
    ensures match FirstStop(w.after)
            case None => stopped == None && client.trace == old(client.trace) + Upwards(|w.after|)
            case Some(k) =>
              && k < |w.after|
              && stopped == Some(HookEnding(w.after[k], Restore).0)
              && client.trace == old(client.trace) + Upwards(k + 1)
                   + (if Unwinds(w.after[k]) then [] else ReportEvents(w, Restore, client.State().Pool()))
  {
    ghost var start := client.trace;
    FirstStopFacts(w.after);
    var i := 0;
    while i < |w.after|
      invariant 0 <= i <= |w.after|
      invariant client.trace == start + Upwards(i)
      invariant forall j :: 0 <= j < i ==> w.after[j].Passes?
    {
      client.Run(After(i));
      i := i + 1;
      assert client.trace == start + Upwards(i);
      if !w.after[i - 1].Passes? {
        assert FirstStop(w.after) == Some(i - 1);
        var o := StopAt(client, w, w.after[i - 1], Restore);
        return Some(o);
      }
    }
    return None;
  }

  /** `run_restore_lifecycle` does what Lifecycle says, whatever the hooks and the API do, and the pool is
      reset exactly when `/restore/next` succeeded. */
  method RunRestoreLifecycle(client: PooledClient, w: World) returns (o: Outcome)
    requires w.Valid()
    modifies client
    ensures var before := old(client.State());
      && o == Lifecycle(w, before.Pool(), before.Reset().Pool()).0
      && client.trace == old(client.trace) + Lifecycle(w, before.Pool(), before.Reset().Pool()).1
      && client.State() == (if Restored(w) then before.Reset() else before)
    ensures o.Completed? || client.State() != old(client.State()) ==>
      (forall k :: 0 <= k < |w.before| ==> w.before[k].Passes?) && w.next.Ok? && 200 <= w.next.value < 300
  {
    RestoredIff(w);
    ghost var start, before, n := client.trace, client.State(), |w.before|;
    ghost var pool, rebuilt := before.Pool(), before.Reset().Pool();
    var stopped := RunBeforeHooks(client, w);
    if stopped.Some? {
      StoppedBefore(w, pool, rebuilt);
      Regroup(start, Work(w, pool), Tail(w, pool, rebuilt));
      return stopped.value;
    }
    assert LastStop(w.before).None?;
    if w.nextBuild.Some? {
      Regroup(start, Work(w, pool), Tail(w, pool, rebuilt));
      WorkWithoutRequest(w, pool);
      return Failed(w.nextBuild.value);
    }
    client.CallApi(RestoreNext);
    ghost var called := Downwards(n, 0) + [Call(pool, RestoreNext)];
    Regroup(start, Downwards(n, 0), [Call(pool, RestoreNext)]);
    match w.next {
      case Err(err) =>
        var e := ReportDiagnostic(client, w, err, Init);
        WorkWithRequest(w, pool);
        Regroup(start, called, ReportEvents(w, Init, pool));
        return Failed(e);
      case Ok(status) =>
        if !IsSuccess(status) {
          var e := ReportDiagnostic(client, w, StatusError(w), Init);
          WorkWithRequest(w, pool);
          Regroup(start, called, ReportEvents(w, Init, pool));
          return Failed(e);
        }
    }
    client.ResetPool();
    stopped := RunAfterHooks(client, w);
    WorkWhenRestored(w, pool);
    ghost var up := Upwards(match FirstStop(w.after) case Some(k) => k + 1 case None => n);
    RegroupFive(start, called, [Reset], up, Tail(w, pool, rebuilt));
    assert Restored(w) && client.State() == before.Reset();
    if stopped.Some? {
      StoppedAfter(w, pool, rebuilt);
      return stopped.value;
    }
    return Completed;
  }

  lemma Regroup(a: seq<Event>, b: seq<Event>, c: seq<Event>)
    ensures a + b + c == a + (b + c)
  {
  }

  lemma RegroupFive(a: seq<Event>, b: seq<Event>, c: seq<Event>, d: seq<Event>, e: seq<Event>)
    ensures a + b + c + d + e == a + (b + (c + d) + e)
  {
  }

  lemma StoppedBefore(w: World, pool: nat, rebuilt: nat)
    requires LastStop(w.before).Some?
    ensures var k := LastStop(w.before).value;
      && k < |w.before| && !Restored(w)
      && Ending(w) == HookEnding(w.before[k], Init)
      && Work(w, pool) == Downwards(|w.before|, k)
      && Tail(w, pool, rebuilt) == (if Unwinds(w.before[k]) then [] else ReportEvents(w, Init, pool))
  {
    LastStopFacts(w.before);
  }

  lemma StoppedAfter(w: World, pool: nat, rebuilt: nat)
    requires Restored(w) && FirstStop(w.after).Some?
    ensures var k := FirstStop(w.after).value;
      && k < |w.after|
      && Ending(w) == HookEnding(w.after[k], Restore)
      && Tail(w, pool, rebuilt) == (if Unwinds(w.after[k]) then [] else ReportEvents(w, Restore, rebuilt))
  {
    FirstStopFacts(w.after);
  }

  lemma WorkWithoutRequest(w: World, pool: nat)
    requires LastStop(w.before).None? && w.nextBuild.Some?
    ensures Work(w, pool) == Downwards(|w.before|, 0)
  {
  }

  lemma WorkWithRequest(w: World, pool: nat)
    requires LastStop(w.before).None? && w.nextBuild.None? && !Restored(w)
    ensures Work(w, pool) == Downwards(|w.before|, 0) + [Call(pool, RestoreNext)]
  {
  }

  lemma WorkWhenRestored(w: World, pool: nat)
    requires Restored(w)
    ensures Work(w, pool) == Downwards(|w.before|, 0) + [Call(pool, RestoreNext)]
      + ([Reset] + Upwards(match FirstStop(w.after) case Some(k) => k + 1 case None => |w.after|))
  {
  }

  /* ---------- what its traces look like ---------- */

  lemma {:induction false} DownwardsAt(hi: nat, lo: nat, i: nat)
    requires i < |Downwards(hi, lo)|
    ensures |Downwards(hi, lo)| == hi - lo && Downwards(hi, lo)[i] == Before(hi - 1 - i)
    decreases hi - lo
  {
    DownwardsLength(hi, lo + 1);
    if i < hi - lo - 1 {
      DownwardsAt(hi, lo + 1, i);
    }
  }

  lemma {:induction false} DownwardsLength(hi: nat, lo: nat)
    ensures |Downwards(hi, lo)| == if hi <= lo then 0 else hi - lo
    decreases hi - lo
  {
    if hi > lo { DownwardsLength(hi, lo + 1); }
  }

  lemma {:induction false} UpwardsAt(n: nat)
    ensures |Upwards(n)| == n
    ensures forall i :: 0 <= i < n ==> Upwards(n)[i] == After(i)
  {
    if n > 0 { UpwardsAt(n - 1); }
  }

  /** The place of every event before the report: the before-hooks that ran, then `/restore/next`, then
      the reset, then the after-hooks that ran. */
  lemma WorkAt(w: World, pool: nat, i: nat)
    requires w.Valid() && i < |Work(w, pool)|
    ensures var (n, e) := (|w.before|, Work(w, pool)[i]);
      && (i < n ==> e == Before(n - 1 - i) && forall k :: n - 1 - i < k < n ==> w.before[k].Passes?)
      && (i == n ==> e == Call(pool, RestoreNext) && LastStop(w.before).None? && w.nextBuild.None?)
      && (i == n + 1 ==> e == Reset && Restored(w))
      && (i > n + 1 ==> e == After(i - n - 2) && Restored(w) && i - n - 2 < n
                        && forall k :: 0 <= k < i - n - 2 ==> w.after[k].Passes?)
  {
    var n := |w.before|;
    LastStopFacts(w.before);
    FirstStopFacts(w.after);
    var lo := match LastStop(w.before) case Some(k) => k case None => 0;
    DownwardsLength(n, lo);
    if i < n - lo {
      DownwardsAt(n, lo, i);
    } else if Restored(w) {
      WorkWhenRestored(w, pool);
      UpwardsAt(match FirstStop(w.after) case Some(k) => k + 1 case None => n);
    }
  }

  /* ---------- how each lifecycle goes, in plain terms ---------- */

  /** What an error report looks like from outside. */
  lemma ReportIs(w: World, kind: ReportKind, pool: nat)
    ensures ReportEvents(w, kind, pool) ==
      if w.reportBuild.Some? then [Report(kind)]
      else [Report(kind), Call(pool, if kind == Init then InitError else RestoreError)]
  {
  }

  lemma DownwardsAre(hi: nat, lo: nat)
    requires lo <= hi
    ensures |Downwards(hi, lo)| == hi - lo
    ensures forall j :: 0 <= j < hi - lo ==> Downwards(hi, lo)[j] == Before(hi - 1 - j)
  {
    DownwardsLength(hi, lo);
    forall j | 0 <= j < hi - lo ensures Downwards(hi, lo)[j] == Before(hi - 1 - j) { DownwardsAt(hi, lo, j); }
  }

  /** A before-hook that does not pass ends the lifecycle there: its error is returned after one init
      report; a panic, of the hook or of its error's text, unwinds without one. */
  lemma BeforeHookStops(w: World, pool: nat, rebuilt: nat, k: nat)
    requires k < |w.before| && !w.before[k].Passes? && forall j :: k < j < |w.before| ==> w.before[j].Passes?
    ensures var (o, t) := Lifecycle(w, pool, rebuilt);
      var n := |w.before|;
      && n - k <= |t| && (forall j :: 0 <= j < n - k ==> t[j] == Before(n - 1 - j))
      && if w.before[k].Fails? && !w.before[k].displayPanics then
           && o == Failed(w.before[k].error)
           && t[n - k..] == [Report(Init)] + (if w.reportBuild.Some? then [] else [Call(pool, InitError)])
         else o == Unwound && |t| == n - k
  {
    LastStopFacts(w.before);
    assert LastStop(w.before) == Some(k);
    StoppedBefore(w, pool, rebuilt);
    DownwardsAre(|w.before|, k);
    ReportIs(w, Init, pool);
  }

  /** Before-hooks that all pass are followed by `/restore/next`; if its request cannot be built that error
      is returned, unreported. */
  lemma RestoreNextUnbuilt(w: World, pool: nat, rebuilt: nat)
    requires (forall j :: 0 <= j < |w.before| ==> w.before[j].Passes?) && w.nextBuild.Some?
    ensures var (o, t) := Lifecycle(w, pool, rebuilt);
      && o == Failed(w.nextBuild.value)
      && |t| == |w.before| && forall j :: 0 <= j < |w.before| ==> t[j] == Before(|w.before| - 1 - j)
  {
    LastStopFacts(w.before);
    WorkWithoutRequest(w, pool);
    DownwardsAre(|w.before|, 0);
  }

  /** A `/restore/next` that fails, or is answered with a status outside 200 to 299, ends the lifecycle:
      no reset, no after-hook, one init report as the last thing, and the transport's error or one
      naming the status. */
  lemma RestoreNextFails(w: World, pool: nat, rebuilt: nat)
    requires (forall j :: 0 <= j < |w.before| ==> w.before[j].Passes?) && w.nextBuild.None?
    requires w.next.Ok? ==> w.next.value < 200 || 300 <= w.next.value
    ensures var (o, t) := Lifecycle(w, pool, rebuilt);
      var n := |w.before|;
      && o == Failed(if w.next.Err? then w.next.error
                     else "/restore/next returned a non-success status: " + w.statusText)
      && n <= |t| && (forall j :: 0 <= j < n ==> t[j] == Before(n - 1 - j))
      && t[n..] == [Call(pool, RestoreNext), Report(Init)]
                   + (if w.reportBuild.Some? then [] else [Call(pool, InitError)])
  {
    LastStopFacts(w.before);
    RestoredIff(w);
    WorkWithRequest(w, pool);
    DownwardsAre(|w.before|, 0);
    ReportIs(w, Init, pool);
    var report := Tail(w, pool, rebuilt);
    Regroup(Downwards(|w.before|, 0), [Call(pool, RestoreNext)], report);
    AfterWork(Downwards(|w.before|, 0), [Call(pool, RestoreNext)] + report);
  }

  /** After a successful restore the pool is reset and the after-hooks run; one that does not pass ends the
      lifecycle: its error is returned after one restore report through the rebuilt pool, a panic
      unwinds without one. */
  lemma AfterHookStops(w: World, pool: nat, rebuilt: nat, k: nat)
    requires (forall j :: 0 <= j < |w.before| ==> w.before[j].Passes?) && w.nextBuild.None?
    requires w.next.Ok? && 200 <= w.next.value < 300
    requires k < |w.after| && !w.after[k].Passes? && forall j :: 0 <= j < k ==> w.after[j].Passes?
    ensures var (o, t) := Lifecycle(w, pool, rebuilt);
      var n := |w.before|;
      && n + k + 3 <= |t| && (forall j :: 0 <= j < n ==> t[j] == Before(n - 1 - j))
      && t[n] == Call(pool, RestoreNext) && t[n + 1] == Reset
      && (forall j :: 0 <= j <= k ==> t[n + 2 + j] == After(j))
      && if w.after[k].Fails? && !w.after[k].displayPanics then
           && o == Failed(w.after[k].error)
           && t[n + k + 3..] == [Report(Restore)] + (if w.reportBuild.Some? then [] else [Call(rebuilt, RestoreError)])
         else o == Unwound && |t| == n + k + 3
  {
    FirstStopFacts(w.after);
    assert FirstStop(w.after) == Some(k);
    RestoredIff(w);
    StoppedAfter(w, pool, rebuilt);
    RestoredWorkAt(w, pool, k + 1);
    ReportIs(w, Restore, rebuilt);
    AfterWork(Work(w, pool), Tail(w, pool, rebuilt));
  }

  lemma AfterWork(work: seq<Event>, tail: seq<Event>)
    ensures (work + tail)[|work|..] == tail
    ensures forall i :: 0 <= i < |work| ==> (work + tail)[i] == work[i]
  {
  }

  /** The work of a lifecycle that got past the restore and ran the first `up` after-hooks. */
  lemma RestoredWorkAt(w: World, pool: nat, up: nat)
    requires Restored(w) && up == match FirstStop(w.after) case Some(k) => k + 1 case None => |w.after|
    ensures var (work, n) := (Work(w, pool), |w.before|);
      && |work| == n + 2 + up
      && (forall j :: 0 <= j < n ==> work[j] == Before(n - 1 - j))
      && work[n] == Call(pool, RestoreNext) && work[n + 1] == Reset
      && (forall j :: 0 <= j < up ==> work[n + 2 + j] == After(j))
  {
    WorkWhenRestored(w, pool);
    FourParts(|w.before|, Call(pool, RestoreNext), Reset, up);
  }

  lemma FourParts(n: nat, x: Event, y: Event, up: nat)
    ensures var t := Downwards(n, 0) + [x] + ([y] + Upwards(up));
      && |t| == n + 2 + up && t[n] == x && t[n + 1] == y
      && (forall j :: 0 <= j < n ==> t[j] == Before(n - 1 - j))
      && (forall j :: 0 <= j < up ==> t[n + 2 + j] == After(j))
  {
    DownwardsAre(n, 0);
    UpwardsAt(up);
    var a, b := Downwards(n, 0), Upwards(up);
    Positions(a, x, y, b);
    var t := a + [x] + ([y] + b);
    forall j | 0 <= j < up ensures t[n + 2 + j] == After(j) { assert b[j] == After(j); }
  }

  lemma Positions(a: seq<Event>, x: Event, y: Event, b: seq<Event>)
    ensures var t := a + [x] + ([y] + b);
      && |t| == |a| + 2 + |b| && t[|a|] == x && t[|a| + 1] == y
      && (forall j :: 0 <= j < |a| ==> t[j] == a[j])
      && (forall j :: 0 <= j < |b| ==> t[|a| + 2 + j] == b[j])
  {
  }

  /** With nothing in the way the lifecycle completes. */
  lemma NothingStops(w: World, pool: nat, rebuilt: nat)
    requires (forall j :: 0 <= j < |w.before| ==> w.before[j].Passes?) && w.nextBuild.None?
    requires w.next.Ok? && 200 <= w.next.value < 300 && forall j :: 0 <= j < |w.after| ==> w.after[j].Passes?
    ensures var (o, t) := Lifecycle(w, pool, rebuilt);
      var n := |w.before|;
      && o == Completed && |t| == n + 2 + |w.after|
      && (forall j :: 0 <= j < n ==> t[j] == Before(n - 1 - j))
      && t[n] == Call(pool, RestoreNext) && t[n + 1] == Reset
      && (forall j :: 0 <= j < |w.after| ==> t[n + 2 + j] == After(j))
  {
    FirstStopFacts(w.after);
    RestoredIff(w);
    RestoredWorkAt(w, pool, |w.after|);
  }

  function Reports(trace: seq<Event>): nat {
    if trace == [] then 0
    else Reports(trace[..|trace| - 1]) + (if trace[|trace| - 1].Report? then 1 else 0)
  }

  lemma {:induction false} NoReports(trace: seq<Event>)
    requires forall i :: 0 <= i < |trace| ==> !trace[i].Report?
    ensures Reports(trace) == 0
  {
    if trace != [] { NoReports(trace[..|trace| - 1]); }
  }

  lemma {:induction false} ReportsAdd(a: seq<Event>, b: seq<Event>)
    ensures Reports(a + b) == Reports(a) + Reports(b)
  {
    if b == [] {
      assert a + b == a;
    } else {
      assert (a + b)[..|a + b| - 1] == a + b[..|b| - 1];
      ReportsAdd(a, b[..|b| - 1]);
    }
  }

  lemma OneReport(w: World, kind: ReportKind, pool: nat)
    ensures Reports(ReportEvents(w, kind, pool)) == 1
  {
    var report := ReportEvents(w, kind, pool);
    assert report[..1] == [Report(kind)] && report[..1][..0] == [];
    assert Reports(report[..1]) == 1;
  }

  /** A hook was reached whose panic unwinds through the lifecycle. */
  predicate HookUnwinds(w: World) {
    LastStopFacts(w.before);
    FirstStopFacts(w.after);
    match LastStop(w.before)
    case Some(k) => Unwinds(w.before[k])
    case None => Restored(w) && FirstStop(w.after).Some? && Unwinds(w.after[FirstStop(w.after).value])
  }

  /** A lifecycle that does not complete makes exactly one report attempt, as the last thing it does, to
      `/init/error` before the restore and `/restore/error` after it, and returns the error that stopped
      it; the only ones to go unreported are those unwound by a hook's panic and those whose
      `/restore/next` request could not be built. A lifecycle that completes reports nothing. */
  lemma OneReportPerFailure(w: World, pool: nat, rebuilt: nat)
    requires w.Valid()
    ensures var (o, t) := Lifecycle(w, pool, rebuilt);
      && (o.Completed? <==> Restored(w) && FirstStop(w.after).None?)
      && (w.next.Ok? && (w.next.value < 200 || 300 <= w.next.value) ==> !o.Completed? && !Restored(w))
      && (o.Unwound? <==> HookUnwinds(w))
      && (Reports(t) == 0 <==> o.Completed? || o.Unwound? || (LastStop(w.before).None? && w.nextBuild.Some?))
      && Reports(t) <= 1
      && (Reports(t) == 0 ==> t == Work(w, pool))
      && (Reports(t) == 1 ==> t == Work(w, pool) + (if Restored(w) then ReportEvents(w, Restore, rebuilt)
                                                    else ReportEvents(w, Init, pool)))
  {
    LastStopFacts(w.before);
    FirstStopFacts(w.after);
    var work, tail := Work(w, pool), Tail(w, pool, rebuilt);
    forall i | 0 <= i < |work| ensures !work[i].Report? { WorkAt(w, pool, i); }
    NoReports(work);
    ReportsAdd(work, tail);
    match Ending(w).1
    case None => assert work + tail == work;
    case Some(kind) => OneReport(w, kind, if kind.Init? then pool else rebuilt);
  }

  /** The tail of a trace holds no hook, no reset and no `/restore/next`. */
  lemma TailAt(w: World, pool: nat, rebuilt: nat, i: nat)
    requires i < |Lifecycle(w, pool, rebuilt).1|
    ensures i < |Work(w, pool)| ==> Lifecycle(w, pool, rebuilt).1[i] == Work(w, pool)[i]
    ensures i >= |Work(w, pool)| ==>
      var e := Lifecycle(w, pool, rebuilt).1[i];
      e.Report? || e == Call(pool, InitError) || (e == Call(rebuilt, RestoreError) && Restored(w))
  {
  }

  /** An after-hook runs only in a process where every before-hook ran and passed, `/restore/next`
      succeeded, the pool was reset, and all after-hooks registered earlier ran and passed. */
  lemma AfterHooksNeedRestore(w: World, pool: nat, rebuilt: nat, i: nat)
    requires w.Valid() && i < |Lifecycle(w, pool, rebuilt).1| && Lifecycle(w, pool, rebuilt).1[i].After?
    ensures (forall k :: 0 <= k < |w.before| ==> w.before[k].Passes?) && w.nextBuild.None?
    ensures w.next.Ok? && 200 <= w.next.value < 300
    ensures var (t, n) := (Lifecycle(w, pool, rebuilt).1, |w.before|);
      && n + 2 <= i < |t| && i - n - 2 < n == |w.after|
      && t[i] == After(i - n - 2)
      && (forall j :: 0 <= j < n ==> t[j] == Before(n - 1 - j))
      && t[n] == Call(pool, RestoreNext) && t[n + 1] == Reset
      && (forall j :: n + 2 <= j < i ==> t[j] == After(j - n - 2))
      && (forall j :: 0 <= j < i - n - 2 ==> w.after[j].Passes?)
  {
    var t, n := Lifecycle(w, pool, rebuilt).1, |w.before|;
    TailAt(w, pool, rebuilt, i);
    WorkAt(w, pool, i);
    RestoredIff(w);
    forall j | 0 <= j < i
      ensures t[j] == Work(w, pool)[j]
      ensures j < n ==> t[j] == Before(n - 1 - j)
      ensures j == n ==> t[j] == Call(pool, RestoreNext)
      ensures j == n + 1 ==> t[j] == Reset
      ensures j > n + 1 ==> t[j] == After(j - n - 2)
    {
      WorkAt(w, pool, j);
    }
  }

  /** Before-hooks run from the last registered down, without a gap, until one fails. */
  lemma BeforeHooksReversed(w: World, pool: nat, rebuilt: nat, i: nat)
    requires w.Valid() && i < |Lifecycle(w, pool, rebuilt).1| && Lifecycle(w, pool, rebuilt).1[i].Before?
    ensures i < |w.before| && Lifecycle(w, pool, rebuilt).1[i] == Before(|w.before| - 1 - i)
    ensures forall j :: 0 <= j < i ==> Lifecycle(w, pool, rebuilt).1[j] == Before(|w.before| - 1 - j)
    ensures forall k :: |w.before| - 1 - i < k < |w.before| ==> w.before[k].Passes?
  {
    TailAt(w, pool, rebuilt, i);
    WorkAt(w, pool, i);
    forall j | 0 <= j < i ensures Lifecycle(w, pool, rebuilt).1[j] == Before(|w.before| - 1 - j) {
      WorkAt(w, pool, j);
    }
  }
  /** `/restore/next` and `/init/error` leave through the original pool, `/restore/error` through the
      rebuilt one and only after the restore, and the lifecycle sends nothing else. */
  lemma PoolsOfLifecycle(w: World, pool: nat, rebuilt: nat, i: nat)
    requires w.Valid() && i < |Lifecycle(w, pool, rebuilt).1| && Lifecycle(w, pool, rebuilt).1[i].Call?
    ensures var e := Lifecycle(w, pool, rebuilt).1[i];
      e in {Call(pool, RestoreNext), Call(pool, InitError)} || (e == Call(rebuilt, RestoreError) && Restored(w))
  {
    TailAt(w, pool, rebuilt, i);
    if i < |Work(w, pool)| { WorkAt(w, pool, i); }
  }
}
