/** The lock-free call-site limiter: one atomic `NEXT_CALL`, any number of threads.

    Times are nanoseconds since the process epoch. `cells` is the modification order of the atomic;
    a relaxed load may return any cell its thread has not yet moved past. */
module RateLimiter {
  import opened Common
  import opened Runs

  const SECOND: nat := 1_000_000_000
  const U64_MAX: nat := 0xFFFF_FFFF_FFFF_FFFF
  const DURATION_MAX: nat := U64_MAX * SECOND + 999_999_999

  function Secs(t: nat): nat { t / SECOND }

  /** `time.checked_add(interval).unwrap_or(Duration::MAX).as_secs()` */
  function NewNext(time: nat, interval: nat): nat {
    if time + interval <= DURATION_MAX then Secs(time + interval) else U64_MAX
  }

  /** A second has begun when its number is at most the clock's. */
  lemma DueSecond(second: nat, now: nat)
    ensures second * 1_000_000_000 <= now <==> second <= Secs(now)
  {
  }

  /** The second stored is the one in which the interval is over; past the last the counter can hold, that
      last one. */
  lemma NewNextIs(time: nat, interval: nat)
    ensures var due := time + interval;
      if due < 0x1_0000_0000_0000_0000 * 1_000_000_000
      then NewNext(time, interval) * 1_000_000_000 <= due < (NewNext(time, interval) + 1) * 1_000_000_000
      else NewNext(time, interval) == 0xFFFF_FFFF_FFFF_FFFF
  {
  }

  /** Where a thread stands in the macro body: outside it, after reading the clock, or past the
      `next <= time.as_secs()` test with `seen` the cell its load returned. */
  datatype Thread = Idle | Timed(time: nat) | Armed(time: nat, seen: nat)

  /** One successful compare-exchange, i.e. one evaluation of `$call`: the clock value the thread
      had read, the cell it had loaded, and the clock when the exchange took place. */
  datatype Win = Win(thread: nat, time: nat, seen: nat, at: nat)

  datatype State = State(
    interval: nat, now: nat, cells: seq<nat>, wins: seq<Win>, threads: map<nat, Thread>, views: map<nat, nat>)
  {
    function ThreadOf(th: nat): Thread { if th in threads then threads[th] else Idle }

    /** The oldest cell thread `th` may still read. */
    function View(th: nat): nat { if th in views then views[th] else 0 }

    function Move(th: nat, t: Thread): State { this.(threads := threads[th := t]) }
  }

  datatype Event =
    | Tick(elapsed: nat)
    | ReadClock(thread: nat)
    | Load(thread: nat, cell: nat)
    | CasWins(thread: nat)
    | CasLoses(thread: nat, cell: nat)

  function Init(interval: nat): State {
    State(interval, 0, [0], [], map[], map[])
  }

  function Step(s: State, e: Event): Option<State> {
    match e
    case Tick(elapsed) => Some(s.(now := s.now + elapsed))
    case ReadClock(th) =>
      if s.ThreadOf(th).Idle? then Some(s.Move(th, Timed(s.now))) else None
    case Load(th, cell) =>
      if s.ThreadOf(th).Timed? && s.View(th) <= cell < |s.cells| then
        var time := s.ThreadOf(th).time;
        var t := s.(views := s.views[th := cell]);
        Some(t.Move(th, if s.cells[cell] <= Secs(time) then Armed(time, cell) else Idle))
      else None
    case CasWins(th) =>
      if s.ThreadOf(th).Armed? && s.ThreadOf(th).seen < |s.cells|
         && s.cells[s.ThreadOf(th).seen] == s.cells[|s.cells| - 1] then
        var Armed(time, seen) := s.ThreadOf(th);
        Some(s.(cells := s.cells + [NewNext(time, s.interval)],
                wins := s.wins + [Win(th, time, seen, s.now)],
                views := s.views[th := |s.cells|]).Move(th, Idle))
      else None
    case CasLoses(th, cell) =>
      if s.ThreadOf(th).Armed? && s.ThreadOf(th).seen <= cell < |s.cells|
         && s.View(th) <= cell && s.cells[cell] != s.cells[s.ThreadOf(th).seen] then
        Some(s.(views := s.views[th := cell]).Move(th, Idle))
      else None
  }

  /** What a success leaves behind: it wrote `cells[i + 1]`, found `cells[i]` due, and its load had
      returned a cell with the value `cells[i]`. */
  ghost predicate WinFits(s: State, i: nat)
    requires i < |s.wins| && |s.cells| == |s.wins| + 1
  {
    var w := s.wins[i];
    && s.cells[i + 1] == NewNext(w.time, s.interval)
    && s.cells[i] <= Secs(w.time)
    && w.seen <= i
    && s.cells[w.seen] == s.cells[i]
    && w.time <= w.at <= s.now
    && i + 1 <= s.View(w.thread)
  }

  ghost predicate ThreadFits(s: State, th: nat) {
    && s.View(th) < |s.cells|
    && match s.ThreadOf(th)
       case Idle => true
       case Timed(time) => time <= s.now
       case Armed(time, seen) =>
         time <= s.now && seen < |s.cells| && s.View(th) <= seen && s.cells[seen] <= Secs(time)
  }

  ghost predicate Inv(s: State) {
    && |s.cells| == |s.wins| + 1
    && s.cells[0] == 0
    && (forall i: nat :: i < |s.wins| ==> WinFits(s, i))
    && (forall th: nat :: ThreadFits(s, th))
    && (forall i, j :: 0 <= i < j < |s.wins| ==> s.wins[i].at <= s.wins[j].at)
  }

  lemma ThreadsKept(s: State, e: Event, th: nat)
    requires Inv(s) && Step(s, e).Some?
    ensures ThreadFits(Step(s, e).value, th)
  {
    assert ThreadFits(s, th);
  }

  /** A thread's view never moves back. */
  lemma ViewsAdvance(s: State, e: Event, th: nat)
    requires Inv(s) && Step(s, e).Some?
    ensures s.View(th) <= Step(s, e).value.View(th)
  {
    assert ThreadFits(s, th);
  }

  lemma OldWinsKept(s: State, e: Event, i: nat)
    requires Inv(s) && Step(s, e).Some? && i < |s.wins|
    ensures i < |Step(s, e).value.wins| && |Step(s, e).value.cells| == |Step(s, e).value.wins| + 1
    ensures WinFits(Step(s, e).value, i) && Step(s, e).value.wins[i] == s.wins[i]
  {
    assert WinFits(s, i);
    ViewsAdvance(s, e, s.wins[i].thread);
  }

  lemma NewWinFits(s: State, e: Event)
    requires Inv(s) && Step(s, e).Some? && e.CasWins?
    ensures |Step(s, e).value.wins| == |s.wins| + 1 && |Step(s, e).value.cells| == |s.wins| + 2
    ensures WinFits(Step(s, e).value, |s.wins|) && Step(s, e).value.wins[|s.wins|].at == s.now
  {
    assert ThreadFits(s, e.thread);
  }

  lemma StepKeepsInv(s: State, e: Event)
    requires Inv(s) && Step(s, e).Some?
    ensures Inv(Step(s, e).value)
  {
    var t := Step(s, e).value;
    forall th: nat ensures ThreadFits(t, th) { ThreadsKept(s, e, th); }
    forall i: nat | i < |s.wins| ensures WinFits(t, i) && t.wins[i] == s.wins[i] { OldWinsKept(s, e, i); }
    if e.CasWins? {
      NewWinFits(s, e);
      forall i | 0 <= i < |s.wins| ensures s.wins[i].at <= s.now { assert WinFits(s, i); }
    }
  }

  ghost predicate Reachable(interval: nat, s: State) {
    Reaches(Step, Init(interval), s)
  }

  lemma ReachableInv(interval: nat, s: State)
    requires Reachable(interval, s)
    ensures Inv(s) && s.interval == interval
  {
    var inv := (a: State) => Inv(a) && a.interval == interval;
    forall a, e | inv(a) && Step(a, e).Some? ensures inv(Step(a, e).value) {
      StepKeepsInv(a, e);
    }
    InvariantHolds(Step, inv, Init(interval), s);
  }

  /** Extends a reachable state by one event, for the concrete runs below. */
  lemma Then(interval: nat, s: State, e: Event) returns (t: State)
    requires Reachable(interval, s) && Step(s, e).Some?
    ensures Reachable(interval, t) && Step(s, e) == Some(t)
  {
    t := Next(Step, Init(interval), s, e);
  }

  lemma Start(interval: nat) returns (t: State)
    ensures Reachable(interval, t) && t == Init(interval)
  {
    t := Init(interval);
    ReachesItself(Step, t);
  }

  /** One evaluation of the macro by an idle thread, no other thread in between, is a run: it wins
      exactly when the newest cell is due. */
  lemma EvaluationIsRun(interval: nat, s: State, th: nat) returns (t: State)
    requires Reachable(interval, s) && s.ThreadOf(th).Idle?
    ensures Reaches(Step, s, t) && Reachable(interval, t) && t.ThreadOf(th).Idle? && t.now == s.now
    ensures |s.cells| > 0
    ensures var last := |s.cells| - 1;
      if s.cells[last] * 1_000_000_000 <= s.now
      then t.wins == s.wins + [Win(th, s.now, last, s.now)] && |t.cells| == |s.cells| + 1
      else t.cells == s.cells && t.wins == s.wins
  {
    ReachableInv(interval, s);
    assert ThreadFits(s, th);
    var last := |s.cells| - 1;
    ReachesItself(Step, s);
    DueSecond(s.cells[last], s.now);
    t := Next(Step, s, s, ReadClock(th));
    t := Next(Step, s, t, Load(th, last));
    if s.cells[last] <= Secs(s.now) {
      t := Next(Step, s, t, CasWins(th));
    }
    ReachesTransitively(Step, Init(interval), s, t);
  }

  /* ---------- what a success stores, and when the next is due ---------- */

  /** Every success leaves the second in which its clock reading plus the interval falls. */
  lemma StoredSecond(interval: nat, s: State, i: nat)
    requires Reachable(interval, s) && i < |s.wins|
    ensures |s.cells| == |s.wins| + 1 && s.cells[0] == 0
    ensures var due := s.wins[i].time + interval;
      if due < 0x1_0000_0000_0000_0000 * 1_000_000_000
      then s.cells[i + 1] * 1_000_000_000 <= due < (s.cells[i + 1] + 1) * 1_000_000_000
      else s.cells[i + 1] == 0xFFFF_FFFF_FFFF_FFFF
  {
    ReachableInv(interval, s);
    assert WinFits(s, i);
    NewNextIs(s.wins[i].time, interval);
  }

  /** Once a full interval has passed since the clock reading of the last success, or when there was none
      yet, an idle thread that evaluates the macro undisturbed runs the call. */
  lemma CallsOnceDue(interval: nat, s: State, th: nat) returns (t: State)
    requires Reachable(interval, s) && s.ThreadOf(th).Idle?
    requires s.wins != [] ==> s.wins[|s.wins| - 1].time + interval <= s.now
    ensures Reaches(Step, s, t) && t.now == s.now && t.wins == s.wins + [Win(th, s.now, |s.wins|, s.now)]
  {
    ReachableInv(interval, s);
    if s.wins != [] { StoredSecond(interval, s, |s.wins| - 1); }
    t := EvaluationIsRun(interval, s, th);
  }

  /* ---------- spacing of the successful calls ---------- */

  lemma NewNextCovers(time: nat, interval: nat)
    ensures NewNext(time, interval) >= U64_MAX || NewNext(time, interval) >= Secs(time) + Secs(interval)
  {
  }

  /** Successes in the order of their exchanges: the j-th read a clock at least j - i whole intervals,
      in seconds, past the clock the i-th had read, whatever the threads did in between. Only the
      end of the 64-bit second counter caps the bound. */
  lemma {:induction false} CallsAreSpaced(interval: nat, s: State, i: nat, j: nat)
    requires Reachable(interval, s) && i <= j < |s.wins|
    ensures Secs(s.wins[j].time) >= U64_MAX
         || Secs(s.wins[j].time) >= Secs(s.wins[i].time) + (j - i) * Secs(interval)
    decreases j
  {
    if i < j {
      CallsAreSpaced(interval, s, i, j - 1);
      ReachableInv(interval, s);
      assert WinFits(s, j - 1) && WinFits(s, j);
      NewNextCovers(s.wins[j - 1].time, interval);
      assert (j - i) * Secs(interval) == (j - 1 - i) * Secs(interval) + Secs(interval);
    }
  }

  /** Consecutive successes: the later clock reading is due by the earlier one's exact sum, rounded
      down to a second once, after adding the interval. */
  lemma NextCallIsDue(interval: nat, s: State, i: nat)
    requires Reachable(interval, s) && i + 1 < |s.wins|
    ensures var due := s.wins[i].time + interval;
      s.wins[i + 1].time / 1_000_000_000 >=
        if due < 0x1_0000_0000_0000_0000 * 1_000_000_000 then due / 1_000_000_000 else 0xFFFF_FFFF_FFFF_FFFF
  {
    ReachableInv(interval, s);
    assert WinFits(s, i) && WinFits(s, i + 1);
  }

  /** By the wall clock two consecutive calls can be closer than the interval by less than a second
      plus the time the earlier thread waited between reading the clock and its exchange. */
  lemma WallClockGap(interval: nat, s: State, i: nat)
    requires Reachable(interval, s) && i + 1 < |s.wins|
    requires s.wins[i].time + interval <= DURATION_MAX
    ensures s.wins[i].at <= s.wins[i + 1].at
    ensures s.wins[i + 1].at + (s.wins[i].at - s.wins[i].time) + SECOND > s.wins[i].at + interval
  {
    ReachableInv(interval, s);
    assert WinFits(s, i) && WinFits(s, i + 1);
  }

  /** Modification order, clock and interval only move forward. */
  lemma StepGoesForward(s: State, e: Event)
    requires Step(s, e).Some?
    ensures var t := Step(s, e).value;
      t.interval == s.interval && s.now <= t.now && s.wins <= t.wins && s.cells <= t.cells
  {
  }

  lemma {:induction false} RunGoesForward(s: State, evs: seq<Event>, t: State)
    requires Exec(Step, s, evs) == Some(t)
    ensures t.interval == s.interval && s.now <= t.now && s.wins <= t.wins && s.cells <= t.cells
    decreases |evs|
  {
    if evs != [] {
      StepGoesForward(s, evs[0]);
      RunGoesForward(Step(s, evs[0]).value, evs[1..], t);
    }
  }

  /** From `s` on the call can run again at a moment before `deadline`. */
  ghost predicate CallsAgainBefore(s: State, deadline: nat) {
    exists t :: CallsAgain(s, t, deadline)
  }

  ghost predicate CallsAgain(s: State, t: State, deadline: nat) {
    Reaches(Step, s, t) && |s.wins| < |t.wins| && t.wins[|s.wins|].at < deadline
  }

  /** The documentation promises one call per interval. Just after a call, made at `w.at` on a clock
      reading of `w.time`, that promise can be broken if and only if the stored second, the reading plus
      the interval rounded down, begins before a full interval has passed since the call. */
  lemma RateBrokenIff(interval: nat, r: State, th: nat)
    requires Reachable(interval, r) && Step(r, CasWins(th)).Some?
    ensures var s := Step(r, CasWins(th)).value;
      && |s.wins| > 0
      && var w := s.wins[|s.wins| - 1];
         var due := if w.time + interval < 0x1_0000_0000_0000_0000 * 1_000_000_000
                    then (w.time + interval) / 1_000_000_000 else 0xFFFF_FFFF_FFFF_FFFF;
         CallsAgainBefore(s, w.at + interval) <==> interval > 0 && due * 1_000_000_000 < w.at + interval
  {
    var s := Then(interval, r, CasWins(th));
    ReachableInv(interval, s);
    var n := |s.wins|;
    var w := s.wins[n - 1];
    var due := NewNext(w.time, interval) * SECOND;
    assert WinFits(s, n - 1);
    if interval > 0 && due < w.at + interval {
      var t := CallWhenDue(interval, s, th);
      assert CallsAgain(s, t, w.at + interval);
    }
    if CallsAgainBefore(s, w.at + interval) {
      var t :| CallsAgain(s, t, w.at + interval);
      var evs :| Exec(Step, s, evs) == Some(t);
      NextCallNotBefore(interval, s, evs, t);
    }
  }

  /** The next call is neither before the present moment nor before the stored second begins. */
  lemma NextCallNotBefore(interval: nat, s: State, evs: seq<Event>, t: State)
    requires Reachable(interval, s) && |s.cells| > 0
    requires Exec(Step, s, evs) == Some(t) && |s.wins| < |t.wins|
    ensures t.wins[|s.wins|].at >= s.now
    ensures t.wins[|s.wins|].at >= s.cells[|s.cells| - 1] * SECOND
    decreases |evs|
  {
    ReachableInv(interval, s);
    if evs != [] {
      var u := Then(interval, s, evs[0]);
      ReachableInv(interval, u);
      StepGoesForward(s, evs[0]);
      RunGoesForward(u, evs[1..], t);
      if evs[0].CasWins? {
        assert WinFits(u, |s.wins|);
      } else {
        NextCallNotBefore(interval, u, evs[1..], t);
      }
    }
  }

  /** An idle thread that waits for the stored second and then evaluates the macro runs the call. */
  lemma CallWhenDue(interval: nat, s: State, th: nat) returns (t: State)
    requires Reachable(interval, s) && s.ThreadOf(th).Idle? && |s.cells| > 0
    ensures Reaches(Step, s, t) && |t.wins| == |s.wins| + 1
    ensures var due := s.cells[|s.cells| - 1] * SECOND;
      t.wins[|s.wins|].at == if s.now < due then due else s.now
  {
    var due := s.cells[|s.cells| - 1] * SECOND;
    ReachesItself(Step, s);
    var u := Next(Step, s, s, Tick(if s.now < due then due - s.now else 0));
    DueSecond(s.cells[|s.cells| - 1], u.now);
    ReachesTransitively(Step, Init(interval), s, u);
    t := EvaluationIsRun(interval, u, th);
    ReachesTransitively(Step, s, u, t);
  }

  /** A thread delayed for the whole interval and a second thread run the call at the same instant. */
  lemma TwoCallsAtOneInstant(interval: nat)
    ensures exists s :: Reachable(interval, s) && |s.wins| == 2 && s.wins[0].at == s.wins[1].at
  {
    var s := Start(interval);
    s := Then(interval, s, ReadClock(0));
    s := Then(interval, s, Load(0, 0));
    s := Then(interval, s, Tick(interval));
    s := Then(interval, s, CasWins(0));
    s := EvaluationIsRun(interval, s, 1);
  }

  /** Any two consecutive calls of the run are at least the interval apart. */
  ghost predicate OncePerInterval(s: State) {
    forall i :: 0 <= i && i + 1 < |s.wins| ==> s.wins[i].at + s.interval <= s.wins[i + 1].at
  }

  /** Read as a statement about the moments of the calls, the documented rate holds in every run for no
      interval but zero. */
  lemma OncePerIntervalIff(interval: nat)
    ensures (forall s :: Reachable(interval, s) ==> OncePerInterval(s)) <==> interval == 0
  {
    if interval > 0 {
      TwoCallsAtOneInstant(interval);
      var s :| Reachable(interval, s) && |s.wins| == 2 && s.wins[0].at == s.wins[1].at;
      ReachableInv(interval, s);
      assert !OncePerInterval(s) by { assert s.wins[0 + 1].at < s.wins[0].at + s.interval; }
    } else {
      forall s | Reachable(interval, s) ensures OncePerInterval(s) {
        ReachableInv(interval, s);
      }
    }
  }

  /* ---------- one winner for each loaded value ---------- */

  /** No success ran into the end of the 64-bit second counter. */
  ghost predicate NoOverflow(s: State) {
    forall i :: 0 <= i < |s.wins| ==> s.wins[i].time + s.interval <= DURATION_MAX
  }

  /** Of all threads that loaded one and the same value, at most one ran the call. */
  ghost predicate OneWinnerPerValue(s: State) {
    forall i, j :: 0 <= i < j < |s.wins| && s.wins[i].seen < |s.cells| && s.wins[j].seen < |s.cells|
      ==> s.cells[s.wins[i].seen] != s.cells[s.wins[j].seen]
  }

  /** With an interval of a second or more every success strictly advances NEXT_CALL. */
  lemma {:induction false} CellsIncrease(s: State, i: nat, j: nat)
    requires Inv(s) && NoOverflow(s) && s.interval >= SECOND && i < j < |s.cells|
    ensures s.cells[i] < s.cells[j]
    decreases j
  {
    assert WinFits(s, j - 1);
    assert s.cells[j - 1] < s.cells[j];
    if i < j - 1 {
      CellsIncrease(s, i, j - 1);
    }
  }

  lemma SlowIntervalHasOneWinner(interval: nat, s: State)
    requires Reachable(interval, s) && interval >= SECOND && NoOverflow(s)
    ensures OneWinnerPerValue(s)
  {
    ReachableInv(interval, s);
    forall i, j | 0 <= i < j < |s.wins| && s.wins[i].seen < |s.cells| && s.wins[j].seen < |s.cells|
      ensures s.cells[s.wins[i].seen] != s.cells[s.wins[j].seen]
    {
      assert WinFits(s, i) && WinFits(s, j);
      CellsIncrease(s, i, j);
    }
  }

  lemma TwoArmedThreads(interval: nat) returns (s: State)
    ensures Reachable(interval, s) && s.interval == interval && s.cells == [0] && s.wins == []
    ensures s.ThreadOf(0) == Armed(0, 0) && s.ThreadOf(1) == Armed(0, 0)
  {
    s := Start(interval);
    s := Then(interval, s, ReadClock(0));
    s := Then(interval, s, ReadClock(1));
    s := Then(interval, s, Load(0, 0));
    s := Then(interval, s, Load(1, 0));
  }

  lemma FastIntervalHasTwoWinners(interval: nat)
    requires interval < SECOND
    ensures exists s :: Reachable(interval, s) && NoOverflow(s) && !OneWinnerPerValue(s)
  {
    var s := TwoArmedThreads(interval);
    s := Then(interval, s, CasWins(0));
    s := Then(interval, s, CasWins(1));
    assert !OneWinnerPerValue(s) by {
      assert s.wins[0].seen == 0 && s.wins[1].seen == 0;
    }
  }

  /** The interval for which a loaded value has at most one winner in every run is exactly one that
      lasts a second or longer: the limiter compares whole seconds only. */
  lemma OneWinnerIff(interval: nat)
    ensures (forall s :: Reachable(interval, s) && NoOverflow(s) ==> OneWinnerPerValue(s)) <==> interval >= SECOND
  {
    if interval >= SECOND {
      forall s | Reachable(interval, s) && NoOverflow(s) ensures OneWinnerPerValue(s) {
        SlowIntervalHasOneWinner(interval, s);
      }
    } else {
      FastIntervalHasTwoWinners(interval);
    }
  }

  /** A thread that loses its exchange lost to another thread: one that succeeded later, in
      modification order, than the success whose value this thread had loaded. */
  lemma LoserLostToAnotherThread(interval: nat, s: State, th: nat, cell: nat)
    requires Reachable(interval, s) && Step(s, CasLoses(th, cell)).Some?
    ensures s.ThreadOf(th).seen < |s.wins|
    ensures forall i :: s.ThreadOf(th).seen <= i < |s.wins| ==> s.wins[i].thread != th
  {
    ReachableInv(interval, s);
    assert ThreadFits(s, th);
    forall i | s.ThreadOf(th).seen <= i < |s.wins| ensures s.wins[i].thread != th {
      assert WinFits(s, i);
    }
  }

  /* ---------- one uninterrupted evaluation of the macro ---------- */

  /** A call site's static. */
  class CallSite {
    var nextCall: nat

    constructor ()
      ensures nextCall == 0
    {
      nextCall := 0;
    }

    /** The macro body with no other thread in between, at time `time`: `$call` runs exactly when the
        stored second has come. */
    method Evaluate(interval: nat, time: nat) returns (called: bool)
      modifies this
      ensures called <==> old(nextCall) * 1_000_000_000 <= time
      ensures !called ==> nextCall == old(nextCall)
      ensures called && time + interval < 0x1_0000_0000_0000_0000 * 1_000_000_000 ==>
                nextCall * 1_000_000_000 <= time + interval < (nextCall + 1) * 1_000_000_000
      ensures called && time + interval >= 0x1_0000_0000_0000_0000 * 1_000_000_000 ==>
                nextCall == 0xFFFF_FFFF_FFFF_FFFF
    {
      called := false;
      var next := nextCall;
      if next <= Secs(time) {
        var newNext := if time + interval <= DURATION_MAX then Secs(time + interval) else U64_MAX;
        if nextCall == next {
          nextCall := newNext;
          called := true;
        }
      }
    }
  }
}
