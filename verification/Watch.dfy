/** The single-value watch cell behind a body channel: an atomic value and a waker slot, one sender
    and one receiver on different threads.

    `AtomicWaker` is used through its contract: `register` stores the receiver's waker, `wake` takes
    whatever waker is stored and fires it; each is one atomic action. */
module Watch {
  import opened Common
  import opened Runs

  const CLOSED: nat := 0

  /** `send` swaps the value, then wakes if the value differed; `MustWake` is the gap between. */
  datatype Sender = Ready | MustWake | Gone(mustWake: bool)

  /** `load` registers the waker, then reads the value; `Registered` is the gap between. */
  datatype Receiver = Fresh | Registered | Loaded(last: nat)

  /** `woken` tells whether the receiver's task was woken since it last registered. */
  datatype State = State(value: nat, sender: Sender, receiver: Receiver, slot: bool, woken: bool)

  datatype Event = Swap(v: nat) | SwapByDrop | Wake | Register | Load

  function Init(initial: nat): State {
    State(initial, Ready, Fresh, false, false)
  }

  function Step(s: State, e: Event): Option<State> {
    match e
    case Swap(v) =>
      if s.sender.Ready? then
        Some(s.(value := v, sender := if s.value != v then MustWake else Ready))
      else None
    case SwapByDrop =>
      if s.sender.Ready? then Some(s.(value := CLOSED, sender := Gone(s.value != CLOSED))) else None
    case Wake =>
      if s.sender.MustWake? then Some(Fire(s).(sender := Ready))
      else if s.sender.Gone? && s.sender.mustWake then Some(Fire(s).(sender := Gone(false)))
      else None
    case Register =>
      if s.receiver.Registered? then None
      else Some(s.(receiver := Registered, slot := true, woken := false))
    case Load =>
      if s.receiver.Registered? then Some(s.(receiver := Loaded(s.value))) else None
  }

  /** `AtomicWaker::wake` */
  function Fire(s: State): State {
    s.(slot := false, woken := s.woken || s.slot)
  }

  predicate WakePending(s: State) {
    s.sender.MustWake? || (s.sender.Gone? && s.sender.mustWake)
  }

  ghost predicate Inv(s: State) {
    && (!s.receiver.Fresh? && !s.woken ==> s.slot)
    && (s.receiver.Loaded? && s.value != s.receiver.last && !s.woken ==> WakePending(s))
    && (s.sender.Gone? ==> s.value == CLOSED)
  }

  lemma InvAlways(initial: nat, s: State)
    requires Reaches(Step, Init(initial), s)
    ensures Inv(s)
  {
    InvariantHolds(Step, Inv, Init(initial), s);
  }

  /** No wake-up is lost: once the receiver has loaded a value and the cell holds another, its task
      has been woken since it registered, or the sender is between its swap and its wake. */
  lemma NoLostWakeUp(initial: nat, s: State)
    requires Reaches(Step, Init(initial), s) && s.receiver.Loaded?
    ensures s.value == s.receiver.last || s.woken || WakePending(s)
  {
    InvAlways(initial, s);
  }

  /** The pending wake reaches the receiver: firing it leaves the receiver's task woken. */
  lemma PendingWakeArrives(initial: nat, s: State)
    requires Reaches(Step, Init(initial), s) && Step(s, Wake).Some? && !s.receiver.Fresh?
    ensures Step(s, Wake).value.woken
  {
    InvAlways(initial, s);
  }

  /** The receiver is only notified of a different value: while the sender keeps storing what is there
      already and is not dropped, the task is not woken. */
  lemma {:induction false} SameValueWakesNobody(s: State, evs: seq<Event>, t: State)
    requires s.sender.Ready? && !s.woken && Exec(Step, s, evs) == Some(t)
    requires forall i :: 0 <= i < |evs| ==> !evs[i].SwapByDrop? && (evs[i].Swap? ==> evs[i].v == s.value)
    ensures t.sender.Ready? && !t.woken && t.value == s.value
    decreases |evs|
  {
    if evs != [] {
      SameValueWakesNobody(Step(s, evs[0]).value, evs[1..], t);
    }
  }

  /** After the sender is dropped the receiver loads CLOSED, now and at every later load. */
  lemma {:induction false} ClosedStays(s: State, evs: seq<Event>, t: State)
    requires s.sender.Gone? && s.value == CLOSED && Exec(Step, s, evs) == Some(t)
    ensures t.sender.Gone? && t.value == CLOSED
    ensures evs != [] && evs[|evs| - 1].Load? ==> t.receiver == Loaded(CLOSED)
    decreases |evs|
  {
    if evs != [] {
      var u := Step(s, evs[0]).value;
      ClosedStays(u, evs[1..], t);
      if |evs| > 1 {
        assert evs[1..][|evs| - 2] == evs[|evs| - 1];
      } else {
        assert Exec(Step, u, evs[1..]) == Some(u);
      }
    }
  }

  /* ---------- the calls themselves ---------- */

  /** The shared cell; each method below is one call not interleaved with the other side. */
  class Shared {
    var state: State

    constructor (initial: nat)
      ensures state == Init(initial)
    {
      state := Init(initial);
    }

    /** `Sender::send`: wakes the receiver only if the value differed. */
    method Send(v: nat)
      requires state.sender.Ready?
      modifies this
      ensures state.value == v && state.sender.Ready? && state.receiver == old(state.receiver)
      ensures state.woken == (old(state.woken) || (old(state.value) != v && old(state.slot)))
      ensures state.slot == (old(state.slot) && old(state.value) == v)
      ensures Reaches(Step, old(state), state)
    {
      ghost var before := state;
      var differed := state.value != v;
      state := state.(value := v);
      ReachesItself(Step, before);
      ReachesNext(Step, before, before, Swap(v));
      if differed {
        ReachesNext(Step, before, before.(value := v, sender := MustWake), Wake);
        state := Fire(state);
      }
    }

    /** `Receiver::load`: the waker is in place before the value is read. */
    method LoadValue() returns (v: nat)
      requires !state.receiver.Registered?
      modifies this
      ensures v == state.value == old(state.value)
      ensures state == old(state).(receiver := Loaded(v), slot := true, woken := false)
      ensures Reaches(Step, old(state), state)
    {
      ghost var before := state;
      state := state.(receiver := Registered, slot := true, woken := false);
      ReachesItself(Step, before);
      ReachesNext(Step, before, before, Register);
      ReachesNext(Step, before, state, Load);
      v := state.value;
      state := state.(receiver := Loaded(v));
    }
  }
}
