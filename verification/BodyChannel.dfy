/** The streaming body channel: `Sender` and `ChannelBody` over a want cell, a data queue and a
    one-shot trailers slot.

    Contracts taken from the futures crate, and nothing else: the data queue is first in, first out;
    a sender may have one message of its own in a queue of capacity zero, while a fresh clone may
    always add one; dropping the receiver closes and empties the queue; the queue ends only when its
    sender is gone and it is empty; the one-shot slot yields its value once, then reports
    cancellation. */
module BodyChannel {
  import opened Common
  import opened Runs
  import Watch

  const CLOSED: nat := Watch.CLOSED
  const WANT_PENDING: nat := 1
  const WANT_READY: nat := 2

  type HeaderMap = map<string, string>

  datatype Poll<+T> = Pending | Ready(value: T)

  /** What the data queue carries: `Result<Bytes, Error>`. */
  datatype Item = Data(chunk: Bytes) | Fail(error: string)

  /** What `poll_frame` yields when it is ready. */
  datatype Frame = Piece(item: Item) | Trailers(headers: HeaderMap) | End

  datatype SendResult = Sent | ChannelClosed
  datatype TrySend = Accepted | Full | Disconnected

  datatype Slot = Vacant | Holding(headers: HeaderMap) | Spent(headers: HeaderMap)

  /** The shared state of both halves, with the history of what was accepted, what was delivered and
      how each completed `send_data` ended. */
  datatype Chan = Chan(
    want: nat,
    queue: seq<Item>, rxOpen: bool, txAlive: bool, rxDone: bool,
    slot: Slot, trailersTx: bool, trailersRx: bool,
    accepted: seq<Item>, delivered: seq<Frame>, sends: seq<SendResult>)

  function NewChan(): Chan {
    Chan(WANT_READY, [], true, true, false, Vacant, true, true, [], [], [])
  }

  /* ---------- the atomic actions ---------- */

  /** `data_tx.poll_ready`: Ready(false) stands for a disconnected queue. */
  function PollSlot(c: Chan): Poll<bool> {
    if !c.rxOpen then Ready(false)
    else if exists i :: 0 <= i < |c.queue| && c.queue[i].Data? then Pending
    else Ready(true)
  }

  function Push(c: Chan, item: Item): Chan {
    c.(queue := c.queue + [item], accepted := c.accepted + [item])
  }

  /** `data_tx.try_send` by the sender itself. */
  function TrySendOwn(c: Chan, chunk: Bytes): (Chan, TrySend) {
    match PollSlot(c)
    case Ready(false) => (c, Disconnected)
    case Pending => (c, Full)
    case Ready(true) => (Push(c, Data(chunk)), Accepted)
  }

  /** `data_tx.clone().try_send`: the clone has a slot of its own. */
  function TrySendClone(c: Chan, error: string): Chan {
    if c.rxOpen then Push(c, Fail(error)) else c
  }

  function PutTrailers(c: Chan, headers: HeaderMap): Chan {
    if c.trailersRx then c.(slot := Holding(headers), trailersTx := false) else c.(trailersTx := false)
  }

  function Deliver(c: Chan, f: Frame): Chan {
    c.(delivered := c.delivered + [f])
  }

  /** `data_rx.poll_next` */
  function PollData(c: Chan): (Chan, Poll<Option<Item>>) {
    if c.queue != [] then (c.(queue := c.queue[1..]), Ready(Some(c.queue[0])))
    else if !c.txAlive then (c.(rxDone := true), Ready(None))
    else (c, Pending)
  }

  /** `trailers_rx.poll`; Ready(None) is cancellation. */
  function PollTrailers(c: Chan): (Chan, Poll<Option<HeaderMap>>) {
    if c.slot.Holding? then (c.(slot := Spent(c.slot.headers)), Ready(Some(c.slot.headers)))
    else if c.trailersTx then (c, Pending)
    else (c, Ready(None))
  }

  /* ---------- both halves running on their own threads ---------- */

  /** Where the sender half stands: idle, or in `send_data` before its want load, its queue poll or
      its `try_send`; or between dropping `data_tx` and dropping `trailers_tx`; or dropped. */
  datatype Tx = TxIdle | TxWant(chunk: Bytes) | TxSlot(chunk: Bytes) | TxSend(chunk: Bytes)
              | TxHalfDropped | TxGone | TxPanicked

  /** Where the body half stands: idle, or in `poll_frame` before its queue poll or its trailers poll;
      or partly through its drop, field by field; or dropped. */
  datatype Rx = RxIdle | RxData | RxTrailers | RxWantDropped | RxDataDropped | RxGone

  datatype State = State(chan: Chan, tx: Tx, rx: Rx)

  datatype Event =
    // the sender half
    | BeginSend(chunk: Bytes) | LoadWant | CheckSlot | FinishSend | CancelSend
    | TrySendData(chunk: Bytes) | SendError(error: string) | SendTrailers(headers: HeaderMap)
    | DropSender | DropTrailersTx
    // the body half
    | BeginPoll | PollQueue | PollSlotOfTrailers | DropBody | DropDataRx | DropTrailersRx

  function Init(): State { State(NewChan(), TxIdle, RxIdle) }

  function Step(s: State, e: Event): Option<State> {
    var c := s.chan;
    match e
    case BeginSend(chunk) => if s.tx.TxIdle? then Some(s.(tx := TxWant(chunk))) else None
    case LoadWant =>
      if !s.tx.TxWant? then None
      else if c.want == WANT_READY then Some(s.(tx := TxSlot(s.tx.chunk)))
      else if c.want == WANT_PENDING then Some(s)
      else if c.want == CLOSED then Some(s.(tx := TxIdle, chan := Refuse(c)))
      else Some(s.(tx := TxPanicked))
    case CheckSlot =>
      if !s.tx.TxSlot? then None
      else (match PollSlot(c)
            case Pending => Some(s.(tx := TxWant(s.tx.chunk)))
            case Ready(false) => Some(s.(tx := TxIdle, chan := Refuse(c)))
            case Ready(true) => Some(s.(tx := TxSend(s.tx.chunk))))
    case FinishSend =>
      if !s.tx.TxSend? then None
      else
        var (d, r) := TrySendOwn(c, s.tx.chunk);
        Some(s.(tx := TxIdle, chan := if r.Accepted? then d.(sends := d.sends + [Sent]) else Refuse(d)))
    case CancelSend => if s.tx.TxWant? || s.tx.TxSlot? then Some(s.(tx := TxIdle)) else None
    case TrySendData(chunk) => if s.tx.TxIdle? then Some(s.(chan := TrySendOwn(c, chunk).0)) else None
    case SendError(error) => if s.tx.TxIdle? then Some(s.(chan := TrySendClone(c, error))) else None
    case SendTrailers(headers) =>
      if s.tx.TxIdle? && c.trailersTx then Some(s.(chan := PutTrailers(c, headers))) else None
    case DropSender => if s.tx.TxIdle? then Some(s.(tx := TxHalfDropped, chan := c.(txAlive := false))) else None
    case DropTrailersTx => if s.tx.TxHalfDropped? then Some(s.(tx := TxGone, chan := c.(trailersTx := false))) else None
    case BeginPoll => if s.rx.RxIdle? then Some(s.(rx := RxData, chan := c.(want := WANT_READY))) else None
    case PollQueue =>
      if !s.rx.RxData? then None
      else if c.rxDone then Some(s.(rx := RxTrailers))
      else
        var (d, p) := PollData(c);
        (match p
         case Pending => Some(s.(rx := RxIdle, chan := d))
         case Ready(Some(item)) => Some(s.(rx := RxIdle, chan := Deliver(d, Piece(item))))
         case Ready(None) => Some(s.(rx := RxTrailers, chan := d)))
    case PollSlotOfTrailers =>
      if !s.rx.RxTrailers? then None
      else
        var (d, p) := PollTrailers(c);
        (match p
         case Pending => Some(s.(rx := RxIdle, chan := d))
         case Ready(Some(h)) => Some(s.(rx := RxIdle, chan := Deliver(d, Trailers(h))))
         case Ready(None) => Some(s.(rx := RxIdle, chan := Deliver(d, End))))
    case DropBody => if s.rx.RxIdle? then Some(s.(rx := RxWantDropped, chan := c.(want := CLOSED))) else None
    case DropDataRx =>
      if s.rx.RxWantDropped? then Some(s.(rx := RxDataDropped, chan := c.(rxOpen := false, queue := []))) else None
    case DropTrailersRx =>
      if s.rx.RxDataDropped? then Some(s.(rx := RxGone, chan := c.(trailersRx := false))) else None
  }

  /** A `send_data` that ends with ChannelClosed. */
  function Refuse(c: Chan): Chan { c.(sends := c.sends + [ChannelClosed]) }

  /* ---------- invariants ---------- */

  function Items(fs: seq<Frame>): seq<Item> {
    if fs == [] then []
    else Items(fs[..|fs| - 1]) + (if fs[|fs| - 1].Piece? then [fs[|fs| - 1].item] else [])
  }

  /** Pieces, then at most one trailers frame, then nothing but the end. */
  ghost predicate WellOrdered(fs: seq<Frame>) {
    forall i, j :: 0 <= i < j < |fs| && !fs[i].Piece? ==> fs[j].End?
  }

  predicate SenderDropped(tx: Tx) { tx.TxHalfDropped? || tx.TxGone? }

  predicate Reading(rx: Rx) { rx.RxIdle? || rx.RxData? || rx.RxTrailers? }

  /** Who is where, and what the flags say about it. */
  ghost predicate InvControl(s: State) {
    var c := s.chan;
    && !s.tx.TxPanicked?
    && c.want == (if Reading(s.rx) then WANT_READY else CLOSED)
    && (c.rxOpen <==> Reading(s.rx) || s.rx.RxWantDropped?)
    && (c.txAlive <==> !SenderDropped(s.tx))
    && (c.trailersTx && !c.txAlive ==> s.tx.TxHalfDropped?)
    && (c.trailersRx <==> !s.rx.RxGone?)
    && (c.rxDone ==> !c.txAlive && c.queue == [])
    && (s.rx.RxTrailers? ==> c.rxDone)
    && (s.tx.TxSend? && c.rxOpen ==> PollSlot(c) == Ready(true))
    && (!c.slot.Vacant? ==> !c.trailersTx)
  }

  /** Conservation. */
  ghost predicate InvData(s: State) {
    var c := s.chan;
    && (c.rxOpen ==> c.accepted == Items(c.delivered) + c.queue)
    && (!c.rxOpen ==> c.queue == [])
    && (!c.rxOpen ==> Items(c.delivered) <= c.accepted)
    && (c.rxDone && !AllPieces(c.delivered) ==> Items(c.delivered) == c.accepted)
  }

  predicate AllPieces(fs: seq<Frame>) { forall i :: 0 <= i < |fs| ==> fs[i].Piece? }

  /** Order of the frames. */
  ghost predicate InvFrames(s: State) {
    var c := s.chan;
    && WellOrdered(c.delivered)
    && (!AllPieces(c.delivered) ==> c.rxDone)
    && (forall i :: 0 <= i < |c.delivered| && c.delivered[i].Trailers? ==> c.slot == Spent(c.delivered[i].headers))
    && (forall i :: 0 <= i < |c.delivered| && c.delivered[i].End? ==> !c.slot.Holding? && !c.trailersTx)
  }

  ghost predicate Inv(s: State) { InvControl(s) && InvData(s) && InvFrames(s) }

  lemma ControlKeptBySender(s: State, e: Event)
    requires InvControl(s) && Step(s, e).Some? && !OfBody(e)
    ensures InvControl(Step(s, e).value)
  {
  }

  lemma ControlKeptByBody(s: State, e: Event)
    requires InvControl(s) && Step(s, e).Some? && OfBody(e)
    ensures InvControl(Step(s, e).value)
  {
  }

  predicate OfBody(e: Event) {
    e.BeginPoll? || e.PollQueue? || e.PollSlotOfTrailers? || e.DropBody? || e.DropDataRx? || e.DropTrailersRx?
  }

  lemma PushConserves(c: Chan, item: Item)
    requires c.accepted == Items(c.delivered) + c.queue
    ensures Push(c, item).accepted == Items(c.delivered) + Push(c, item).queue
  {
    assert Items(c.delivered) + c.queue + [item] == Items(c.delivered) + (c.queue + [item]);
  }

  lemma DataKeptBySender(s: State, e: Event)
    requires InvControl(s) && InvData(s) && Step(s, e).Some? && !OfBody(e)
    ensures InvData(Step(s, e).value)
  {
    if s.chan.rxOpen {
      match e
      case FinishSend => PushConserves(s.chan, Data(s.tx.chunk));
      case TrySendData(chunk) => PushConserves(s.chan, Data(chunk));
      case SendError(error) => PushConserves(s.chan, Fail(error));
      case _ =>
    }
  }

  lemma DataKeptByBody(s: State, e: Event)
    requires InvControl(s) && InvData(s) && InvFrames(s) && Step(s, e).Some? && OfBody(e)
    ensures InvData(Step(s, e).value)
  {
    var c, d := s.chan, Step(s, e).value.chan;
    if d.delivered != c.delivered {
      assert d.delivered[..|c.delivered|] == c.delivered;
    }
    if e.PollQueue? && s.rx.RxData? && c.queue != [] {
      assert c.queue == [c.queue[0]] + c.queue[1..];
    }
  }

  lemma FramesKeptByBody(s: State, e: Event)
    requires InvControl(s) && InvFrames(s) && Step(s, e).Some? && OfBody(e)
    ensures InvFrames(Step(s, e).value)
  {
  }

  lemma FramesKeptBySender(s: State, e: Event)
    requires InvControl(s) && InvFrames(s) && Step(s, e).Some? && !OfBody(e)
    ensures InvFrames(Step(s, e).value)
  {
    assert Step(s, e).value.chan.delivered == s.chan.delivered;
  }

  lemma StepKeepsInv(s: State, e: Event)
    requires Inv(s) && Step(s, e).Some?
    ensures Inv(Step(s, e).value)
  {
    if OfBody(e) {
      ControlKeptByBody(s, e);
      DataKeptByBody(s, e);
      FramesKeptByBody(s, e);
    } else {
      ControlKeptBySender(s, e);
      DataKeptBySender(s, e);
      FramesKeptBySender(s, e);
    }
  }

  /* ---------- what every run of the two halves keeps ---------- */

  ghost predicate Reachable(s: State) { Reaches(Step, Init(), s) }

  lemma ReachableInv(s: State)
    requires Reachable(s)
    ensures Inv(s)
  {
    forall a, e | Inv(a) && Step(a, e).Some? ensures Inv(Step(a, e).value) {
      StepKeepsInv(a, e);
    }
    InvariantHolds(Step, Inv, Init(), s);
  }

  /** Nothing is lost, invented or reordered: what the sender had accepted is what the body delivered
      followed by what is still queued; closing early leaves a prefix. */
  lemma Conservation(s: State)
    requires Reachable(s)
    ensures s.chan.rxOpen ==> s.chan.accepted == Items(s.chan.delivered) + s.chan.queue
    ensures Items(s.chan.delivered) <= s.chan.accepted
  {
    ReachableInv(s);
  }

  /** A trailers frame carries the trailers that were sent, comes at most once and only after every
      accepted item, and only the end follows it; the end too comes after every accepted item. */
  lemma TrailersComeLast(s: State, i: nat)
    requires Reachable(s) && i < |s.chan.delivered| && !s.chan.delivered[i].Piece?
    ensures Items(s.chan.delivered[..i]) == s.chan.accepted
    ensures forall j :: i < j < |s.chan.delivered| ==> s.chan.delivered[j].End?
    ensures s.chan.delivered[i].Trailers? ==> s.chan.slot == Spent(s.chan.delivered[i].headers)
  {
    ReachableInv(s);
    assert !AllPieces(s.chan.delivered);
    NoItemsFrom(s.chan.delivered, i);
  }

  lemma {:induction false} NoItemsFrom(fs: seq<Frame>, i: nat)
    requires i <= |fs| && forall j :: i <= j < |fs| ==> !fs[j].Piece?
    ensures Items(fs) == Items(fs[..i])
    decreases |fs|
  {
    if i < |fs| {
      assert fs[..|fs| - 1][..i] == fs[..i];
      NoItemsFrom(fs[..|fs| - 1], i);
    } else {
      assert fs[..i] == fs;
    }
  }

  /** The want value of a body channel is READY until the body is dropped and CLOSED from then on, so
      `poll_want` neither pends nor meets a value it does not know. */
  lemma WantIsReadyOrClosed(s: State)
    requires Reachable(s)
    ensures s.chan.want == if Reading(s.rx) then WANT_READY else CLOSED
    ensures Step(s, LoadWant).Some? ==> !Step(s, LoadWant).value.tx.TxWant? && !Step(s, LoadWant).value.tx.TxPanicked?
  {
    ReachableInv(s);
  }

  /** The `try_send` of `send_data` never meets a full queue: when `send_data` reports ChannelClosed
      there, the channel is closed. */
  lemma ClosedIsReportedTruly(s: State)
    requires Reachable(s) && s.tx.TxSend?
    ensures TrySendOwn(s.chan, s.tx.chunk).1 == (if s.chan.rxOpen then Accepted else Disconnected)
  {
    ReachableInv(s);
  }

  /** At most one data item is queued at any time, however many errors are. */
  ghost predicate OneDataQueued(s: State) { OneData(s.chan.queue) }

  ghost predicate OneData(q: seq<Item>) {
    forall i, j :: 0 <= i < j < |q| ==> q[i].Fail? || q[j].Fail?
  }

  lemma PushKeepsOneData(c: Chan, item: Item)
    requires OneData(c.queue) && (item.Data? ==> PollSlot(c) == Ready(true))
    ensures OneData(Push(c, item).queue)
  {
  }

  lemma OneDataKept(s: State, e: Event)
    requires OneDataQueued(s) && Step(s, e).Some?
    ensures OneDataQueued(Step(s, e).value)
  {
    var c := s.chan;
    match e
    case FinishSend => if PollSlot(c) == Ready(true) { PushKeepsOneData(c, Data(s.tx.chunk)); }
    case TrySendData(chunk) => if PollSlot(c) == Ready(true) { PushKeepsOneData(c, Data(chunk)); }
    case SendError(error) => PushKeepsOneData(c, Fail(error));
    case _ =>
  }

  lemma QueueHoldsOneChunk(s: State)
    requires Reachable(s)
    ensures OneDataQueued(s)
  {
    forall a, e | OneDataQueued(a) && Step(a, e).Some? ensures OneDataQueued(Step(a, e).value) {
      OneDataKept(a, e);
    }
    InvariantHolds(Step, OneDataQueued, Init(), s);
  }

  /** `poll_frame` waits for trailers only while the sender is between dropping its two halves. */
  lemma TrailersWaitOnlyForDrop(s: State)
    requires Reachable(s) && s.rx.RxTrailers? && PollTrailers(s.chan).1.Pending?
    ensures s.tx.TxHalfDropped?
  {
    ReachableInv(s);
  }

  /** Once the body's receiver is gone nothing more is accepted and every `send_data` that completes
      ends with ChannelClosed, for ever. */
  lemma {:induction false} ClosedForGood(s: State, evs: seq<Event>, t: State)
    requires !s.chan.rxOpen && !Reading(s.rx) && !s.rx.RxWantDropped? && Exec(Step, s, evs) == Some(t)
    ensures !t.chan.rxOpen && t.chan.accepted == s.chan.accepted
    ensures s.chan.sends <= t.chan.sends
    ensures forall i :: |s.chan.sends| <= i < |t.chan.sends| ==> t.chan.sends[i] == ChannelClosed
    decreases |evs|
  {
    if evs != [] {
      ClosedStep(s, evs[0]);
      ClosedForGood(Step(s, evs[0]).value, evs[1..], t);
    }
  }

  lemma ClosedStep(s: State, e: Event)
    requires !s.chan.rxOpen && !Reading(s.rx) && !s.rx.RxWantDropped? && Step(s, e).Some?
    ensures var t := Step(s, e).value;
      && !t.chan.rxOpen && !Reading(t.rx) && !t.rx.RxWantDropped?
      && t.chan.accepted == s.chan.accepted
      && (t.chan.sends == s.chan.sends || t.chan.sends == s.chan.sends + [ChannelClosed])
  {
  }

  /** In a run, "closed" is what the drop of the body's queue receiver brings about. */
  lemma ClosedMeansDropped(s: State)
    requires Reachable(s)
    ensures !s.chan.rxOpen <==> s.rx.RxDataDropped? || s.rx.RxGone?
  {
    ReachableInv(s);
  }

  /** A `send_data` that starts after the body began to drop ends with ChannelClosed at its first step. */
  lemma DroppedBodyRefuses(s: State)
    requires Reachable(s) && !Reading(s.rx) && s.tx.TxWant?
    ensures Step(s, LoadWant) == Some(s.(tx := TxIdle, chan := Refuse(s.chan)))
  {
    ReachableInv(s);
  }

  /** With the sender dropped nothing joins what it had accepted; by Conservation the body still
      delivers all of it. */
  lemma {:induction false} DroppedSenderAddsNothing(s: State, evs: seq<Event>, t: State)
    requires SenderDropped(s.tx) && Exec(Step, s, evs) == Some(t)
    ensures SenderDropped(t.tx) && t.chan.accepted == s.chan.accepted
    decreases |evs|
  {
    if evs != [] {
      DroppedSenderStep(s, evs[0]);
      DroppedSenderAddsNothing(Step(s, evs[0]).value, evs[1..], t);
    }
  }

  lemma DroppedSenderStep(s: State, e: Event)
    requires SenderDropped(s.tx) && Step(s, e).Some?
    ensures var t := Step(s, e).value; SenderDropped(t.tx) && t.chan.accepted == s.chan.accepted
  {
  }

  /* ---------- what can follow an error ---------- */

  /** Some continuation of `s` has the channel accept a further item. */
  ghost predicate AcceptsMore(s: State) {
    exists t :: Reaches(Step, s, t) && t.chan.accepted != s.chan.accepted
  }

  /** Some continuation of `s` delivers an item that was not yet accepted in `s`. */
  ghost predicate DeliversMore(s: State) {
    exists t :: Reaches(Step, s, t) && |s.chan.accepted| < |Items(t.chan.delivered)|
  }

  /** The sender can always get back to rest, by giving up a send or by finishing it. */
  lemma SenderComesToRest(s: State) returns (t: State)
    requires Reachable(s) && !SenderDropped(s.tx) && s.chan.rxOpen
    ensures Reaches(Step, s, t) && Reachable(t)
    ensures t.tx.TxIdle? && t.rx == s.rx && t.chan.rxOpen && |s.chan.accepted| <= |t.chan.accepted|
  {
    ReachableInv(s);
    ReachesItself(Step, s);
    match s.tx {
      case TxIdle => t := s;
      case TxWant(_) => t := Next(Step, s, s, CancelSend);
      case TxSlot(_) => t := Next(Step, s, s, CancelSend);
      case TxSend(_) => t := Next(Step, s, s, FinishSend);
    }
    ReachesTransitively(Step, Init(), s, t);
  }

  /** While the sender rests, a reading body can take everything that is queued. */
  lemma {:induction false} BodyDrains(s: State) returns (t: State)
    requires Reachable(s) && s.tx.TxIdle? && Reading(s.rx)
    ensures Reaches(Step, s, t) && Reachable(t)
    ensures t.tx.TxIdle? && t.rx.RxIdle? && t.chan.queue == [] && t.chan.accepted == s.chan.accepted
    decreases |s.chan.queue|, if s.rx.RxIdle? then 1 else 0
  {
    ReachableInv(s);
    ReachesItself(Step, s);
    if s.rx.RxIdle? && s.chan.queue == [] {
      t := s;
    } else {
      var u := Next(Step, s, s, if s.rx.RxIdle? then BeginPoll else PollQueue);
      ReachesTransitively(Step, Init(), s, u);
      if u.rx.RxIdle? && u.chan.queue == [] {
        t := u;
      } else {
        t := BodyDrains(u);
        ReachesTransitively(Step, s, u, t);
      }
    }
  }

  /** With the sender at rest and a reading body any chunk can be made the next item delivered. */
  lemma ChunkGetsThrough(s: State, chunk: Bytes) returns (t: State)
    requires Reachable(s) && s.tx.TxIdle? && Reading(s.rx)
    ensures Reaches(Step, s, t) && Items(t.chan.delivered) == s.chan.accepted + [Data(chunk)]
  {
    var u := BodyDrains(s);
    ReachableInv(u);
    t := Next(Step, s, u, TrySendData(chunk));
    t := Next(Step, s, t, BeginPoll);
    t := Next(Step, s, t, PollQueue);
    ReachesTransitively(Step, Init(), s, t);
    ReachableInv(t);
  }

  /** A body that has begun to drop delivers nothing more. */
  lemma {:induction false} StoppedBodyDelivers(s: State, evs: seq<Event>, t: State)
    requires !Reading(s.rx) && Exec(Step, s, evs) == Some(t)
    ensures t.chan.delivered == s.chan.delivered
    decreases |evs|
  {
    if evs != [] {
      StoppedBodyStep(s, evs[0]);
      StoppedBodyDelivers(Step(s, evs[0]).value, evs[1..], t);
    }
  }

  lemma StoppedBodyStep(s: State, e: Event)
    requires !Reading(s.rx) && Step(s, e).Some?
    ensures var t := Step(s, e).value; !Reading(t.rx) && t.chan.delivered == s.chan.delivered
  {
  }

  /** The channel is done accepting exactly when the sender is dropped or the queue closed; nothing
      further is ever delivered exactly when the sender is dropped or the body has begun to drop. What
      the last item accepted was, an error or a chunk, plays no part. */
  lemma StreamGoesOnIff(s: State)
    requires Reachable(s)
    ensures AcceptsMore(s) <==> !SenderDropped(s.tx) && s.chan.rxOpen
    ensures DeliversMore(s) <==> !SenderDropped(s.tx) && Reading(s.rx)
  {
    ReachableInv(s);
    if !SenderDropped(s.tx) && s.chan.rxOpen {
      var u := SenderComesToRest(s);
      var t := Next(Step, s, u, SendError(""));
      assert AcceptsMore(s);
      if Reading(s.rx) {
        t := ChunkGetsThrough(u, []);
        ReachesTransitively(Step, s, u, t);
        assert DeliversMore(s);
      }
    }
    forall t | Reaches(Step, s, t) && (SenderDropped(s.tx) || !s.chan.rxOpen)
      ensures t.chan.accepted == s.chan.accepted
    {
      AcceptsNoMore(s, t);
    }
    forall t | Reaches(Step, s, t) && (SenderDropped(s.tx) || !Reading(s.rx))
      ensures |Items(t.chan.delivered)| <= |s.chan.accepted|
    {
      DeliversNoMore(s, t);
    }
  }

  lemma AcceptsNoMore(s: State, t: State)
    requires Reachable(s) && Reaches(Step, s, t) && (SenderDropped(s.tx) || !s.chan.rxOpen)
    ensures t.chan.accepted == s.chan.accepted
  {
    var evs :| Exec(Step, s, evs) == Some(t);
    if SenderDropped(s.tx) {
      DroppedSenderAddsNothing(s, evs, t);
    } else {
      ClosedMeansDropped(s);
      ClosedForGood(s, evs, t);
    }
  }

  lemma DeliversNoMore(s: State, t: State)
    requires Reachable(s) && Reaches(Step, s, t) && (SenderDropped(s.tx) || !Reading(s.rx))
    ensures |Items(t.chan.delivered)| <= |s.chan.accepted|
  {
    if SenderDropped(s.tx) {
      AcceptsNoMore(s, t);
      ReachesTransitively(Step, Init(), s, t);
      Conservation(t);
    } else {
      var evs :| Exec(Step, s, evs) == Some(t);
      StoppedBodyDelivers(s, evs, t);
      Conservation(s);
    }
  }

  /** `send_error` is documented to terminate the stream. From every point of every run at which it can
      be called on a body still being read, any chunk can be sent and delivered right behind the error. */
  lemma ErrorDoesNotTerminate(s: State, error: string, chunk: Bytes)
    requires Reachable(s) && s.tx.TxIdle? && Reading(s.rx)
    ensures Step(s, SendError(error)).Some?
    ensures exists t :: Reaches(Step, Step(s, SendError(error)).value, t)
                        && Items(t.chan.delivered) == s.chan.accepted + [Fail(error), Data(chunk)]
  {
    ReachableInv(s);
    var u := Then(s, SendError(error));
    var t := ChunkGetsThrough(u, chunk);
    assert s.chan.accepted + [Fail(error)] + [Data(chunk)] == s.chan.accepted + [Fail(error), Data(chunk)];
  }

  lemma Then(s: State, e: Event) returns (t: State)
    requires Reachable(s) && Step(s, e).Some?
    ensures Reachable(t) && Step(s, e) == Some(t)
  {
    t := Next(Step, Init(), s, e);
  }

  /* ---------- the two halves as objects ---------- */

  /** What the two halves share. */
  class Link {
    var chan: Chan

    constructor ()
      ensures chan == NewChan()
    {
      chan := NewChan();
    }
  }

  /** A whole call of one half, not interleaved with the other, is a run of the machine above. */
  ghost predicate SenderCall(c: Chan, d: Chan) {
    forall rx :: Reaches(Step, State(c, TxIdle, rx), State(d, TxIdle, rx))
  }

  ghost predicate BodyCall(c: Chan, d: Chan) {
    forall tx :: Reaches(Step, State(c, tx, RxIdle), State(d, tx, RxIdle))
  }

  class Sender {
    const link: Link
    var trailersTx: bool

    ghost predicate Valid()
      reads this, link
    {
      trailersTx == link.chan.trailersTx
    }

    constructor (link: Link)
      requires link.chan == NewChan()
      ensures Valid() && this.link == link
    {
      this.link := link;
      trailersTx := true;
    }

    /** Ready(ChannelClosed) stands for the error; Pending when the queue still holds the last chunk. */
    method PollReady() returns (p: Poll<SendResult>)
      requires link.chan.want in {WANT_READY, WANT_PENDING, CLOSED}
      ensures p == if link.chan.want == CLOSED then Ready(ChannelClosed)
                   else if link.chan.want == WANT_PENDING then Pending
                   else match PollSlot(link.chan)
                        case Pending => Pending
                        case Ready(open) => Ready(if open then Sent else ChannelClosed)
    {
      var want := link.chan.want;
      if want == WANT_PENDING { return Pending; }
      if want == CLOSED { return Ready(ChannelClosed); }
      match PollSlot(link.chan) {
        case Pending => return Pending;
        case Ready(open) => return Ready(if open then Sent else ChannelClosed);
      }
    }

    /** One poll of `send_data`: pending changes nothing, success appends the chunk, and a closed
        channel refuses it. */
    method SendData(chunk: Bytes) returns (p: Poll<SendResult>)
      requires link.chan.want in {WANT_READY, CLOSED}
      modifies link
      ensures p == Ready(ChannelClosed) <==> old(link.chan.want) == CLOSED || !old(link.chan.rxOpen)
      ensures p.Pending? <==>
        && old(link.chan.want) == WANT_READY && old(link.chan.rxOpen)
        && exists i :: 0 <= i < |old(link.chan.queue)| && old(link.chan.queue)[i].Data?
      ensures link.chan == match p
        case Pending => old(link.chan)
        case Ready(Sent) => old(link.chan).(
          queue := old(link.chan.queue) + [Data(chunk)], accepted := old(link.chan.accepted) + [Data(chunk)],
          sends := old(link.chan.sends) + [Sent])
        case Ready(ChannelClosed) => old(link.chan).(sends := old(link.chan.sends) + [ChannelClosed])
      ensures SenderCall(old(link.chan), link.chan)
    {
      ghost var c := link.chan;
      var ready := PollReady();
      match ready {
        case Pending =>
          p := Pending;
        case Ready(ChannelClosed) =>
          link.chan := Refuse(link.chan);
          p := Ready(ChannelClosed);
        case Ready(Sent) =>
          var (d, r) := TrySendOwn(link.chan, chunk);
          link.chan := if r.Accepted? then d.(sends := d.sends + [Sent]) else Refuse(d);
          p := Ready(if r.Accepted? then Sent else ChannelClosed);
      }
      SendDataIsRun(c, chunk, link.chan);
    }

    /** `try_send_data`: the chunk is handed back unless it was accepted. */
    method TrySendData(chunk: Bytes) returns (ok: bool)
      modifies link
      ensures ok <==>
        && old(link.chan.rxOpen)
        && forall i :: 0 <= i < |old(link.chan.queue)| ==> old(link.chan.queue)[i].Fail?
      ensures link.chan == if !ok then old(link.chan) else old(link.chan).(
        queue := old(link.chan.queue) + [Data(chunk)], accepted := old(link.chan.accepted) + [Data(chunk)])
      ensures SenderCall(old(link.chan), link.chan)
    {
      ghost var c := link.chan;
      var (d, r) := TrySendOwn(link.chan, chunk);
      link.chan := d;
      ok := r.Accepted?;
      OneSenderEvent(c, Event.TrySendData(chunk), d);
    }

    /** `send_trailers`: Err(()) the second time, and when the body is gone. */
    method SendTrailers(headers: HeaderMap) returns (ok: bool)
      requires Valid()
      modifies this, link
      ensures Valid() && !trailersTx
      ensures ok <==> old(trailersTx) && link.chan.trailersRx
      ensures link.chan == old(link.chan).(
        trailersTx := false, slot := if ok then Holding(headers) else old(link.chan.slot))
      ensures SenderCall(old(link.chan), link.chan)
    {
      ghost var c := link.chan;
      if !trailersTx {
        assert link.chan == link.chan.(trailersTx := false);
        forall rx { ReachesItself(Step, State(c, TxIdle, rx)); }
        return false;
      }
      trailersTx := false;
      ok := link.chan.trailersRx;
      link.chan := PutTrailers(link.chan, headers);
      OneSenderEvent(c, Event.SendTrailers(headers), link.chan);
    }

    /** `send_error` gets through even when the queue holds a chunk. */
    method SendError(error: string)
      modifies link
      ensures link.chan == if !old(link.chan.rxOpen) then old(link.chan) else old(link.chan).(
        queue := old(link.chan.queue) + [Fail(error)], accepted := old(link.chan.accepted) + [Fail(error)])
      ensures SenderCall(old(link.chan), link.chan)
    {
      ghost var c := link.chan;
      link.chan := TrySendClone(link.chan, error);
      OneSenderEvent(c, Event.SendError(error), link.chan);
    }

    /** Dropping the sender: its queue half first, then its trailers half. */
    method Drop()
      requires Valid()
      modifies this, link
      ensures Valid() && link.chan == old(link.chan).(txAlive := false, trailersTx := false)
      ensures forall rx :: Reaches(Step, State(old(link.chan), TxIdle, rx), State(link.chan, TxGone, rx))
    {
      DropIsRun(link.chan);
      link.chan := link.chan.(txAlive := false);
      link.chan := link.chan.(trailersTx := false);
      trailersTx := false;
    }

    /** `abort`: the error is the last item the channel ever accepts. */
    method Abort()
      requires Valid()
      modifies this, link
      ensures Valid()
      ensures link.chan == (if old(link.chan.rxOpen) then Push(old(link.chan), Fail("user body write aborted"))
                            else old(link.chan)).(txAlive := false, trailersTx := false)
    {
      SendError("user body write aborted");
      Drop();
    }
  }

  lemma DropIsRun(c: Chan)
    ensures var d := c.(txAlive := false, trailersTx := false);
      forall rx :: Reaches(Step, State(c, TxIdle, rx), State(d, TxGone, rx))
  {
    var d := c.(txAlive := false, trailersTx := false);
    forall rx ensures Reaches(Step, State(c, TxIdle, rx), State(d, TxGone, rx)) {
      var s := State(c, TxIdle, rx);
      ReachesItself(Step, s);
      ReachesNext(Step, s, s, DropSender);
      ReachesNext(Step, s, State(c.(txAlive := false), TxHalfDropped, rx), DropTrailersTx);
    }
  }

  lemma OneSenderEvent(c: Chan, e: Event, d: Chan)
    requires forall rx :: Step(State(c, TxIdle, rx), e) == Some(State(d, TxIdle, rx))
    ensures SenderCall(c, d)
  {
    forall rx ensures Reaches(Step, State(c, TxIdle, rx), State(d, TxIdle, rx)) {
      ReachesItself(Step, State(c, TxIdle, rx));
      ReachesNext(Step, State(c, TxIdle, rx), State(c, TxIdle, rx), e);
    }
  }

  lemma SendDataIsRun(c: Chan, chunk: Bytes, d: Chan)
    requires c.want in {WANT_READY, CLOSED}
    requires d == if c.want == CLOSED then Refuse(c)
                  else match PollSlot(c)
                       case Pending => c
                       case Ready(false) => Refuse(c)
                       case Ready(true) => Push(c, Data(chunk)).(sends := c.sends + [Sent])
    ensures SenderCall(c, d)
  {
    forall rx ensures Reaches(Step, State(c, TxIdle, rx), State(d, TxIdle, rx)) {
      var s := State(c, TxIdle, rx);
      ReachesItself(Step, s);
      ReachesNext(Step, s, s, BeginSend(chunk));
      ReachesNext(Step, s, s.(tx := TxWant(chunk)), LoadWant);
      if c.want == WANT_READY {
        ReachesNext(Step, s, s.(tx := TxSlot(chunk)), CheckSlot);
        match PollSlot(c)
        case Pending => ReachesNext(Step, s, s.(tx := TxWant(chunk)), CancelSend);
        case Ready(open) =>
          if open {
            ReachesNext(Step, s, s.(tx := TxSend(chunk)), FinishSend);
          }
      }
    }
  }

  const CHUNKED: nat := 0xFFFF_FFFF_FFFF_FFFE
  const CLOSE_DELIMITED: nat := 0xFFFF_FFFF_FFFF_FFFF

  class ChannelBody {
    const link: Link
    var contentLength: nat

    /** A channel body's length is unknown for as long as it lives. */
    predicate Valid()
      reads this
    {
      contentLength == CHUNKED
    }

    constructor (link: Link)
      ensures this.link == link && Valid()
    {
      this.link := link;
      contentLength := CHUNKED;
    }

    /** `sub_if` leaves the two unknown lengths alone. */
    method SubIf(amount: nat)
      requires contentLength == CHUNKED || contentLength == CLOSE_DELIMITED || amount <= contentLength
      modifies this
      ensures old(Valid()) ==> Valid()
      ensures old(contentLength) !in {CHUNKED, CLOSE_DELIMITED} ==> contentLength + amount == old(contentLength)
    {
      if contentLength != CHUNKED && contentLength != CLOSE_DELIMITED {
        contentLength := contentLength - amount;
      }
    }

    /** However much it has delivered, a channel body never claims to be at the end of its stream and
        never promises a length: only `poll_frame` tells its reader that it has ended. */
    method IsEndStream() returns (b: bool)
      requires Valid()
      ensures !b
    {
      b := contentLength == 0;
    }

    method SizeHint() returns (exact: Option<nat>)
      requires Valid()
      ensures exact.None?
    {
      exact := if contentLength == CHUNKED || contentLength == CLOSE_DELIMITED then None else Some(contentLength);
    }

    /** One `poll_frame`: asks for data, then yields the head of the queue; only with the queue ended
        does it turn to the trailers. Pending yields nothing. */
    method PollFrame() returns (p: Poll<Frame>)
      requires Valid() && link.chan.rxOpen
      modifies this, link
      ensures Valid()
      ensures link.chan == old(link.chan).(
        want := WANT_READY,
        queue := if p.Ready? && p.value.Piece? && old(link.chan.queue) != [] then old(link.chan.queue)[1..]
                 else old(link.chan.queue),
        rxDone := link.chan.rxDone,
        slot := if p.Ready? && p.value.Trailers? then Spent(p.value.headers) else old(link.chan.slot),
        delivered := old(link.chan.delivered) + (if p.Ready? then [p.value] else []))
      ensures p.Ready? && p.value.Piece? ==>
        !old(link.chan.rxDone) && !link.chan.rxDone && old(link.chan.queue) == [p.value.item] + link.chan.queue
      ensures p.Ready? && !p.value.Piece? ==> link.chan.rxDone
      ensures p.Ready? && p.value.Trailers? ==> old(link.chan.slot) == Holding(p.value.headers)
      ensures p.Ready? && p.value.End? ==> !old(link.chan.slot).Holding? && !link.chan.trailersTx
      ensures p.Pending? ==> (link.chan.txAlive && link.chan.queue == []) || link.chan.trailersTx
      ensures BodyCall(old(link.chan), link.chan)
    {
      ghost var c := link.chan;
      link.chan := link.chan.(want := WANT_READY);
      if !link.chan.rxDone {
        var (d, next) := PollData(link.chan);
        link.chan := d;
        match next {
          case Pending =>
            PollFrameIsRun(c);
            return Pending;
          case Ready(Some(item)) =>
            if item.Data? { SubIf(|item.chunk|); }
            link.chan := Deliver(link.chan, Piece(item));
            PollFrameIsRun(c);
            return Ready(Piece(item));
          case Ready(None) =>
        }
      }
      var (d, trailers) := PollTrailers(link.chan);
      link.chan := d;
      match trailers {
        case Pending => p := Pending;
        case Ready(Some(headers)) =>
          link.chan := Deliver(link.chan, Trailers(headers));
          p := Ready(Trailers(headers));
        case Ready(None) =>
          link.chan := Deliver(link.chan, End);
          p := Ready(End);
      }
      PollFrameIsRun(c);
    }

    /** `Drop`: want CLOSED first, then the queue is closed and emptied, then the trailers slot. */
    method Drop()
      modifies link
      ensures link.chan == old(link.chan).(want := CLOSED, rxOpen := false, queue := [], trailersRx := false)
      ensures forall tx :: Reaches(Step, State(old(link.chan), tx, RxIdle), State(link.chan, tx, RxGone))
    {
      BodyDropIsRun(link.chan);
      link.chan := link.chan.(want := CLOSED);
      link.chan := link.chan.(rxOpen := false, queue := []);
      link.chan := link.chan.(trailersRx := false);
    }
  }

  lemma BodyDropIsRun(c: Chan)
    ensures var d := c.(want := CLOSED, rxOpen := false, queue := [], trailersRx := false);
      forall tx :: Reaches(Step, State(c, tx, RxIdle), State(d, tx, RxGone))
  {
    var d := c.(want := CLOSED, rxOpen := false, queue := [], trailersRx := false);
    forall tx ensures Reaches(Step, State(c, tx, RxIdle), State(d, tx, RxGone)) {
      var s := State(c, tx, RxIdle);
      ReachesItself(Step, s);
      ReachesNext(Step, s, s, DropBody);
      var t := State(c.(want := CLOSED), tx, RxWantDropped);
      ReachesNext(Step, s, t, DropDataRx);
      t := State(c.(want := CLOSED, rxOpen := false, queue := []), tx, RxDataDropped);
      ReachesNext(Step, s, t, DropTrailersRx);
    }
  }

  /** The channel after the two or three actions of `poll_frame`, uninterrupted. */
  function AfterPoll(c: Chan): Chan {
    var w := c.(want := WANT_READY);
    if !w.rxDone && w.queue != [] then Deliver(w.(queue := w.queue[1..]), Piece(w.queue[0]))
    else if !w.rxDone && w.txAlive then w
    else
      var d := w.(rxDone := true);
      if d.slot.Holding? then Deliver(d.(slot := Spent(d.slot.headers)), Trailers(d.slot.headers))
      else if d.trailersTx then d
      else Deliver(d, End)
  }

  lemma PollFrameIsRun(c: Chan)
    ensures BodyCall(c, AfterPoll(c))
  {
    forall tx ensures Reaches(Step, State(c, tx, RxIdle), State(AfterPoll(c), tx, RxIdle)) {
      var s := State(c, tx, RxIdle);
      ReachesItself(Step, s);
      ReachesNext(Step, s, s, BeginPoll);
      var t := Step(s, BeginPoll).value;
      ReachesNext(Step, s, t, PollQueue);
      t := Step(t, PollQueue).value;
      if t.rx.RxTrailers? {
        ReachesNext(Step, s, t, PollSlotOfTrailers);
      }
    }
  }
}
