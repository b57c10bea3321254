/** One invocation, as a function: what the handler did and what the Runtime API replied determine the
    request that is sent and how the service call ends. Nothing here knows about polling. */
module Invocation {
  import opened Common

  type Error = string

  datatype Diagnostic = Diagnostic(errorType: string, errorMessage: string)

  /** The invocation id header of a `/next` response. */
  datatype IdHeader = Absent | Readable(id: string) | Opaque

  /** What deserializing the body into the handler's payload type does. */
  datatype Payload = Parses(value: string) | Malformed(diagnostic: Diagnostic) | ParsePanics

  /** A delivered invocation. `uriAccepts` tells whether a URI can be built from the request id. */
  datatype Invocation = Invocation(
    requestId: string, uriAccepts: bool, idHeader: IdHeader, bodyIsUtf8: bool, payload: Payload)

  datatype PanicPayload = Message(text: string) | OtherPayload

  /** Turning the handler's answer into a response and serializing it; both are user code. */
  datatype Encoding = Encodes(body: string) | EncodeFails(error: Error) | EncodePanics

  datatype HandlerOut =
    | Answers(encoding: Encoding)
    | Fails(diagnostic: Diagnostic, conversionPanics: bool)
    | PanicsInPoll(payload: PanicPayload)

  datatype Handler = PanicsInCall(payload: PanicPayload) | Runs(out: HandlerOut)

  datatype Content = Answer(body: string) | Report(diagnostic: Diagnostic)

  /** A request to `/invocation/{requestId}/response` or, for a report, `/error`. */
  datatype Request = Request(requestId: string, invocationId: Option<string>, content: Content)

  datatype Built = Built(request: Request) | BuildFails(error: Error) | Unwinds

  datatype Reply = Transport(error: Error) | Status(code: nat)

  /** How the service call ends. */
  datatype Outcome = Done | Failed(error: Error) | Unwound

  const PANIC_TYPE: string := "alloc::boxed::Box<dyn core::any::Any + core::marker::Send>"

  function PanicDiagnostic(p: PanicPayload): Diagnostic {
    match p
    case Message(text) => Diagnostic(PANIC_TYPE, "Lambda panicked: " + text)
    case OtherPayload => Diagnostic(PANIC_TYPE, "Lambda panicked")
  }

  /** The id echoed on the answer: only a readable header is kept. */
  function EchoedId(h: IdHeader): Option<string> {
    if h.Readable? then Some(h.id) else None
  }

  /** `EventCompletionRequest::into_req`: the URI first, then the body. */
  function BuildResponse(inv: Invocation, encoding: Encoding): Built {
    if !inv.uriAccepts then BuildFails("invalid uri")
    else
      match encoding
      case Encodes(body) => Built(Request(inv.requestId, EchoedId(inv.idHeader), Answer(body)))
      case EncodeFails(e) => BuildFails(e)
      case EncodePanics => Unwinds
  }

  /** `EventErrorRequest::into_req` */
  function BuildReport(inv: Invocation, d: Diagnostic): Built {
    if !inv.uriAccepts then BuildFails("invalid uri")
    else Built(Request(inv.requestId, EchoedId(inv.idHeader), Report(d)))
  }

  /** The request an invocation leads to. `traced` tells whether TRACE logging is on, in which case a
      body that is not UTF-8 ends the invocation before the handler sees it. */
  function RequestOf(traced: bool, inv: Invocation, h: Handler): Built {
    if traced && !inv.bodyIsUtf8 then BuildFails("invalid utf-8")
    else
      match inv.payload
      case Malformed(d) => BuildReport(inv, d)
      case ParsePanics => Unwinds
      case Parses(_) =>
        match h
        case PanicsInCall(p) => BuildReport(inv, PanicDiagnostic(p))
        case Runs(Answers(encoding)) => BuildResponse(inv, encoding)
        case Runs(Fails(d, conversionPanics)) => if conversionPanics then Unwinds else BuildReport(inv, d)
        case Runs(PanicsInPoll(p)) => BuildReport(inv, PanicDiagnostic(p))
  }

  /** How the call to the Runtime API ends the service call: any status at all counts as done. */
  function Finish(reply: Reply): Outcome {
    match reply
    case Transport(e) => Failed(e)
    case Status(_) => Done
  }

  /** The whole service call: its outcome and the requests sent. */
  function BigStep(traced: bool, inv: Invocation, h: Handler, reply: Reply): (Outcome, seq<Request>) {
    match RequestOf(traced, inv, h)
    case Built(request) => (Finish(reply), [request])
    case BuildFails(e) => (Failed(e), [])
    case Unwinds => (Unwound, [])
  }

  /** The handler is reached. */
  predicate HandlerReached(traced: bool, inv: Invocation) {
    (traced ==> inv.bodyIsUtf8) && inv.payload.Parses?
  }

  /** A response is sent exactly for a handler answer that can be serialized and addressed; it carries
      that answer. */
  lemma ResponseIff(traced: bool, inv: Invocation, h: Handler, reply: Reply, body: string)
    ensures (exists r :: r in BigStep(traced, inv, h, reply).1 && r.content == Answer(body))
            <==> inv.uriAccepts && HandlerReached(traced, inv) && h == Runs(Answers(Encodes(body)))
  {
    var sent := BigStep(traced, inv, h, reply).1;
    if inv.uriAccepts && HandlerReached(traced, inv) && h == Runs(Answers(Encodes(body))) {
      assert sent[0] in sent && sent[0].content == Answer(body);
    }
  }

  /** An error report is sent exactly for an undeserializable payload, a handler error, a panic while
      calling the handler or a panic while polling it; it carries that error's diagnostic. */
  lemma ReportIff(traced: bool, inv: Invocation, h: Handler, reply: Reply, d: Diagnostic)
    ensures (exists r :: r in BigStep(traced, inv, h, reply).1 && r.content == Report(d))
            <==> inv.uriAccepts && (traced ==> inv.bodyIsUtf8)
                 && (inv.payload == Malformed(d)
                     || (inv.payload.Parses?
                         && (h == Runs(Fails(d, false))
                             || ((h.PanicsInCall? || h.out.PanicsInPoll?)
                                 && (var p := if h.PanicsInCall? then h.payload else h.out.payload;
                                     && d.errorType == "alloc::boxed::Box<dyn core::any::Any + core::marker::Send>"
                                     && d.errorMessage == if p.Message? then "Lambda panicked: " + p.text
                                                          else "Lambda panicked")))))
  {
    var sent := BigStep(traced, inv, h, reply).1;
    if sent != [] {
      assert sent[0] in sent;
    }
  }

  /** Whatever is sent is addressed to the invocation it comes from, and echoes its id when that was
      readable. */
  lemma AnswerIsAddressed(traced: bool, inv: Invocation, h: Handler, reply: Reply)
    ensures |BigStep(traced, inv, h, reply).1| <= 1
    ensures forall r :: r in BigStep(traced, inv, h, reply).1 ==>
              && r.requestId == inv.requestId
              && r.invocationId == (match inv.idHeader
                                    case Readable(id) => Some(id)
                                    case Absent => None
                                    case Opaque => None)
  {
  }

  /** A transport error is what the call fails with once a request was sent; before that it is the error of
      building one. */
  lemma FailsWith(traced: bool, inv: Invocation, h: Handler, reply: Reply, e: Error)
    ensures BigStep(traced, inv, h, reply) == (Failed(e), []) ==>
      (traced && !inv.bodyIsUtf8) || !inv.uriAccepts
      || (h.Runs? && h.out.Answers? && h.out.encoding == EncodeFails(e))
    ensures BigStep(traced, inv, h, reply).0 == Failed(e) && BigStep(traced, inv, h, reply).1 != [] ==>
      reply == Transport(e)
  {
  }

  /** A panic leaves the service call exactly when user code outside the caught handler panics: reading the
      payload, converting the handler's error, or encoding its answer. */
  lemma UnwindsIff(traced: bool, inv: Invocation, h: Handler, reply: Reply)
    ensures BigStep(traced, inv, h, reply).0.Unwound? <==>
      && (traced ==> inv.bodyIsUtf8)
      && (inv.payload.ParsePanics?
          || (inv.payload.Parses? && h.Runs?
              && ((h.out.Fails? && h.out.conversionPanics)
                  || (h.out.Answers? && h.out.encoding.EncodePanics? && inv.uriAccepts))))
  {
  }

  /** A service call fails or unwinds only for the reasons listed: handler errors, handler panics and
      rejected answers (410 included) are not among them. */
  lemma SurvivesIff(traced: bool, inv: Invocation, h: Handler, reply: Reply)
    ensures BigStep(traced, inv, h, reply).0 == Done <==>
      && reply.Status?
      && inv.uriAccepts && (traced ==> inv.bodyIsUtf8) && !inv.payload.ParsePanics?
      && (inv.payload.Parses? ==>
            match h
            case PanicsInCall(_) => true
            case Runs(Answers(encoding)) => encoding.Encodes?
            case Runs(Fails(_, conversionPanics)) => !conversionPanics
            case Runs(PanicsInPoll(_)) => true)
  {
  }
}

/** The three-layer future stack, poll by poll: the panic-catching future inside the response-building
    future inside the client future. */
module FutureStack {
  import opened Common
  import opened Invocation

  datatype Polled<+T> = Pending | Ready(value: T) | Unwinding

  /** A leaf future of the environment: pending this many times, then ready with `out`. */
  datatype Leaf<+T> = Leaf(pendings: nat, out: T)

  /* ---------- CatchPanicFuture ---------- */

  datatype CatchPanicFuture = Running(handler: Leaf<HandlerOut>) | Caught(payload: PanicPayload)

  function PollCatchPanic(f: CatchPanicFuture): (CatchPanicFuture, Polled<Result<Encoding, Diagnostic>>) {
    match f
    case Caught(p) => (f, Ready(Err(PanicDiagnostic(p))))
    case Running(Leaf(pendings, out)) =>
      if pendings > 0 then (Running(Leaf(pendings - 1, out)), Pending)
      else
        match out
        case Answers(encoding) => (f, Ready(Ok(encoding)))
        case Fails(d, conversionPanics) => (f, if conversionPanics then Unwinding else Ready(Err(d)))
        case PanicsInPoll(p) => (f, Ready(Err(PanicDiagnostic(p))))
  }

  /* ---------- RuntimeApiResponseFuture ---------- */

  /** `Awaiting` keeps what `call` captured of the invocation; `Prepared` is the request, or the error,
      that was ready at once. */
  datatype ResponseFuture = Awaiting(inner: CatchPanicFuture, inv: Invocation) | Prepared(built: Built)

  /** `RuntimeApiResponseService::call`, with `CatchPanicService::call` inside it; None when user code
      outside the caught handler panics. */
  function Call(traced: bool, inv: Invocation, h: ScriptedHandler): Option<ResponseFuture> {
    if traced && !inv.bodyIsUtf8 then Some(Prepared(BuildFails("invalid utf-8")))
    else
      match inv.payload
      case Malformed(d) => Some(Prepared(BuildReport(inv, d)))
      case ParsePanics => None
      case Parses(_) =>
        match h
        case CallPanics(p) => Some(Awaiting(Caught(p), inv))
        case Returns(leaf) => Some(Awaiting(Running(leaf), inv))
  }

  /** The handler with its schedule of pending polls. */
  datatype ScriptedHandler = CallPanics(payload: PanicPayload) | Returns(leaf: Leaf<HandlerOut>)

  /** The handler without its schedule. */
  function Behaviour(h: ScriptedHandler): Handler {
    match h
    case CallPanics(p) => PanicsInCall(p)
    case Returns(leaf) => Runs(leaf.out)
  }

  function PollResponse(f: ResponseFuture): (ResponseFuture, Polled<Built>) {
    match f
    case Prepared(built) => (f, Ready(built))
    case Awaiting(inner, inv) =>
      var (inner', p) := PollCatchPanic(inner);
      var f' := Awaiting(inner', inv);
      match p
      case Pending => (f', Pending)
      case Unwinding => (f', Unwinding)
      case Ready(Ok(encoding)) => (f', Ready(BuildResponse(inv, encoding)))
      case Ready(Err(d)) => (f', Ready(BuildReport(inv, d)))
  }

  /* ---------- what is left to do, independent of polling ---------- */

  function BuiltBy(f: ResponseFuture): Built {
    match f
    case Prepared(built) => built
    case Awaiting(Caught(p), inv) => BuildReport(inv, PanicDiagnostic(p))
    case Awaiting(Running(leaf), inv) =>
      match leaf.out
      case Answers(encoding) => BuildResponse(inv, encoding)
      case Fails(d, conversionPanics) => if conversionPanics then Unwinds else BuildReport(inv, d)
      case PanicsInPoll(p) => BuildReport(inv, PanicDiagnostic(p))
  }

  function PendingsOf(f: ResponseFuture): nat {
    if f.Awaiting? && f.inner.Running? then f.inner.handler.pendings else 0
  }

  datatype ClientState = First(future: ResponseFuture) | Second(call: Leaf<Reply>) | Finished

  /** The outcome still to come and the requests still to be sent from a state, if the Runtime API call
      behaves as `api`. */
  function Remains(s: ClientState, api: Leaf<Reply>): (Outcome, seq<Request>)
    requires !s.Finished?
  {
    match s
    case Second(call) => (Finish(call.out), [])
    case First(f) =>
      match BuiltBy(f)
      case Built(request) => (Finish(api.out), [request])
      case BuildFails(e) => (Failed(e), [])
      case Unwinds => (Unwound, [])
  }

  /** How many more polls are pending. */
  function PendingPolls(s: ClientState, api: Leaf<Reply>): nat
    requires !s.Finished?
  {
    match s
    case Second(call) => call.pendings
    case First(f) => PendingsOf(f) + (if BuiltBy(f).Built? then api.pendings else 0)
  }

  /** `RuntimeApiClientFuture`, overwritten in place from its first stage to its second. `api` is the
      future the client returns; `sent` lists the calls made on it. */
  class ClientFuture {
    var state: ClientState
    var sent: seq<Request>
    const api: Leaf<Reply>

    constructor (future: ResponseFuture, api: Leaf<Reply>)
      ensures state == First(future) && sent == [] && this.api == api
    {
      state := First(future);
      sent := [];
      this.api := api;
    }

    /** One poll. While it is pending, exactly one pending poll is used up and what remains to be sent
        and to come stays the same; otherwise everything that remained has happened. */
    method Poll() returns (p: Polled<Outcome>)
      requires !state.Finished?
      modifies this
      ensures p.Pending? <==> old(PendingPolls(state, api)) > 0
      ensures p.Pending? ==>
        && !state.Finished?
        && PendingPolls(state, api) == old(PendingPolls(state, api)) - 1
        && Remains(state, api).0 == old(Remains(state, api)).0
        && sent + Remains(state, api).1 == old(sent + Remains(state, api).1)
      ensures p.Ready? ==> p.value == old(Remains(state, api)).0 && !p.value.Unwound?
      ensures p.Unwinding? ==> old(Remains(state, api)).0 == Unwound
      ensures !p.Pending? ==> state.Finished? && sent == old(sent + Remains(state, api).1)
    {
      while true
        invariant !state.Finished?
        invariant PendingPolls(state, api) == old(PendingPolls(state, api))
        invariant Remains(state, api).0 == old(Remains(state, api)).0
        invariant sent + Remains(state, api).1 == old(sent + Remains(state, api).1)
        decreases if state.First? then 1 else 0
      {
        match state {
          case First(f) =>
            var (f', q) := PollResponse(f);
            match q {
              case Pending =>
                state := First(f');
                return Pending;
              case Unwinding =>
                state := Finished;
                return Unwinding;
              case Ready(Built(request)) =>
                sent := sent + [request];
                state := Second(api);
              case Ready(BuildFails(e)) =>
                state := Finished;
                return Ready(Failed(e));
              case Ready(Unwinds) =>
                state := Finished;
                return Unwinding;
            }
          case Second(call) =>
            if call.pendings > 0 {
              state := Second(Leaf(call.pendings - 1, call.out));
              return Pending;
            }
            state := Finished;
            match call.out {
              case Status(_) => return Ready(Done);
              case Transport(e) => return Ready(Failed(e));
            }
        }
      }
    }
  }

  /** Drives a future to its end, as the task that awaits it does. */
  method Await(f: ClientFuture) returns (o: Outcome, ghost polls: nat)
    requires !f.state.Finished?
    modifies f
    ensures o == old(Remains(f.state, f.api)).0
    ensures f.sent == old(f.sent + Remains(f.state, f.api).1)
    ensures polls == old(PendingPolls(f.state, f.api)) + 1
  {
    polls := 0;
    while true
      invariant !f.state.Finished?
      invariant polls + PendingPolls(f.state, f.api) == old(PendingPolls(f.state, f.api))
      invariant Remains(f.state, f.api).0 == old(Remains(f.state, f.api)).0
      invariant f.sent + Remains(f.state, f.api).1 == old(f.sent + Remains(f.state, f.api).1)
      decreases PendingPolls(f.state, f.api)
    {
      var p := f.Poll();
      polls := polls + 1;
      match p {
        case Pending =>
        case Ready(value) => return value, polls;
        case Unwinding => return Unwound, polls;
      }
    }
  }

  /** What remains of a fresh call is the big step of its invocation: the schedule plays no part. */
  lemma CallRefinesBigStep(traced: bool, inv: Invocation, h: ScriptedHandler, api: Leaf<Reply>)
    ensures match Call(traced, inv, h)
            case None => BigStep(traced, inv, Behaviour(h), api.out) == (Unwound, [])
            case Some(f) => Remains(First(f), api) == BigStep(traced, inv, Behaviour(h), api.out)
  {
  }

  /** The whole service call, polled under any schedule, has the outcome of the big step and sends the
      requests of the big step. */
  method RunService(traced: bool, inv: Invocation, h: ScriptedHandler, api: Leaf<Reply>)
    returns (o: Outcome, sent: seq<Request>)
    ensures o == BigStep(traced, inv, Behaviour(h), api.out).0
    ensures sent == BigStep(traced, inv, Behaviour(h), api.out).1
  {
    CallRefinesBigStep(traced, inv, h, api);
    match Call(traced, inv, h) {
      case None => return Unwound, [];
      case Some(future) =>
        var f := new ClientFuture(future, api);
        ghost var polls;
        o, polls := Await(f);
        sent := f.sent;
        assert sent == [] + BigStep(traced, inv, Behaviour(h), api.out).1;
    }
  }
}
