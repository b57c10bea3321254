/** The worker pool against a Runtime API that may time invocations out and deliver a request id again:
    N workers, each polling `/next`, running the service and posting one answer, and the supervisor that
    collects their exits. Nothing is assumed of the network but that an answer arrives at most once: a
    delivery may be lost on its way, and an answer may arrive after its worker was told it had failed. */
module WorkerPool {
  import opened Common
  import opened Runs
  import opened Invocation
  import SnapStart
  import Supervisor

  /** Why a worker's loop ended. */
  datatype Exit = PollFailed(error: Error) | ProcessingFailed(error: Error) | Panicked

  /** `Posting` names the worker's answer by its place among all answers sent. */
  datatype Worker =
    | Idle
    | Polling
    | Handling(serial: nat)
    | Posting(post: nat)
    | Exited(exit: Exit)
    | Joined(exit: Exit)

  /** What the API has said about an answer; `target` is the invocation it took it for. */
  datatype Verdict = Unseen | AcceptedFor(target: nat) | Refused(code: nat)

  /** An answer sent: `source` is the invocation it was computed from. */
  datatype Post = Post(source: nat, request: Request, verdict: Verdict)

  datatype State = State(
    traced: bool,
    // what the handler may do with a payload; it need not be deterministic
    behaviour: iset<(string, Handler)>,
    workers: seq<Worker>,
    // the Runtime API: every invocation ever delivered, and the open one of each request id
    invs: seq<Invocation>, current: map<string, nat>, posts: seq<Post>,
    // the supervision loop
    remaining: nat, joins: seq<Supervisor.JoinResult>, errors: seq<Supervisor.WorkerError>)
  {
    /** `run_concurrent` with a limit above one; otherwise the sequential loop runs. */
    predicate Concurrent() { |workers| > 1 }

    function Set(w: nat, x: Worker): State
      requires w < |workers|
    {
      this.(workers := workers[w := x])
    }

    /** The API delivers `inv`: it is now the open invocation of its request id. */
    function Opened(inv: Invocation): State {
      this.(invs := invs + [inv], current := current[inv.requestId := |invs|])
    }

    function Judged(p: nat, v: Verdict): State
      requires p < |posts|
    {
      this.(posts := posts[p := posts[p].(verdict := v)])
    }
  }

  datatype Event =
    | Poll(worker: nat)
    | PollFails(worker: nat, error: Error)
    | Deliver(worker: nat, inv: Invocation)
    | PrepareFails(worker: nat, error: Error)
    | PreparePanics(worker: nat)
    | HandlerDone(worker: nat, handler: Handler)
    | Return(worker: nat, reply: Reply)
    | Join(worker: nat)
    // the API and the network
    | Lose(inv: Invocation)
    | Expire(requestId: string)
    | Arrive(post: nat)
    | RefuseOutright(post: nat, code: nat)

  const ACCEPTED: nat := 202
  const GONE: nat := 410
  const JOIN_ERROR: string := "task panicked"

  function Code(v: Verdict): nat
    requires !v.Unseen?
  {
    if v.AcceptedFor? then ACCEPTED else v.code
  }

  function Init(limit: nat, traced: bool, behaviour: iset<(string, Handler)>): State {
    State(traced, behaviour, seq(limit, _ => Idle), [], map[], [], limit, [], [])
  }

  /** The API's check: the request id must have an open invocation; an invocation id, when the answer
      echoes one, must be that invocation's; an answer without one is let through. */
  predicate Accepts(s: State, r: Request) {
    && r.requestId in s.current
    && s.current[r.requestId] < |s.invs|
    && (r.invocationId.Some? ==> s.invs[s.current[r.requestId]].idHeader == Readable(r.invocationId.value))
  }

  /** The API never delivers a request id that is open, nor an invocation id it has used before. */
  predicate MayDeliver(s: State, inv: Invocation) {
    && inv.requestId !in s.current
    && (inv.idHeader.Readable? ==> forall i :: 0 <= i < |s.invs| ==> s.invs[i].idHeader != inv.idHeader)
  }

  /** The handler may do `h` with the payload of `inv`; it is not asked about one that does not parse. */
  predicate MayAnswer(s: State, inv: Invocation, h: Handler) {
    inv.payload.Parses? ==> (inv.payload.value, h) in s.behaviour
  }

  predicate IsHandling(s: State, w: nat) {
    w < |s.workers| && s.workers[w].Handling? && s.workers[w].serial < |s.invs|
  }

  predicate IsPosting(s: State, w: nat) {
    w < |s.workers| && s.workers[w].Posting? && s.workers[w].post < |s.posts|
  }

  predicate IsUnseen(s: State, p: nat) { p < |s.posts| && s.posts[p].verdict.Unseen? }

  /** What awaiting the handle of task `w` yields. */
  function JoinResultOf(w: nat, exit: Exit): Supervisor.JoinResult {
    match exit
    case PollFailed(error) => Supervisor.Finished(w, Err(error))
    case ProcessingFailed(error) => Supervisor.Finished(w, Err(error))
    case Panicked => Supervisor.Crashed(w, JOIN_ERROR)
  }

  /** One turn of the supervision loop. */
  function JoinOne(s: State, w: nat): State
    requires w < |s.workers| && s.workers[w].Exited?
  {
    var join := JoinResultOf(w, s.workers[w].exit);
    s.(remaining := Supervisor.SaturatingSub(s.remaining, 1),
       joins := s.joins + [join],
       errors := s.errors + [Supervisor.ToWorkerError(join)]).Set(w, Joined(s.workers[w].exit))
  }

  function Step(s: State, e: Event): Option<State> {
    match e
    case Poll(w) => if w < |s.workers| && s.workers[w].Idle? then Some(s.Set(w, Polling)) else None
    case PollFails(w, error) =>
      if w < |s.workers| && s.workers[w].Polling?
      then Some(s.Set(w, if s.Concurrent() then Idle else Exited(PollFailed(error)))) else None
    case Deliver(w, inv) =>
      if w < |s.workers| && s.workers[w].Polling? && MayDeliver(s, inv)
      then Some(s.Opened(inv).Set(w, Handling(|s.invs|))) else None
    case PrepareFails(w, error) =>
      if IsHandling(s, w) then Some(s.Set(w, Exited(ProcessingFailed(error)))) else None
    case PreparePanics(w) => if IsHandling(s, w) then Some(s.Set(w, Exited(Panicked))) else None
    case HandlerDone(w, h) =>
      if !IsHandling(s, w) || !MayAnswer(s, s.invs[s.workers[w].serial], h) then None
      else
        var serial := s.workers[w].serial;
        (match RequestOf(s.traced, s.invs[serial], h)
         case Built(request) =>
           Some(s.(posts := s.posts + [Post(serial, request, Unseen)]).Set(w, Posting(|s.posts|)))
         case BuildFails(error) => Some(s.Set(w, Exited(ProcessingFailed(error))))
         case Unwinds => Some(s.Set(w, Exited(Panicked))))
    case Return(w, reply) =>
      if !IsPosting(s, w) || (reply.Status? && !HasStatus(s, s.workers[w].post, reply.code)) then None
      else
        (match Finish(reply)
         case Done => Some(s.Set(w, Idle))
         case Failed(error) => Some(s.Set(w, Exited(ProcessingFailed(error))))
         case Unwound => None)
    case Join(w) => if w < |s.workers| && s.workers[w].Exited? then Some(JoinOne(s, w)) else None
    case Lose(inv) => if MayDeliver(s, inv) then Some(s.Opened(inv)) else None
    case Expire(requestId) => Some(s.(current := s.current - {requestId}))
    case Arrive(p) =>
      if !IsUnseen(s, p) then None
      else if Accepts(s, s.posts[p].request) then
        var requestId := s.posts[p].request.requestId;
        Some(s.(current := s.current - {requestId}).Judged(p, AcceptedFor(s.current[requestId])))
      else Some(s.Judged(p, Refused(GONE)))
    case RefuseOutright(p, code) =>
      if IsUnseen(s, p) && !SnapStart.IsSuccess(code) then Some(s.Judged(p, Refused(code))) else None
  }

  predicate HasStatus(s: State, p: nat, code: nat)
    requires p < |s.posts|
  {
    !s.posts[p].verdict.Unseen? && Code(s.posts[p].verdict) == code
  }

  /** The request an event sends to the Runtime API. */
  function Sends(s: State, e: Event): Option<SnapStart.Endpoint>
    requires Step(s, e).Some?
  {
    if e.Poll? then Some(SnapStart.NextInvocation)
    else if |Step(s, e).value.posts| > |s.posts| then Some(SnapStart.InvocationAnswer)
    else None
  }

  /* ---------- what a step changes ---------- */

  /** The events of one worker, as opposed to those of the API and the network. */
  predicate OfWorker(e: Event) { !e.Lose? && !e.Expire? && !e.Arrive? && !e.RefuseOutright? }

  predicate Delivers(e: Event) { e.Deliver? || e.Lose? }

  /** Invocations are only added; only a delivery opens one, the new one, and only if it may be
      delivered. */
  lemma ApiMoves(s: State, e: Event)
    requires Step(s, e).Some?
    ensures var t := Step(s, e).value;
      && t.traced == s.traced && t.behaviour == s.behaviour
      && t.invs == s.invs + (if Delivers(e) then [e.inv] else [])
      && (Delivers(e) ==> MayDeliver(s, e.inv) && t.current == s.current[e.inv.requestId := |s.invs|])
      && (!Delivers(e) ==> forall rid :: rid in t.current ==> rid in s.current && t.current[rid] == s.current[rid])
  {
  }

  /** Answers are only added, by a worker whose handler is done, and each is judged at most once. */
  lemma PostsMove(s: State, e: Event)
    requires Step(s, e).Some?
    ensures var t := Step(s, e).value;
      && |s.posts| <= |t.posts| <= |s.posts| + 1
      && (|t.posts| > |s.posts| ==> e.HandlerDone? && t.posts == s.posts + [t.posts[|s.posts|]])
      && (t.posts != s.posts && |t.posts| == |s.posts| ==>
            (e.Arrive? || e.RefuseOutright?) && IsUnseen(s, e.post)
            && t.posts == s.posts[e.post := s.posts[e.post].(verdict := t.posts[e.post].verdict)])
  {
  }

  /** One event moves at most one worker. */
  lemma OneWorkerMoves(s: State, e: Event)
    requires Step(s, e).Some?
    ensures var t := Step(s, e).value;
      && |t.workers| == |s.workers|
      && (!OfWorker(e) ==> t.workers == s.workers)
      && (OfWorker(e) ==> e.worker < |s.workers| && t.workers == s.workers[e.worker := t.workers[e.worker]])
  {
  }

  /** A worker that comes to hold an invocation has just been delivered it. */
  lemma HandlingStarts(s: State, e: Event, w: nat)
    requires Step(s, e).Some? && w < |s.workers| && w < |Step(s, e).value.workers|
    requires Step(s, e).value.workers[w].Handling? && Step(s, e).value.workers[w] != s.workers[w]
    ensures e.Deliver? && e.worker == w && Step(s, e).value.workers[w] == Handling(|s.invs|)
  {
  }

  /** A worker that starts posting posts the answer of the invocation it held. */
  lemma PostingStarts(s: State, e: Event, w: nat)
    requires Step(s, e).Some? && w < |s.workers| && w < |Step(s, e).value.workers|
    requires Step(s, e).value.workers[w].Posting? && Step(s, e).value.workers[w] != s.workers[w]
    ensures e.HandlerDone? && e.worker == w && IsHandling(s, w)
    ensures Step(s, e).value.workers[w] == Posting(|s.posts|)
  {
  }

  /** The new answer is what the handler's outcome on the held invocation leads to. */
  lemma NewPost(s: State, e: Event)
    requires Step(s, e).Some? && |Step(s, e).value.posts| > |s.posts|
    ensures e.HandlerDone? && IsHandling(s, e.worker)
    ensures var p := Step(s, e).value.posts[|s.posts|];
      && p.source == s.workers[e.worker].serial && p.verdict.Unseen?
      && MayAnswer(s, s.invs[p.source], e.handler)
      && RequestOf(s.traced, s.invs[p.source], e.handler) == Built(p.request)
      && !Step(s, e).value.workers[e.worker].Handling?
  {
  }

  /* ---------- the API's books ---------- */

  ghost predicate ApiInv(s: State) {
    && (forall rid :: rid in s.current ==> s.current[rid] < |s.invs| && s.invs[s.current[rid]].requestId == rid)
    && (forall i, j :: 0 <= i < j < |s.invs| && s.invs[i].idHeader.Readable? ==>
          s.invs[i].idHeader != s.invs[j].idHeader)
  }

  lemma ApiKept(s: State, e: Event)
    requires ApiInv(s) && Step(s, e).Some?
    ensures ApiInv(Step(s, e).value)
  {
    ApiMoves(s, e);
    var t := Step(s, e).value;
    forall i, j | 0 <= i < j < |t.invs| && t.invs[i].idHeader.Readable?
      ensures t.invs[i].idHeader != t.invs[j].idHeader
    {
      assert t.invs[i] == s.invs[i];
    }
  }

  /* ---------- answers and the invocations they come from ---------- */

  /** `r` is what something the handler may do with the payload of invocation `serial` leads to. */
  ghost predicate MadeFrom(s: State, serial: nat, r: Request) {
    serial < |s.invs|
    && exists h :: MayAnswer(s, s.invs[serial], h) && RequestOf(s.traced, s.invs[serial], h) == Built(r)
  }

  /** The invocation in the hands of a worker: the one it handles or is posting the answer of. */
  function Held(s: State, w: nat): Option<nat> {
    if IsHandling(s, w) then Some(s.workers[w].serial)
    else if IsPosting(s, w) then Some(s.posts[s.workers[w].post].source)
    else None
  }

  ghost predicate PostsMade(s: State) {
    forall p :: 0 <= p < |s.posts| ==> MadeFrom(s, s.posts[p].source, s.posts[p].request)
  }

  /** No invocation is answered twice, nor handled once answered, nor handled by two workers. */
  ghost predicate SourcesApart(s: State) {
    && (forall p, q :: 0 <= p < q < |s.posts| ==> s.posts[p].source != s.posts[q].source)
    && (forall w, p :: 0 <= w < |s.workers| && s.workers[w].Handling? && 0 <= p < |s.posts| ==>
          s.posts[p].source != s.workers[w].serial)
    && (forall v, w :: 0 <= v < w < |s.workers| && s.workers[v].Handling? && s.workers[w].Handling? ==>
          s.workers[v].serial != s.workers[w].serial)
  }

  /** Workers hold what exists, and no two post the same answer. */
  ghost predicate WorkersKnown(s: State) {
    && (forall w :: 0 <= w < |s.workers| && s.workers[w].Handling? ==> s.workers[w].serial < |s.invs|)
    && (forall w :: 0 <= w < |s.workers| && s.workers[w].Posting? ==> s.workers[w].post < |s.posts|)
    && (forall v, w :: 0 <= v < w < |s.workers| && s.workers[v].Posting? && s.workers[w].Posting? ==>
          s.workers[v].post != s.workers[w].post)
  }

  ghost predicate AnswersInv(s: State) { PostsMade(s) && SourcesApart(s) && WorkersKnown(s) }

  lemma MadeFromStays(s: State, e: Event, serial: nat, r: Request)
    requires Step(s, e).Some? && MadeFrom(s, serial, r)
    ensures MadeFrom(Step(s, e).value, serial, r)
  {
    ApiMoves(s, e);
    var t := Step(s, e).value;
    var h :| MayAnswer(s, s.invs[serial], h) && RequestOf(s.traced, s.invs[serial], h) == Built(r);
    assert t.invs[serial] == s.invs[serial];
    assert MayAnswer(t, t.invs[serial], h);
  }

  lemma PostsMadeKept(s: State, e: Event)
    requires PostsMade(s) && Step(s, e).Some?
    ensures PostsMade(Step(s, e).value)
  {
    var t := Step(s, e).value;
    PostsMove(s, e);
    ApiMoves(s, e);
    forall p | 0 <= p < |t.posts| ensures MadeFrom(t, t.posts[p].source, t.posts[p].request) {
      if p < |s.posts| {
        MadeFromStays(s, e, s.posts[p].source, s.posts[p].request);
      } else {
        NewPost(s, e);
        assert MadeFrom(s, t.posts[p].source, t.posts[p].request);
        MadeFromStays(s, e, t.posts[p].source, t.posts[p].request);
      }
    }
  }

  lemma WorkersKnownKept(s: State, e: Event)
    requires WorkersKnown(s) && Step(s, e).Some?
    ensures WorkersKnown(Step(s, e).value)
  {
    var t := Step(s, e).value;
    OneWorkerMoves(s, e);
    ApiMoves(s, e);
    PostsMove(s, e);
    forall w | 0 <= w < |t.workers| && t.workers[w].Handling? ensures t.workers[w].serial < |t.invs| {
      if t.workers[w] != s.workers[w] { HandlingStarts(s, e, w); }
    }
    forall w | 0 <= w < |t.workers| && t.workers[w].Posting? ensures t.workers[w].post < |t.posts| {
      if t.workers[w] != s.workers[w] { PostingStarts(s, e, w); NewPostThere(s, e); }
    }
    if OfWorker(e) && t.workers[e.worker].Posting? && t.workers[e.worker] != s.workers[e.worker] {
      PostingStarts(s, e, e.worker);
    }
  }

  lemma NewPostThere(s: State, e: Event)
    requires Step(s, e).Some? && e.HandlerDone? && e.worker < |Step(s, e).value.workers|
    requires Step(s, e).value.workers[e.worker].Posting?
    ensures |Step(s, e).value.posts| == |s.posts| + 1
  {
  }

  lemma SourcesKept(s: State, e: Event)
    requires SourcesApart(s) && WorkersKnown(s) && PostsMade(s) && Step(s, e).Some?
    ensures SourcesApart(Step(s, e).value)
  {
    var t := Step(s, e).value;
    OneWorkerMoves(s, e);
    PostsMove(s, e);
    if |t.posts| > |s.posts| { NewPost(s, e); }
    if OfWorker(e) && t.workers[e.worker].Handling? && t.workers[e.worker] != s.workers[e.worker] {
      HandlingStarts(s, e, e.worker);
      assert t.posts == s.posts;
    }
  }

  /* ---------- the API's verdicts ---------- */

  ghost predicate VerdictFits(s: State, p: Post) {
    p.verdict.AcceptedFor? ==>
      var target := p.verdict.target;
      && target < |s.invs|
      && s.invs[target].requestId == p.request.requestId
      && (p.request.invocationId.Some? ==> s.invs[target].idHeader == Readable(p.request.invocationId.value))
      && (forall rid :: rid in s.current ==> s.current[rid] != target)
  }

  ghost predicate VerdictsInv(s: State) {
    && (forall p :: 0 <= p < |s.posts| ==> VerdictFits(s, s.posts[p]))
    && (forall p, q :: 0 <= p < q < |s.posts| && s.posts[p].verdict.AcceptedFor? && s.posts[q].verdict.AcceptedFor? ==>
          s.posts[p].verdict.target != s.posts[q].verdict.target)
  }

  lemma VerdictStays(s: State, e: Event, p: Post)
    requires VerdictFits(s, p) && Step(s, e).Some?
    ensures VerdictFits(Step(s, e).value, p)
  {
    ApiMoves(s, e);
  }

  /** A new acceptance is for the invocation that was open until then. */
  lemma NewVerdict(s: State, e: Event)
    requires ApiInv(s) && Step(s, e).Some? && (e.Arrive? || e.RefuseOutright?)
    ensures e.post < |s.posts| && VerdictFits(Step(s, e).value, Step(s, e).value.posts[e.post])
    ensures Step(s, e).value.posts[e.post].verdict.AcceptedFor? ==>
              exists rid :: rid in s.current && s.current[rid] == Step(s, e).value.posts[e.post].verdict.target
  {
    if e.Arrive? && Accepts(s, s.posts[e.post].request) {
      assert s.posts[e.post].request.requestId in s.current;
    }
  }

  lemma VerdictsKept(s: State, e: Event)
    requires VerdictsInv(s) && ApiInv(s) && Step(s, e).Some?
    ensures VerdictsInv(Step(s, e).value)
  {
    var t := Step(s, e).value;
    PostsMove(s, e);
    forall p | 0 <= p < |s.posts| ensures VerdictFits(t, s.posts[p]) { VerdictStays(s, e, s.posts[p]); }
    if e.Arrive? || e.RefuseOutright? { NewVerdict(s, e); }
    if |t.posts| > |s.posts| { NewPost(s, e); }
    forall p | 0 <= p < |t.posts| ensures VerdictFits(t, t.posts[p]) {
      if p < |s.posts| && t.posts[p] == s.posts[p] { assert VerdictFits(t, s.posts[p]); }
    }
  }

  /* ---------- every reachable state ---------- */

  ghost predicate Inv(s: State) { ApiInv(s) && AnswersInv(s) && VerdictsInv(s) }

  lemma StepKeepsInv(s: State, e: Event)
    requires Inv(s) && Step(s, e).Some?
    ensures Inv(Step(s, e).value)
  {
    ApiKept(s, e);
    PostsMadeKept(s, e);
    WorkersKnownKept(s, e);
    SourcesKept(s, e);
    VerdictsKept(s, e);
  }

  ghost predicate Reachable(limit: nat, s: State) {
    exists traced, behaviour :: Reaches(Step, Init(limit, traced, behaviour), s)
  }

  lemma ReachableInv(limit: nat, s: State)
    requires Reachable(limit, s)
    ensures Inv(s)
  {
    var traced, behaviour :| Reaches(Step, Init(limit, traced, behaviour), s);
    forall a, e | Inv(a) && Step(a, e).Some? ensures Inv(Step(a, e).value) {
      StepKeepsInv(a, e);
    }
    InvariantHolds(Step, Inv, Init(limit, traced, behaviour), s);
  }

  /* ---------- no cross-wiring ---------- */

  /** Every answer accepted anywhere in a run, if the invocation it was computed from carried a readable
      invocation id, was accepted for that very invocation, and is what something the handler may do
      with that invocation's payload leads to. */
  lemma NoCrossWiring(limit: nat, s: State, p: nat)
    requires Reachable(limit, s) && p < |s.posts| && s.posts[p].verdict.AcceptedFor?
    requires s.posts[p].source < |s.invs| && s.invs[s.posts[p].source].idHeader.Readable?
    ensures s.posts[p].verdict.target == s.posts[p].source
    ensures exists h :: MayAnswer(s, s.invs[s.posts[p].verdict.target], h)
                        && RequestOf(s.traced, s.invs[s.posts[p].verdict.target], h) == Built(s.posts[p].request)
  {
    ReachableInv(limit, s);
    var post := s.posts[p];
    assert MadeFrom(s, post.source, post.request) && VerdictFits(s, post);
    var h :| MayAnswer(s, s.invs[post.source], h) && RequestOf(s.traced, s.invs[post.source], h) == Built(post.request);
    EchoesId(s.traced, s.invs[post.source], h, post.request);
  }

  lemma EchoesId(traced: bool, inv: Invocation, h: Handler, r: Request)
    requires RequestOf(traced, inv, h) == Built(r)
    ensures r.requestId == inv.requestId && r.invocationId == EchoedId(inv.idHeader)
  {
  }

  /** No invocation has two accepted answers, and no invocation's answer is accepted twice. */
  lemma AnsweredAtMostOnce(limit: nat, s: State, p: nat, q: nat)
    requires Reachable(limit, s) && p < q < |s.posts|
    requires s.posts[p].verdict.AcceptedFor? && s.posts[q].verdict.AcceptedFor?
    ensures s.posts[p].verdict.target != s.posts[q].verdict.target
    ensures s.posts[p].source != s.posts[q].source
  {
    ReachableInv(limit, s);
  }

  /** No invocation is ever in the hands of two workers. */
  lemma OneWorkerPerInvocation(limit: nat, s: State, v: nat, w: nat)
    requires Reachable(limit, s) && v < w && Held(s, v).Some? && Held(s, w).Some?
    ensures Held(s, v) != Held(s, w)
  {
    ReachableInv(limit, s);
  }

  /** A handler that answers with its payload. */
  ghost function Echo(): iset<(string, Handler)> {
    iset payload: string | true :: (payload, Runs(Answers(Encodes(payload))))
  }

  lemma Start(limit: nat) returns (t: State)
    ensures Reachable(limit, t) && t == Init(limit, false, Echo())
  {
    t := Init(limit, false, Echo());
    ReachesItself(Step, t);
  }

  lemma Then(limit: nat, s: State, e: Event) returns (t: State)
    requires Reachable(limit, s) && Step(s, e).Some?
    ensures Reachable(limit, t) && Step(s, e) == Some(t)
  {
    var traced, behaviour :| Reaches(Step, Init(limit, traced, behaviour), s);
    t := Next(Step, Init(limit, traced, behaviour), s, e);
  }

  function Sample(header: IdHeader, payload: string): Invocation {
    Invocation("request", true, header, true, Parses(payload))
  }

  function SampleAnswer(header: IdHeader, payload: string): Request {
    Request("request", EchoedId(header), Answer(payload))
  }

  /** The echoing handler answers a sample invocation held by worker `w`. */
  lemma Echoes(s0: State, w: nat, header: IdHeader, payload: string) returns (s: State)
    requires Reachable(2, s0) && !s0.traced && s0.behaviour == Echo()
    requires IsHandling(s0, w) && s0.invs[s0.workers[w].serial] == Sample(header, payload)
    ensures Reachable(2, s)
    ensures s == s0.(posts := s0.posts + [Post(s0.workers[w].serial, SampleAnswer(header, payload), Unseen)])
                 .Set(w, Posting(|s0.posts|))
  {
    var done := Runs(Answers(Encodes(payload)));
    assert (payload, done) in Echo();
    assert RequestOf(false, Sample(header, payload), done) == Built(SampleAnswer(header, payload));
    s := Then(2, s0, HandlerDone(w, done));
  }

  /** The timeline of the invocation-id example up to the first handler's late answer: A is delivered,
      times out, and B is delivered under the same request id before A's handler finishes. */
  lemma LateAnswer(a: IdHeader, b: IdHeader) returns (s: State)
    requires a.Readable? ==> a != b
    ensures Reachable(2, s) && !s.traced && s.behaviour == Echo()
    ensures s.invs == [Sample(a, "A"), Sample(b, "B")] && s.current == map["request" := 1]
    ensures s.posts == [Post(0, SampleAnswer(a, "A"), Unseen)]
    ensures s.workers == [Posting(0), Handling(1)]
  {
    s := Start(2);
    s := Then(2, s, Poll(0));
    s := Then(2, s, Poll(1));
    assert s.workers == [Polling, Polling];
    s := DeliveredTwice(s, Sample(a, "A"), Sample(b, "B"));
    s := Echoes(s, 0, a, "A");
  }

  /** An invocation expires in a worker's hands and its request id is delivered again to the other. */
  lemma DeliveredTwice(s0: State, x: Invocation, y: Invocation) returns (s: State)
    requires Reachable(2, s0) && s0.workers == [Polling, Polling] && s0.invs == [] && s0.current == map[]
    requires x.requestId == y.requestId && (y.idHeader.Readable? ==> x.idHeader != y.idHeader)
    ensures Reachable(2, s)
    ensures s == s0.(workers := [Handling(0), Handling(1)], invs := [x, y], current := map[x.requestId := 1])
  {
    s := Then(2, s0, Deliver(0, x));
    s := Then(2, s, Expire(x.requestId));
    assert s == s0.(workers := [Handling(0), Polling], invs := [x]);
    s := Then(2, s, Deliver(1, y));
  }

  /** With readable ids the stale answer gets 410 and the right one is then accepted; both workers go on. */
  lemma TimelineWithIds(a: string, b: string) returns (s: State)
    requires a != b
    ensures Reachable(2, s)
    ensures s.posts == [Post(0, SampleAnswer(Readable(a), "A"), Refused(410)),
                        Post(1, SampleAnswer(Readable(b), "B"), AcceptedFor(1))]
    ensures s.workers == [Idle, Idle]
  {
    s := LateAnswer(Readable(a), Readable(b));
    assert !Accepts(s, s.posts[0].request);
    s := Then(2, s, Arrive(0));
    s := Echoes(s, 1, Readable(b), "B");
    assert Accepts(s, s.posts[1].request);
    s := Then(2, s, Arrive(1));
    s := BothReturn(s, 410, 202);
  }

  /** The workers get the statuses of their answers and poll again. */
  lemma BothReturn(s0: State, code0: nat, code1: nat) returns (s: State)
    requires Reachable(2, s0) && s0.workers == [Posting(0), Posting(1)] && |s0.posts| == 2
    requires HasStatus(s0, 0, code0) && HasStatus(s0, 1, code1)
    ensures Reachable(2, s) && s == s0.(workers := [Idle, Idle])
  {
    s := Then(2, s0, Return(0, Status(code0)));
    s := Then(2, s, Return(1, Status(code1)));
    assert s.workers == [Idle, Idle];
  }

  /** Without a readable id on A the same schedule has A's answer accepted for B. */
  lemma TimelineWithoutId(a: IdHeader)
    requires !a.Readable?
    ensures exists s :: CrossWired(a, s)
  {
    var s := LateAnswer(a, Readable("b"));
    assert Accepts(s, s.posts[0].request);
    s := Then(2, s, Arrive(0));
    assert CrossWired(a, s);
  }

  /** A delivery may get lost: its invocation is open at the API and in no worker's hands. */
  lemma DeliveryLost(inv: Invocation) returns (s: State)
    ensures Reachable(2, s)
    ensures s.invs == [inv] && s.current == map[inv.requestId := 0] && s.workers == [Idle, Idle]
  {
    s := Start(2);
    s := Then(2, s, Poll(0));
    s := Then(2, s, Lose(inv));
    s := Then(2, s, PollFails(0, "connection closed"));
    assert s.workers == [Idle, Idle];
  }

  /** An answer may arrive, and be accepted, after its worker was told it could not be sent and is gone. */
  lemma AnswerOutlivesWorker(error: Error) returns (s: State)
    ensures Reachable(2, s)
    ensures s.workers == [Exited(ProcessingFailed(error)), Idle]
    ensures s.posts == [Post(0, SampleAnswer(Absent, "A"), AcceptedFor(0))]
  {
    s := Start(2);
    s := Then(2, s, Poll(0));
    s := Then(2, s, Deliver(0, Sample(Absent, "A")));
    s := Echoes(s, 0, Absent, "A");
    s := Then(2, s, Return(0, Transport(error)));
    assert s.workers == [Exited(ProcessingFailed(error)), Idle];
    assert Accepts(s, s.posts[0].request);
    s := Then(2, s, Arrive(0));
  }

  /** A's answer was accepted for B. */
  ghost predicate CrossWired(a: IdHeader, s: State) {
    && Reachable(2, s)
    && s.invs == [Sample(a, "A"), Sample(Readable("b"), "B")]
    && s.posts == [Post(0, Request("request", None, Answer("A")), AcceptedFor(1))]
  }

  /** Answer p of a reachable state was accepted and computed from an invocation with header `h`. */
  ghost predicate AcceptedFrom(h: IdHeader, limit: nat, s: State, p: nat) {
    Reachable(limit, s) && p < |s.posts| && s.posts[p].verdict.AcceptedFor? && s.posts[p].source < |s.invs|
    && s.invs[s.posts[p].source].idHeader == h
  }

  /** Whatever a run does, answers computed from invocations that carried header `h` are accepted for
      their own invocation only: this is so exactly when `h` is a readable invocation id. */
  lemma NoCrossWiringIff(h: IdHeader)
    ensures h.Readable? <==>
      forall limit, s, p: nat :: AcceptedFrom(h, limit, s, p) ==> s.posts[p].verdict.target == s.posts[p].source
  {
    if h.Readable? {
      forall limit, s, p: nat | AcceptedFrom(h, limit, s, p) ensures s.posts[p].verdict.target == s.posts[p].source {
        NoCrossWiring(limit, s, p);
      }
    } else {
      TimelineWithoutId(h);
      var s :| CrossWired(h, s);
      assert AcceptedFrom(h, 2, s, 0);
    }
  }

  /* ---------- counting workers ---------- */

  function Count(workers: seq<Worker>, kind: Worker -> bool): nat {
    if workers == [] then 0
    else Count(workers[..|workers| - 1], kind) + (if kind(workers[|workers| - 1]) then 1 else 0)
  }

  lemma {:induction false} CountUpdates(workers: seq<Worker>, kind: Worker -> bool, w: nat, x: Worker)
    requires w < |workers|
    ensures Count(workers[w := x], kind) ==
            Count(workers, kind) - (if kind(workers[w]) then 1 else 0) + (if kind(x) then 1 else 0)
  {
    var n := |workers| - 1;
    if w == n {
      assert workers[w := x][..n] == workers[..n];
    } else {
      assert workers[w := x][..n] == workers[..n][w := x];
      CountUpdates(workers[..n], kind, w, x);
    }
  }

  lemma {:induction false} CountAll(workers: seq<Worker>, kind: Worker -> bool)
    ensures Count(workers, kind) <= |workers|
    ensures Count(workers, kind) == |workers| <==> forall w :: 0 <= w < |workers| ==> kind(workers[w])
    ensures Count(workers, kind) == 0 <==> forall w :: 0 <= w < |workers| ==> !kind(workers[w])
  {
    if workers != [] {
      var n := |workers| - 1;
      CountAll(workers[..n], kind);
      assert forall w :: 0 <= w < n ==> workers[..n][w] == workers[w];
    }
  }

  lemma {:induction false} CountImplies(workers: seq<Worker>, a: Worker -> bool, b: Worker -> bool)
    requires forall x :: a(x) ==> b(x)
    ensures Count(workers, a) <= Count(workers, b)
  {
    if workers != [] { CountImplies(workers[..|workers| - 1], a, b); }
  }

  predicate Alive(x: Worker) { x.Idle? || x.Polling? || x.Handling? || x.Posting? }

  predicate Busy(x: Worker) { x.Handling? || x.Posting? }

  predicate Unjoined(x: Worker) { !x.Joined? }

  /** How often along a run the next event is one of a kind. */
  function Tally(s: State, evs: seq<Event>, kind: (State, Event) -> bool): nat
    decreases |evs|
  {
    if evs == [] then 0
    else
      (if kind(s, evs[0]) then 1 else 0)
      + (match Step(s, evs[0]) case None => 0 case Some(t) => Tally(t, evs[1..], kind))
  }

  /* ---------- worker survival ---------- */

  /** The code running in the worker's task itself fails: the response of `/next` cannot be prepared, no
      answer can be built from what the handler did, or the answer cannot be sent; in the sequential
      loop also when `/next` itself fails. */
  predicate Fatal(s: State, e: Event) {
    match e
    case PrepareFails(_, _) => true
    case PreparePanics(_) => true
    case HandlerDone(w, h) => IsHandling(s, w) && !RequestOf(s.traced, s.invs[s.workers[w].serial], h).Built?
    case Return(_, reply) => !Finish(reply).Done?
    case PollFails(_, _) => !s.Concurrent()
    case _ => false
  }

  /** An invocation leaves the hands of its worker. */
  predicate Ends(s: State, e: Event) { e.Return? || (Fatal(s, e) && !e.PollFails?) }

  predicate HandsOver(s: State, e: Event) { e.Deliver? }

  lemma OneWorkerLost(s: State, e: Event)
    requires Step(s, e).Some?
    ensures var t := Step(s, e).value;
      && Count(t.workers, Alive) + (if Fatal(s, e) then 1 else 0) == Count(s.workers, Alive)
      && Count(t.workers, Busy) + (if Ends(s, e) then 1 else 0)
         == Count(s.workers, Busy) + (if HandsOver(s, e) then 1 else 0)
  {
    OneWorkerMoves(s, e);
    if OfWorker(e) {
      var x := Step(s, e).value.workers[e.worker];
      CountUpdates(s.workers, Alive, e.worker, x);
      CountUpdates(s.workers, Busy, e.worker, x);
      LifeOf(s, e);
    }
  }

  lemma LifeOf(s: State, e: Event)
    requires Step(s, e).Some? && OfWorker(e) && e.worker < |s.workers| == |Step(s, e).value.workers|
    ensures var x, y := s.workers[e.worker], Step(s, e).value.workers[e.worker];
      && (Alive(y) <==> Alive(x) && !Fatal(s, e))
      && (Fatal(s, e) ==> Alive(x))
      && (Busy(y) <==> e.Deliver? || (Busy(x) && !Ends(s, e)))
      && (Ends(s, e) ==> Busy(x)) && (e.Deliver? ==> !Busy(x) && !Ends(s, e))
  {
  }

  lemma {:induction false} WorkersLost(s: State, evs: seq<Event>, t: State)
    requires Exec(Step, s, evs) == Some(t)
    ensures Count(t.workers, Alive) + Tally(s, evs, Fatal) == Count(s.workers, Alive)
    ensures Count(t.workers, Busy) + Tally(s, evs, Ends) == Count(s.workers, Busy) + Tally(s, evs, HandsOver)
    decreases |evs|
  {
    if evs != [] {
      OneWorkerLost(s, evs[0]);
      WorkersLost(Step(s, evs[0]).value, evs[1..], t);
    }
  }

  /** In every run the workers still in their loops are all but as many as there were fatal failures:
      poll errors of a concurrent worker, handler errors, caught panics and refused answers cost none.
      The invocations in their hands are those delivered to them less those ended, and never more than
      the workers still alive. */
  lemma WorkersSurvive(limit: nat, traced: bool, behaviour: iset<(string, Handler)>, evs: seq<Event>, t: State)
    requires Exec(Step, Init(limit, traced, behaviour), evs) == Some(t)
    ensures var s := Init(limit, traced, behaviour);
      && Count(t.workers, Alive) + Tally(s, evs, Fatal) == limit
      && Count(t.workers, Busy) + Tally(s, evs, Ends) == Tally(s, evs, HandsOver)
      && Count(t.workers, Busy) <= Count(t.workers, Alive)
  {
    var s := Init(limit, traced, behaviour);
    WorkersLost(s, evs, t);
    CountAll(s.workers, Alive);
    CountAll(s.workers, Busy);
    CountImplies(t.workers, Busy, Alive);
  }

  /** An invocation the runtime can take in and address an answer to. */
  predicate Orderly(inv: Invocation) { inv.uriAccepts && inv.bodyIsUtf8 && !inv.payload.ParsePanics? }

  /** Anything a handler may do short of an answer or an error that its own conversions choke on:
      answering, failing, panicking when called, panicking when polled. */
  predicate Contained(h: Handler) {
    h.Runs? ==> (h.out.Answers? ==> h.out.encoding.Encodes?) && (h.out.Fails? ==> !h.out.conversionPanics)
  }

  /** An event that does no harm, told from the event alone. */
  predicate Harmless(e: Event) {
    && !e.PrepareFails? && !e.PreparePanics?
    && (e.Deliver? || e.Lose? ==> Orderly(e.inv))
    && (e.HandlerDone? ==> Contained(e.handler))
    && (e.Return? ==> e.reply.Status?)
  }

  ghost predicate AllOrderly(s: State) { forall i :: 0 <= i < |s.invs| ==> Orderly(s.invs[i]) }

  lemma HarmlessIsNotFatal(s: State, e: Event)
    requires s.Concurrent() && AllOrderly(s) && Harmless(e) && Step(s, e).Some?
    ensures !Fatal(s, e)
    ensures var t := Step(s, e).value; t.Concurrent() && AllOrderly(t)
  {
    OneWorkerMoves(s, e);
    ApiMoves(s, e);
  }

  /** With more than one worker, a run of harmless events, however many polls fail, handlers err or
      panic, invocations expire and answers are refused with whatever status, keeps every worker. */
  lemma {:induction false} HarmlessRunKeepsAll(s: State, evs: seq<Event>, t: State)
    requires s.Concurrent() && AllOrderly(s) && Exec(Step, s, evs) == Some(t)
    requires forall i :: 0 <= i < |evs| ==> Harmless(evs[i])
    ensures Count(t.workers, Alive) == Count(s.workers, Alive)
    decreases |evs|
  {
    if evs != [] {
      HarmlessIsNotFatal(s, evs[0]);
      OneWorkerLost(s, evs[0]);
      HarmlessRunKeepsAll(Step(s, evs[0]).value, evs[1..], t);
    }
  }

  /** In the concurrent pool no worker has left its loop because polling failed. */
  ghost predicate NoPollExit(s: State) {
    s.Concurrent() ==>
      forall w :: 0 <= w < |s.workers| && (s.workers[w].Exited? || s.workers[w].Joined?) ==>
        !s.workers[w].exit.PollFailed?
  }

  lemma NoPollExitKept(s: State, e: Event)
    requires NoPollExit(s) && Step(s, e).Some?
    ensures NoPollExit(Step(s, e).value)
  {
    OneWorkerMoves(s, e);
    if OfWorker(e) { ExitReason(s, e); }
  }

  lemma ExitReason(s: State, e: Event)
    requires Step(s, e).Some? && OfWorker(e) && e.worker < |s.workers| == |Step(s, e).value.workers|
    ensures var x, y := s.workers[e.worker], Step(s, e).value.workers[e.worker];
      && (y.Exited? ==> Alive(x) && (y.exit.PollFailed? ==> !s.Concurrent()))
      && (y.Joined? ==> x.Exited? && y.exit == x.exit)
  {
  }

  lemma PollErrorsAreRetried(limit: nat, s: State)
    requires Reachable(limit, s)
    ensures NoPollExit(s)
  {
    forall a, e | NoPollExit(a) && Step(a, e).Some? ensures NoPollExit(Step(a, e).value) {
      NoPollExitKept(a, e);
    }
    var traced, behaviour :| Reaches(Step, Init(limit, traced, behaviour), s);
    InvariantHolds(Step, NoPollExit, Init(limit, traced, behaviour), s);
  }

  /** Event `e`, happening in `s`, makes worker `w` leave its loop for the reason `exit`. */
  predicate Causes(s: State, e: Event, w: nat, exit: Exit) {
    match e
    case PollFails(v, error) => v == w && exit == PollFailed(error)
    case PrepareFails(v, error) => v == w && exit == ProcessingFailed(error)
    case PreparePanics(v) => v == w && exit.Panicked?
    case HandlerDone(v, h) =>
      && v == w && IsHandling(s, w)
      && (match RequestOf(s.traced, s.invs[s.workers[w].serial], h)
          case Built(_) => false
          case BuildFails(error) => exit == ProcessingFailed(error)
          case Unwinds => exit.Panicked?)
    case Return(v, reply) => v == w && reply.Transport? && exit == ProcessingFailed(reply.error)
    case _ => false
  }

  predicate Left(x: Worker) { x.Exited? || x.Joined? }

  lemma LeavingHasCause(s: State, e: Event, w: nat)
    requires Step(s, e).Some? && w < |s.workers| == |Step(s, e).value.workers| && Left(Step(s, e).value.workers[w])
    ensures Alive(s.workers[w]) ==> Causes(s, e, w, Step(s, e).value.workers[w].exit)
    ensures Left(s.workers[w]) ==> Step(s, e).value.workers[w].exit == s.workers[w].exit
  {
  }

  lemma {:induction false} ExitStays(s: State, evs: seq<Event>, t: State, w: nat)
    requires Exec(Step, s, evs) == Some(t) && w < |s.workers| && Left(s.workers[w])
    ensures w < |t.workers| && Left(t.workers[w]) && t.workers[w].exit == s.workers[w].exit
    decreases |evs|
  {
    if evs != [] {
      OneWorkerMoves(s, evs[0]);
      StaysLeft(s, evs[0], w);
      ExitStays(Step(s, evs[0]).value, evs[1..], t, w);
    }
  }

  lemma StaysLeft(s: State, e: Event, w: nat)
    requires Step(s, e).Some? && w < |s.workers| == |Step(s, e).value.workers| && Left(s.workers[w])
    ensures Left(Step(s, e).value.workers[w]) && Step(s, e).value.workers[w].exit == s.workers[w].exit
  {
  }

  /** The exit of a worker is the error, or the panic, of an event of that worker in the run. */
  ghost predicate HasCause(s: State, evs: seq<Event>, w: nat, exit: Exit) {
    exists i, u :: 0 <= i < |evs| && Exec(Step, s, evs[..i]) == Some(u) && Causes(u, evs[i], w, exit)
  }

  lemma {:induction false} ExitHasCause(s: State, evs: seq<Event>, t: State, w: nat)
    requires Exec(Step, s, evs) == Some(t) && w < |s.workers| == |t.workers|
    requires Alive(s.workers[w]) && Left(t.workers[w])
    ensures HasCause(s, evs, w, t.workers[w].exit)
    decreases |evs|
  {
    assert evs != [];
    var u := Step(s, evs[0]).value;
    OneWorkerMoves(s, evs[0]);
    if Left(u.workers[w]) {
      LeavingHasCause(s, evs[0], w);
      ExitStays(u, evs[1..], t, w);
      assert Exec(Step, s, evs[..0]) == Some(s);
    } else {
      ExitHasCause(u, evs[1..], t, w);
      var i, v :| 0 <= i < |evs[1..]| && Exec(Step, u, evs[1..][..i]) == Some(v)
                  && Causes(v, evs[1..][i], w, t.workers[w].exit);
      assert evs[..i + 1][0] == evs[0] && evs[..i + 1][1..] == evs[1..][..i];
      assert Exec(Step, s, evs[..i + 1]) == Some(v);
      assert evs[1..][i] == evs[i + 1];
    }
  }

  /* ---------- the supervisor's books ---------- */

  /** The counter is right, and complements the recorded errors. */
  ghost predicate CounterInv(s: State) {
    && s.remaining == Count(s.workers, Unjoined)
    && s.remaining + |s.errors| == |s.workers|
    && s.errors == Supervisor.AllErrors(s.joins)
  }

  /** Every recorded exit is that of a joined worker, and says why its loop ended. */
  ghost predicate JoinsFit(s: State) {
    forall i :: 0 <= i < |s.joins| ==>
      var w := s.joins[i].task;
      w < |s.workers| && s.workers[w].Joined? && s.joins[i] == JoinResultOf(w, s.workers[w].exit)
  }

  ghost predicate JoinsApart(s: State) {
    forall i, j :: 0 <= i < j < |s.joins| ==> s.joins[i].task != s.joins[j].task
  }

  ghost predicate Entered(s: State, w: nat) { exists i :: 0 <= i < |s.joins| && s.joins[i].task == w }

  ghost predicate AllEntered(s: State) {
    forall w :: 0 <= w < |s.workers| && s.workers[w].Joined? ==> Entered(s, w)
  }

  /** Recorded exits and joined workers correspond one to one. */
  ghost predicate EntriesInv(s: State) { JoinsFit(s) && JoinsApart(s) && AllEntered(s) }

  lemma BooksMove(s: State, e: Event)
    requires Step(s, e).Some?
    ensures var t := Step(s, e).value;
      && (!e.Join? ==> t.joins == s.joins && t.errors == s.errors && t.remaining == s.remaining)
      && (OfWorker(e) ==> e.worker < |s.workers| == |t.workers| && !s.workers[e.worker].Joined?
                          && (t.workers[e.worker].Joined? <==> e.Join?))
      && (e.Join? ==> t.joins == s.joins + [JoinResultOf(e.worker, t.workers[e.worker].exit)])
  {
  }

  lemma CounterKept(s: State, e: Event)
    requires CounterInv(s) && Step(s, e).Some?
    ensures CounterInv(Step(s, e).value)
  {
    var t := Step(s, e).value;
    OneWorkerMoves(s, e);
    BooksMove(s, e);
    if OfWorker(e) {
      CountUpdates(s.workers, Unjoined, e.worker, t.workers[e.worker]);
    }
    if e.Join? {
      CountAll(s.workers, Unjoined);
      Supervisor.ErrorAppended(s.joins, JoinResultOf(e.worker, t.workers[e.worker].exit));
    }
  }

  lemma JoinsFitKept(s: State, e: Event)
    requires JoinsFit(s) && Step(s, e).Some?
    ensures JoinsFit(Step(s, e).value)
  {
    OneWorkerMoves(s, e);
    BooksMove(s, e);
  }

  lemma JoinsApartKept(s: State, e: Event)
    requires JoinsFit(s) && JoinsApart(s) && Step(s, e).Some?
    ensures JoinsApart(Step(s, e).value)
  {
    BooksMove(s, e);
  }

  lemma AllEnteredKept(s: State, e: Event)
    requires AllEntered(s) && Step(s, e).Some?
    ensures AllEntered(Step(s, e).value)
  {
    var t := Step(s, e).value;
    OneWorkerMoves(s, e);
    BooksMove(s, e);
    forall w | 0 <= w < |t.workers| && t.workers[w].Joined? ensures Entered(t, w) {
      if s.workers[w].Joined? {
        var i :| 0 <= i < |s.joins| && s.joins[i].task == w;
        assert t.joins[i] == s.joins[i];
      } else {
        assert t.joins[|s.joins|].task == w;
      }
    }
  }

  lemma EntriesKept(s: State, e: Event)
    requires EntriesInv(s) && Step(s, e).Some?
    ensures EntriesInv(Step(s, e).value)
  {
    JoinsFitKept(s, e);
    JoinsApartKept(s, e);
    AllEnteredKept(s, e);
  }

  /** At every point of a run the supervisor's counter is the number of workers it has not yet joined;
      with the recorded exits it adds up to the limit, and each joined worker has exactly one entry, with
      its own exit reason. */
  lemma PoolAccounting(limit: nat, s: State)
    requires Reachable(limit, s)
    ensures CounterInv(s) && EntriesInv(s) && |s.workers| == limit
    ensures s.remaining == 0 <==> forall w :: 0 <= w < limit ==> s.workers[w].Joined?
    ensures forall w :: 0 <= w < limit && s.workers[w].Joined? ==>
      var exit := s.workers[w].exit;
      Supervisor.Failure(w, if exit.Panicked? then "task panicked" else exit.error) in s.errors
    ensures forall i :: 0 <= i < |s.errors| ==>
      s.errors[i].Failure? && s.errors[i].task < limit && s.workers[s.errors[i].task].Joined?
    ensures forall i, j :: 0 <= i < j < |s.errors| ==> s.errors[i].task != s.errors[j].task
  {
    BooksHold(limit, s);
    CountAll(s.workers, Unjoined);
    ErrorsSpelledOut(limit, s);
  }

  lemma BooksHold(limit: nat, s: State)
    requires Reachable(limit, s)
    ensures CounterInv(s) && EntriesInv(s) && |s.workers| == limit
  {
    var traced, behaviour :| Reaches(Step, Init(limit, traced, behaviour), s);
    CounterHolds(limit, traced, behaviour, s);
    EntriesHold(limit, traced, behaviour, s);
    SameLimit(limit, traced, behaviour, s);
  }

  lemma ErrorsSpelledOut(limit: nat, s: State)
    requires CounterInv(s) && EntriesInv(s) && |s.workers| == limit
    ensures forall w :: 0 <= w < limit && s.workers[w].Joined? ==>
      var exit := s.workers[w].exit;
      Supervisor.Failure(w, if exit.Panicked? then "task panicked" else exit.error) in s.errors
    ensures forall i :: 0 <= i < |s.errors| ==>
      s.errors[i].Failure? && s.errors[i].task < limit && s.workers[s.errors[i].task].Joined?
    ensures forall i, j :: 0 <= i < j < |s.errors| ==> s.errors[i].task != s.errors[j].task
  {
    ErrorsAre(s);
    forall w | 0 <= w < limit && s.workers[w].Joined?
      ensures var exit := s.workers[w].exit;
        Supervisor.Failure(w, if exit.Panicked? then "task panicked" else exit.error) in s.errors
    {
      JoinedIsReported(s, w);
    }
  }

  /** The i-th error is a failure of the worker that exited i-th. */
  lemma ErrorsAre(s: State)
    requires CounterInv(s) && EntriesInv(s)
    ensures |s.errors| == |s.joins|
    ensures forall i :: 0 <= i < |s.joins| ==> s.errors[i].Failure? && s.errors[i].task == s.joins[i].task
  {
    Supervisor.EntryOfExit(s.joins);
  }

  lemma JoinedIsReported(s: State, w: nat)
    requires CounterInv(s) && EntriesInv(s) && w < |s.workers| && s.workers[w].Joined?
    ensures var exit := s.workers[w].exit;
      Supervisor.Failure(w, if exit.Panicked? then "task panicked" else exit.error) in s.errors
  {
    Supervisor.EntryOfExit(s.joins);
    assert Entered(s, w);
    var i :| 0 <= i < |s.joins| && s.joins[i].task == w;
    assert s.errors[i] in s.errors;
  }

  lemma CounterHolds(limit: nat, traced: bool, behaviour: iset<(string, Handler)>, s: State)
    requires Reaches(Step, Init(limit, traced, behaviour), s)
    ensures CounterInv(s)
  {
    CountAll(Init(limit, traced, behaviour).workers, Unjoined);
    forall a, e | CounterInv(a) && Step(a, e).Some? ensures CounterInv(Step(a, e).value) { CounterKept(a, e); }
    InvariantHolds(Step, CounterInv, Init(limit, traced, behaviour), s);
  }

  lemma EntriesHold(limit: nat, traced: bool, behaviour: iset<(string, Handler)>, s: State)
    requires Reaches(Step, Init(limit, traced, behaviour), s)
    ensures EntriesInv(s)
  {
    forall a, e | EntriesInv(a) && Step(a, e).Some? ensures EntriesInv(Step(a, e).value) { EntriesKept(a, e); }
    InvariantHolds(Step, EntriesInv, Init(limit, traced, behaviour), s);
  }

  lemma SameLimit(limit: nat, traced: bool, behaviour: iset<(string, Handler)>, s: State)
    requires Reaches(Step, Init(limit, traced, behaviour), s)
    ensures |s.workers| == limit
  {
    var inv := (a: State) => |a.workers| == limit;
    forall a, e | inv(a) && Step(a, e).Some? ensures inv(Step(a, e).value) { OneWorkerMoves(a, e); }
    InvariantHolds(Step, inv, Init(limit, traced, behaviour), s);
  }

  /** Once every worker has been joined the exits of the run are what the unordered set owes the
      supervisor: each spawned task's, once. */
  lemma ExitsAreComplete(limit: nat, s: State)
    requires Reachable(limit, s) && limit >= 1 && s.remaining == 0
    ensures Supervisor.YieldsEach(limit, s.joins)
  {
    PoolAccounting(limit, s);
    forall w: nat ensures w in Supervisor.TasksFrom(s.joins, 0) <==> w in Supervisor.Tasks(limit) {
      EveryTaskExits(limit, s, w);
    }
  }

  lemma EveryTaskExits(limit: nat, s: State, w: nat)
    requires JoinsFit(s) && AllEntered(s) && |s.workers| == limit
    requires forall v :: 0 <= v < limit ==> s.workers[v].Joined?
    ensures w in Supervisor.TasksFrom(s.joins, 0) <==> w in Supervisor.Tasks(limit)
  {
    Supervisor.InTasksFrom(s.joins, 0, w);
    Supervisor.TasksAre(limit, w);
    if w < limit { assert Entered(s, w); }
  }

  /** The supervision loop, run on the exits of any run of the pool in which every worker was joined,
      returns the errors that run has recorded: one for each worker. */
  method Supervise(limit: nat, s: State) returns (r: Result<(), seq<Supervisor.WorkerError>>)
    requires Reachable(limit, s) && limit >= 1 && s.remaining == 0
    ensures r == Err(s.errors) && |s.errors| == limit
  {
    ExitsAreComplete(limit, s);
    PoolAccounting(limit, s);
    r := Supervisor.RunConcurrentInner(limit, s.joins);
  }
}
