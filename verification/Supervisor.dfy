/** The supervision loop over the workers' task handles, and the error it ends in. */
module Supervisor {
  import opened Common

  type Error = string

  /** What awaiting a task handle yields: the loop's own result, or the join error of a panic. */
  datatype JoinResult = Finished(task: nat, result: Result<(), Error>) | Crashed(task: nat, error: Error)

  datatype WorkerError = CleanExit(task: nat) | Failure(task: nat, error: Error)

  function ToWorkerError(r: JoinResult): WorkerError {
    match r
    case Finished(task, Ok(_)) => CleanExit(task)
    case Finished(task, Err(error)) => Failure(task, error)
    case Crashed(task, error) => Failure(task, error)
  }

  function AllErrors(joins: seq<JoinResult>): seq<WorkerError> {
    if joins == [] then [] else AllErrors(joins[..|joins| - 1]) + [ToWorkerError(joins[|joins| - 1])]
  }

  function SaturatingSub(a: nat, b: nat): nat { if a < b then 0 else a - b }

  /** How many workers are spawned: one for each slot, and never fewer than one. */
  function Spawned(limit: nat): nat { if limit == 0 then 1 else limit }

  /** The handles 0 up to `n`. */
  function Tasks(n: nat): set<nat> {
    if n == 0 then {} else Tasks(n - 1) + {n - 1}
  }

  lemma {:induction false} TasksAre(n: nat, w: nat)
    ensures w in Tasks(n) <==> w < n
  {
    if n > 0 { TasksAre(n - 1, w); }
  }

  lemma {:induction false} TaskCount(n: nat)
    ensures |Tasks(n)| == n
  {
    if n > 0 {
      TaskCount(n - 1);
      TasksAre(n - 1, n - 1);
    }
  }

  /** The tasks that exit from the k-th join on. */
  function TasksFrom(joins: seq<JoinResult>, k: nat): set<nat>
    decreases |joins| - k
  {
    if k >= |joins| then {} else {joins[k].task} + TasksFrom(joins, k + 1)
  }

  /** The contract of the unordered set: it yields each of the handles pushed into it, 0 up to `n`, once. */
  ghost predicate YieldsEach(n: nat, joins: seq<JoinResult>) {
    && (forall i, j :: 0 <= i < j < |joins| ==> joins[i].task != joins[j].task)
    && TasksFrom(joins, 0) == Tasks(n)
  }

  lemma {:induction false} InTasksFrom(joins: seq<JoinResult>, k: nat, task: nat)
    ensures task in TasksFrom(joins, k) <==> exists i :: k <= i < |joins| && joins[i].task == task
    decreases |joins| - k
  {
    if k < |joins| { InTasksFrom(joins, k + 1, task); }
  }

  /** Each join takes one task out of those still to come. */
  lemma TaskLeaves(n: nat, joins: seq<JoinResult>, k: nat)
    requires YieldsEach(n, joins) && k < |joins|
    ensures joins[k].task in TasksFrom(joins, k)
    ensures TasksFrom(joins, k + 1) == TasksFrom(joins, k) - {joins[k].task}
  {
    InTasksFrom(joins, k + 1, joins[k].task);
  }

  lemma ErrorAppended(joins: seq<JoinResult>, join: JoinResult)
    ensures AllErrors(joins + [join]) == AllErrors(joins) + [ToWorkerError(join)]
  {
    assert (joins + [join])[..|joins|] == joins;
  }

  lemma OneMoreError(joins: seq<JoinResult>, k: nat)
    requires k < |joins|
    ensures AllErrors(joins[..k + 1]) == AllErrors(joins[..k]) + [ToWorkerError(joins[k])]
  {
    assert joins[..k + 1] == joins[..k] + [joins[k]];
    ErrorAppended(joins[..k], joins[k]);
  }

  /** The entry each exit leaves: a clean one for a loop that returned without an error, and a failure
      with the error otherwise, a join error included. */
  lemma {:induction false} EntryOfExit(joins: seq<JoinResult>)
    ensures |AllErrors(joins)| == |joins|
    ensures forall i :: 0 <= i < |joins| ==>
      AllErrors(joins)[i] ==
        if joins[i].Finished? && joins[i].result.Ok? then CleanExit(joins[i].task)
        else Failure(joins[i].task, if joins[i].Finished? then joins[i].result.error else joins[i].error)
  {
    if joins != [] {
      var n := |joins| - 1;
      EntryOfExit(joins[..n]);
      assert forall i :: 0 <= i < n ==> joins[..n][i] == joins[i];
    }
  }

  /** One task handle for each concurrency slot; the last worker gets the owned service. */
  method SpawnWorkers(limit: nat) returns (workers: set<nat>)
    ensures workers == Tasks(Spawned(limit))
  {
    workers := {};
    var i := 1;
    while i < limit
      invariant 1 <= i && (i <= limit || i == 1)
      invariant workers == Tasks(i - 1)
    {
      workers := workers + {i - 1};
      i := i + 1;
    }
    workers := workers + {i - 1};
  }

  /** `run_concurrent_inner`: spawns the workers and takes their exits, `joins`, in the order in which
      the unordered set yields them. The loop returns only after every worker has exited, its counter
      is at each turn the number of workers still running, and the result is an error with exactly one
      entry for each of them: the Ok branch cannot be taken, whatever the limit. */
  method RunConcurrentInner(limit: nat, joins: seq<JoinResult>) returns (r: Result<(), seq<WorkerError>>)
    requires YieldsEach(Spawned(limit), joins)
    ensures r == Err(AllErrors(joins))
    ensures |r.error| == |joins| == if limit == 0 then 1 else limit
    ensures forall i :: 0 <= i < |joins| ==>
      r.error[i] ==
        if joins[i].Finished? && joins[i].result.Ok? then CleanExit(joins[i].task)
        else Failure(joins[i].task, if joins[i].Finished? then joins[i].result.error else joins[i].error)
  {
    var workers := SpawnWorkers(limit);
    var errors: seq<WorkerError> := [];
    var remaining := limit;
    var next := 0;
    TaskCount(Spawned(limit));
    while workers != {}
      invariant 0 <= next <= |joins|
      invariant workers == TasksFrom(joins, next)
      invariant errors == AllErrors(joins[..next])
      invariant |workers| + |errors| == Spawned(limit)
      invariant remaining == if limit == 0 then 0 else |workers|
      decreases |workers|
    {
      TaskLeaves(Spawned(limit), joins, next);
      OneMoreError(joins, next);
      workers := workers - {joins[next].task};
      remaining := SaturatingSub(remaining, 1);
      match joins[next] {
        case Finished(task, Ok(_)) => errors := errors + [CleanExit(task)];
        case Finished(task, Err(error)) => errors := errors + [Failure(task, error)];
        case Crashed(task, error) => errors := errors + [Failure(task, error)];
      }
      next := next + 1;
    }
    assert joins[..|joins|] == joins;
    EntryOfExit(joins);
    match |errors| {
      case 0 => return Ok(());
      case _ => return Err(errors);
    }
  }

  /* ---------- the printed form ---------- */

  datatype Payload = Payload(allClean: bool, clean: seq<nat>, failures: seq<(nat, Error)>)

  function CleanIds(errors: seq<WorkerError>): seq<nat> {
    if errors == [] then []
    else CleanIds(errors[..|errors| - 1])
         + (if errors[|errors| - 1].CleanExit? then [errors[|errors| - 1].task] else [])
  }

  function FailureEntries(errors: seq<WorkerError>): seq<(nat, Error)> {
    if errors == [] then []
    else
      var last := errors[|errors| - 1];
      FailureEntries(errors[..|errors| - 1]) + (if last.Failure? then [(last.task, last.error)] else [])
  }

  /** How many entries are clean exits. */
  function Cleans(errors: seq<WorkerError>): (n: nat)
    ensures n <= |errors|
  {
    if errors == [] then 0
    else Cleans(errors[..|errors| - 1]) + (if errors[|errors| - 1].CleanExit? then 1 else 0)
  }

  /** Entry i stands in the list of its kind, error included, after as many as came before it. */
  ghost predicate ListedAt(errors: seq<WorkerError>, i: nat)
    requires i < |errors|
  {
    var c := Cleans(errors[..i]);
    if errors[i].CleanExit? then c < |CleanIds(errors)| && CleanIds(errors)[c] == errors[i].task
    else i - c < |FailureEntries(errors)| && FailureEntries(errors)[i - c] == (errors[i].task, errors[i].error)
  }

  lemma {:induction false} ListLengths(errors: seq<WorkerError>)
    ensures |CleanIds(errors)| == Cleans(errors) && |FailureEntries(errors)| == |errors| - Cleans(errors)
  {
    if errors != [] { ListLengths(errors[..|errors| - 1]); }
  }

  lemma {:induction false} ListsInOrder(errors: seq<WorkerError>, i: nat)
    requires i < |errors|
    ensures ListedAt(errors, i)
    decreases |errors|
  {
    var n := |errors| - 1;
    ListLengths(errors[..n]);
    if i < n {
      assert errors[..n][..i] == errors[..i] && errors[..n][i] == errors[i];
      ListsInOrder(errors[..n], i);
    }
  }

  lemma AllListed(errors: seq<WorkerError>)
    ensures forall i :: 0 <= i < |errors| ==>
      var c := Cleans(errors[..i]);
      if errors[i].CleanExit? then c < |CleanIds(errors)| && CleanIds(errors)[c] == errors[i].task
      else i - c < |FailureEntries(errors)| && FailureEntries(errors)[i - c] == (errors[i].task, errors[i].error)
  {
    forall i | 0 <= i < |errors|
      ensures var c := Cleans(errors[..i]);
        if errors[i].CleanExit? then c < |CleanIds(errors)| && CleanIds(errors)[c] == errors[i].task
        else i - c < |FailureEntries(errors)| && FailureEntries(errors)[i - c] == (errors[i].task, errors[i].error)
    {
      ListsInOrder(errors, i);
    }
  }

  /** `ConcurrentWorkerErrors::fmt` up to JSON: each entry is listed once, in order, in the list of its
      kind, a failure with its error. */
  method Describe(errors: seq<WorkerError>) returns (p: Payload)
    ensures p.clean == CleanIds(errors) && p.failures == FailureEntries(errors)
    ensures |p.clean| + |p.failures| == |errors|
    ensures forall i :: 0 <= i < |errors| ==>
      var c := Cleans(errors[..i]);
      if errors[i].CleanExit? then c < |p.clean| && p.clean[c] == errors[i].task
      else i - c < |p.failures| && p.failures[i - c] == (errors[i].task, errors[i].error)
    ensures p.allClean <==> errors != [] && forall i :: 0 <= i < |errors| ==> errors[i].CleanExit?
  {
    var clean: seq<nat>, failures: seq<(nat, Error)> := [], [];
    var i := 0;
    while i < |errors|
      invariant 0 <= i <= |errors|
      invariant clean == CleanIds(errors[..i]) && failures == FailureEntries(errors[..i])
    {
      assert errors[..i + 1][..i] == errors[..i];
      match errors[i] {
        case CleanExit(task) => clean := clean + [task];
        case Failure(task, error) => failures := failures + [(task, error)];
      }
      i := i + 1;
    }
    assert errors[..|errors|] == errors;
    NoFailuresIff(errors);
    AllListed(errors);
    p := Payload(failures == [] && clean != [], clean, failures);
  }

  function CountClean(ids: seq<nat>, task: nat): nat {
    if ids == [] then 0 else CountClean(ids[..|ids| - 1], task) + (if ids[|ids| - 1] == task then 1 else 0)
  }

  function CountFailed(entries: seq<(nat, Error)>, task: nat): nat {
    if entries == [] then 0
    else CountFailed(entries[..|entries| - 1], task) + (if entries[|entries| - 1].0 == task then 1 else 0)
  }

  function CountExits(errors: seq<WorkerError>, task: nat): nat {
    if errors == [] then 0
    else CountExits(errors[..|errors| - 1], task) + (if errors[|errors| - 1].task == task then 1 else 0)
  }

  /** The two printed lists partition the workers: each is listed as often as it has entries, counting
      both lists. */
  lemma {:induction false} ListsPartition(errors: seq<WorkerError>, task: nat)
    ensures CountClean(CleanIds(errors), task) + CountFailed(FailureEntries(errors), task) == CountExits(errors, task)
  {
    if errors != [] {
      var rest, last := errors[..|errors| - 1], errors[|errors| - 1];
      ListsPartition(rest, task);
      CleanAdds(CleanIds(rest), last.task, task);
      if last.CleanExit? {
        assert CleanIds(errors) == CleanIds(rest) + [last.task];
        assert FailureEntries(errors) == FailureEntries(rest);
      } else {
        FailedAdds(FailureEntries(rest), last.task, last.error, task);
        assert CleanIds(errors) == CleanIds(rest);
        assert FailureEntries(errors) == FailureEntries(rest) + [(last.task, last.error)];
      }
    }
  }

  lemma CleanAdds(ids: seq<nat>, id: nat, task: nat)
    ensures CountClean(ids + [id], task) == CountClean(ids, task) + (if id == task then 1 else 0)
  {
    assert (ids + [id])[..|ids|] == ids;
  }

  lemma FailedAdds(entries: seq<(nat, Error)>, id: nat, error: Error, task: nat)
    ensures CountFailed(entries + [(id, error)], task) == CountFailed(entries, task) + (if id == task then 1 else 0)
  {
    assert (entries + [(id, error)])[..|entries|] == entries;
  }

  lemma {:induction false} AllClean(errors: seq<WorkerError>)
    ensures Cleans(errors) == |errors| <==> forall i :: 0 <= i < |errors| ==> errors[i].CleanExit?
  {
    if errors != [] {
      var n := |errors| - 1;
      AllClean(errors[..n]);
      if Cleans(errors) == |errors| {
        forall i | 0 <= i < |errors| ensures errors[i].CleanExit? { if i < n { assert errors[..n][i] == errors[i]; } }
      } else if errors[n].CleanExit? {
        var i :| 0 <= i < n && !errors[..n][i].CleanExit?;
        assert !errors[i].CleanExit?;
      }
    }
  }

  /** No failure is listed just when all exits were clean. */
  lemma NoFailuresIff(errors: seq<WorkerError>)
    ensures FailureEntries(errors) == [] <==> forall i :: 0 <= i < |errors| ==> errors[i].CleanExit?
    ensures |CleanIds(errors)| + |FailureEntries(errors)| == |errors|
  {
    ListLengths(errors);
    AllClean(errors);
  }
}
