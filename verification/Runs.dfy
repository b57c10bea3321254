/** Option and Result, as the runtime's own Rust code uses them, and bytes. */
module Common {
  type Byte = b: int | 0 <= b < 256
  type Bytes = seq<Byte>

  datatype Option<+T> = None | Some(value: T)

  datatype Result<+T, +E> = Ok(value: T) | Err(error: E)
}

/** Finite runs of a transition system given by a partial step function:
    `step(s, e)` is the state after event `e`, or None when `e` cannot happen in `s`. */
module Runs {
  import opened Common

  function Exec<S, E>(step: (S, E) -> Option<S>, s: S, evs: seq<E>): Option<S> {
    if evs == [] then Some(s)
    else
      match step(s, evs[0])
      case None => None
      case Some(t) => Exec(step, t, evs[1..])
  }

  /** A predicate kept by every step holds at the end of every run. */
  lemma {:induction false} InvariantOfRuns<S(!new), E(!new)>(
    step: (S, E) -> Option<S>, inv: S -> bool, s: S, evs: seq<E>)
    requires inv(s)
    requires forall a, e :: inv(a) && step(a, e).Some? ==> inv(step(a, e).value)
    ensures Exec(step, s, evs).Some? ==> inv(Exec(step, s, evs).value)
  {
    if evs != [] && step(s, evs[0]).Some? {
      InvariantOfRuns(step, inv, step(s, evs[0]).value, evs[1..]);
    }
  }

  /** Running two event lists in turn is running their concatenation. */
  lemma {:induction false} ExecConcat<S, E>(step: (S, E) -> Option<S>, s: S, a: seq<E>, b: seq<E>)
    ensures Exec(step, s, a + b) ==
            match Exec(step, s, a) { case None => None case Some(t) => Exec(step, t, b) }
  {
    if a == [] {
      assert a + b == b;
    } else {
      assert (a + b)[0] == a[0] && (a + b)[1..] == a[1..] + b;
      if step(s, a[0]).Some? {
        ExecConcat(step, step(s, a[0]).value, a[1..], b);
      }
    }
  }

  ghost predicate Reaches<S(!new), E(!new)>(step: (S, E) -> Option<S>, s: S, t: S) {
    exists evs :: Exec(step, s, evs) == Some(t)
  }

  lemma ReachesItself<S(!new), E(!new)>(step: (S, E) -> Option<S>, s: S)
    ensures Reaches(step, s, s)
  {
    assert Exec(step, s, []) == Some(s);
  }

  /** One more event extends a run. */
  lemma ReachesNext<S(!new), E(!new)>(step: (S, E) -> Option<S>, s: S, t: S, e: E)
    requires Reaches(step, s, t) && step(t, e).Some?
    ensures Reaches(step, s, step(t, e).value)
  {
    var evs :| Exec(step, s, evs) == Some(t);
    ExecConcat(step, s, evs, [e]);
    assert Exec(step, t, [e]) == Exec(step, step(t, e).value, []);
    assert Exec(step, s, evs + [e]) == Some(step(t, e).value);
  }

  /** The same, handing over the state reached. */
  lemma Next<S(!new), E(!new)>(step: (S, E) -> Option<S>, s: S, t: S, e: E) returns (u: S)
    requires Reaches(step, s, t) && step(t, e).Some?
    ensures Reaches(step, s, u) && step(t, e) == Some(u)
  {
    u := step(t, e).value;
    ReachesNext(step, s, t, e);
  }

  lemma ReachesTransitively<S(!new), E(!new)>(step: (S, E) -> Option<S>, s: S, t: S, u: S)
    requires Reaches(step, s, t) && Reaches(step, t, u)
    ensures Reaches(step, s, u)
  {
    var a :| Exec(step, s, a) == Some(t);
    var b :| Exec(step, t, b) == Some(u);
    ExecConcat(step, s, a, b);
    assert Exec(step, s, a + b) == Some(u);
  }

  /** A predicate kept by every step holds in every reachable state. */
  lemma InvariantHolds<S(!new), E(!new)>(step: (S, E) -> Option<S>, inv: S -> bool, s: S, t: S)
    requires inv(s) && Reaches(step, s, t)
    requires forall a, e :: inv(a) && step(a, e).Some? ==> inv(step(a, e).value)
    ensures inv(t)
  {
    var evs :| Exec(step, s, evs) == Some(t);
    InvariantOfRuns(step, inv, s, evs);
  }
}
