/** Runs of a state machine given by a step function that is `None` where an event is not enabled. */
module Runs {
  import opened Types

  /** The state after a run; `None` when some step was not enabled. */
  ghost function Exec<S(!new), E(!new)>(step: (S, E) -> Option<S>, s: S, run: seq<E>): Option<S> {
    if run == [] then Some(s)
    else match Exec(step, s, run[..|run| - 1])
         case Some(r) => step(r, run[|run| - 1])
         case None => None
  }

  lemma ExecStep<S(!new), E(!new)>(step: (S, E) -> Option<S>, s: S, run: seq<E>, e: E)
    requires Exec(step, s, run).Some?
    ensures Exec(step, s, run + [e]) == step(Exec(step, s, run).value, e)
  {
    assert (run + [e])[..|run + [e]| - 1] == run;
  }

  lemma {:induction false} ExecSplit<S(!new), E(!new)>(step: (S, E) -> Option<S>, s: S, a: seq<E>, b: seq<E>)
    ensures Exec(step, s, a + b) ==
            match Exec(step, s, a) case Some(r) => Exec(step, r, b) case None => None
  {
    if b == [] {
      assert a + b == a;
    } else {
      var n := |b| - 1;
      assert (a + b)[..|a + b| - 1] == a + b[..n];
      ExecSplit(step, s, a, b[..n]);
    }
  }

  lemma PrefixRuns<S(!new), E(!new)>(step: (S, E) -> Option<S>, s: S, run: seq<E>, k: nat)
    requires k <= |run| && Exec(step, s, run).Some?
    ensures Exec(step, s, run[..k]).Some?
  {
    assert run == run[..k] + run[k..];
    ExecSplit(step, s, run[..k], run[k..]);
  }

  /** Event `k` of a run is a step from the state before it to the state after it. */
  lemma StepOfRun<S(!new), E(!new)>(step: (S, E) -> Option<S>, s: S, run: seq<E>, k: nat)
    requires k < |run| && Exec(step, s, run).Some?
    ensures Exec(step, s, run[..k]).Some? && Exec(step, s, run[..k + 1]).Some?
    ensures step(Exec(step, s, run[..k]).value, run[k]) == Exec(step, s, run[..k + 1])
  {
    PrefixRuns(step, s, run, k);
    PrefixRuns(step, s, run, k + 1);
    assert run[..k + 1] == run[..k] + [run[k]];
    ExecStep(step, s, run[..k], run[k]);
  }

  /** Some run leads from `s` to `s'`. */
  ghost predicate Can<S(!new), E(!new)>(step: (S, E) -> Option<S>, s: S, s': S) {
    exists run: seq<E> :: Exec(step, s, run) == Some(s')
  }

  lemma CanStay<S(!new), E(!new)>(step: (S, E) -> Option<S>, s: S)
    ensures Can(step, s, s)
  {
    assert Exec(step, s, []) == Some(s);
  }

  lemma CanThen<S(!new), E(!new)>(step: (S, E) -> Option<S>, s: S, m: S, e: E, s': S)
    requires Can(step, s, m) && step(m, e) == Some(s')
    ensures Can(step, s, s')
  {
    var run: seq<E> :| Exec(step, s, run) == Some(m);
    ExecStep(step, s, run, e);
  }

  lemma CanChain<S(!new), E(!new)>(step: (S, E) -> Option<S>, a: S, b: S, c: S)
    requires Can(step, a, b) && Can(step, b, c)
    ensures Can(step, a, c)
  {
    var r1: seq<E> :| Exec(step, a, r1) == Some(b);
    var r2: seq<E> :| Exec(step, b, r2) == Some(c);
    ExecSplit(step, a, r1, r2);
  }
}
