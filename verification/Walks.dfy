/** Keyset walks over the interleaved table: each page shows what one moment of a run has committed. */
module Walks {
  import opened Types
  import opened Atomic
  import opened Versions
  import opened Runs
  import opened Engine
  import opened EngineProof
  import opened Paging

  /** The committed log of a run only grows. */
  lemma {:induction false} LogGrows(s: State, run: seq<Event>, i: nat, j: nat)
    requires i <= j <= |run| && Exec(Step, s, run[..i]).Some? && Exec(Step, s, run[..j]).Some?
    ensures Exec(Step, s, run[..i]).value.log <= Exec(Step, s, run[..j]).value.log
    decreases j
  {
    if i < j {
      assert run[..j][..j - 1] == run[..j - 1];
      LogGrows(s, run, i, j - 1);
      StepOps(Exec(Step, s, run[..j - 1]).value, run[j - 1], Exec(Step, s, run[..j]).value);
    }
  }

  /** `tables[i]` is what the run had committed when page `i` was read, after its first `at[i]` events. */
  ghost predicate TablesOfRun(rows0: Rows, nextId: int, run: seq<Event>, at: seq<nat>, tables: seq<Rows>) {
    && Exec(Step, Init(rows0, nextId), run).Some?
    && |at| == |tables|
    && (forall i, j | 0 <= i <= j < |at| :: at[i] <= at[j])
    && (forall i | 0 <= i < |at| ::
          && at[i] <= |run|
          && Exec(Step, Init(rows0, nextId), run[..at[i]]).Some?
          && tables[i] == Exec(Step, Init(rows0, nextId), run[..at[i]]).value.rows)
  }

  /** How much of the log had been committed after `k` events. */
  ghost function LogLength(s: State, run: seq<Event>, k: nat): nat
    requires k <= |run|
  {
    match Exec(Step, s, run[..k]) case Some(r) => |r.log| case None => 0
  }

  ghost function LogLengths(s: State, run: seq<Event>, at: seq<nat>): seq<nat>
    requires forall i | 0 <= i < |at| :: at[i] <= |run|
  {
    seq(|at|, i requires 0 <= i < |at| => LogLength(s, run, at[i]))
  }

  lemma MomentOfRun(rows0: Rows, nextId: int, run: seq<Event>, k: nat)
    requires RowIdsOk(rows0) && k <= |run| && Exec(Step, Init(rows0, nextId), run).Some?
    ensures var s0 := Init(rows0, nextId);
            var log := Exec(Step, s0, run).value.log;
            && Exec(Step, s0, run[..k]).Some? && LogLength(s0, run, k) <= |log|
            && Replay(rows0, log[..LogLength(s0, run, k)]) == Some(Exec(Step, s0, run[..k]).value.rows)
  {
    var s0 := Init(rows0, nextId);
    PrefixRuns(Step, s0, run, k);
    assert run[..|run|] == run;
    LogGrows(s0, run, k, |run|);
    EveryRunIsSerial(rows0, nextId, run[..k]);
    var early, log := Exec(Step, s0, run[..k]).value.log, Exec(Step, s0, run).value.log;
    assert log[..|early|] == early;
  }

  /** The tables of a run are tables along its committed history. */
  lemma RunIsAlongHistory(rows0: Rows, nextId: int, run: seq<Event>, at: seq<nat>, tables: seq<Rows>)
    requires RowIdsOk(rows0) && TablesOfRun(rows0, nextId, run, at, tables)
    ensures var s0 := Init(rows0, nextId);
            AlongHistory(rows0, Exec(Step, s0, run).value.log, LogLengths(s0, run, at), tables)
  {
    var s0 := Init(rows0, nextId);
    forall i | 0 <= i < |at|
      ensures LogLength(s0, run, at[i]) <= |Exec(Step, s0, run).value.log|
      ensures Replay(rows0, Exec(Step, s0, run).value.log[..LogLength(s0, run, at[i])]) == Some(tables[i])
    {
      MomentOfRun(rows0, nextId, run, at[i]);
    }
    forall i, j | 0 <= i <= j < |at| ensures LogLength(s0, run, at[i]) <= LogLength(s0, run, at[j]) {
      LogGrows(s0, run, at[i], at[j]);
    }
  }

  /** Reading pages while inserts, updates, deletes and restores of any number of transactions interleave,
      with no import committing: no row comes twice, and a finished walk has returned exactly once every
      row that matched the filter at each of its requests. */
  lemma WalkOverRunIsComplete(rows0: Rows, nextId: int, run: seq<Event>, at: seq<nat>, tables: seq<Rows>,
                              selected: Doc -> bool, size: nat, pages: seq<seq<Doc>>, id: int)
    requires RowIdsOk(rows0) && TablesOfRun(rows0, nextId, run, at, tables)
    requires NoImport(Exec(Step, Init(rows0, nextId), run).value.log)
    requires IsWalk(tables, selected, size, pages)
    ensures forall i, a, j, b | At(pages, i, a, id) && At(pages, j, b, id) :: i == j && a == b
    ensures |pages[|pages| - 1]| < size && (forall k | 0 <= k < |tables| :: id in tables[k] && selected(tables[k][id]))
            ==> exists i, a :: At(pages, i, a, id)
  {
    RunIsStable(rows0, nextId, run, at, tables);
    if |pages[|pages| - 1]| < size && forall k | 0 <= k < |tables| :: id in tables[k] && selected(tables[k][id]) {
      WalkIsComplete(tables, selected, size, pages, id);
    }
    forall i, a, j, b | At(pages, i, a, id) && At(pages, j, b, id) ensures i == j && a == b {
      WalkNeverRepeats(tables, selected, size, pages, i, a, j, b);
    }
  }

  lemma RunIsStable(rows0: Rows, nextId: int, run: seq<Event>, at: seq<nat>, tables: seq<Rows>)
    requires RowIdsOk(rows0) && TablesOfRun(rows0, nextId, run, at, tables)
    requires NoImport(Exec(Step, Init(rows0, nextId), run).value.log)
    ensures Stable(tables)
  {
    var s0 := Init(rows0, nextId);
    RunIsAlongHistory(rows0, nextId, run, at, tables);
    HistoryIsStable(rows0, Exec(Step, s0, run).value.log, LogLengths(s0, run, at), tables);
  }
}
