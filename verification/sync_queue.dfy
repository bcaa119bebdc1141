/** `SyncQueue`: tasks drained first in, first out, with an abort flag, a
    stop at the first failure, and a progress event after each task. The
    tasks themselves, the abort flag and `Percentages.calculate` are
    parameters: `outcome` gives the error a task throws, if any;
    `aborted(i)` is the flag as seen before the task dequeued after `i`
    successes; `percent(i, total)` is the percentage reported after `i`. */
module SyncQueues {

  import opened Wrappers

  datatype SyncState = Started | Failed

  datatype SyncProgress<E> = SyncProgress(percentage: int, state: SyncState, error: Option<E>)

  /** `pending` tasks, and `total`: the number of `add` calls so far. */
  datatype SyncQueue<T> = SyncQueue(pending: seq<T>, total: nat)

  function NewSyncQueue<T>(): (r: SyncQueue<T>)
    ensures Size(r) == 0 && r.total == 0
  {
    SyncQueue([], 0)
  }

  /** `add(...tasks)`: appends the tasks in order; `total` counts the call,
      not the tasks. */
  function Add<T>(q: SyncQueue<T>, tasks: seq<T>): (r: SyncQueue<T>)
    ensures |r.pending| == |q.pending| + |tasks|
    ensures r.pending[..|q.pending|] == q.pending && r.pending[|q.pending|..] == tasks
    ensures r.total == q.total + 1
  {
    assert (q.pending + tasks)[|q.pending|..] == tasks;
    SyncQueue(q.pending + tasks, q.total + 1)
  }

  /** `size()`: the number of pending tasks. */
  function Size<T>(q: SyncQueue<T>): (r: nat)
    ensures r == 0 <==> q.pending == []
  {
    |q.pending|
  }

  /** The loop of `execute` from the point where `done` tasks succeeded and
      `lastPct` was last reported: the tasks left and the events emitted. */
  function Run<T, E>(pending: seq<T>, done: nat, total: nat,
                     aborted: nat -> bool, outcome: T -> Option<E>, percent: (nat, nat) -> int,
                     lastPct: int): (r: (seq<T>, seq<SyncProgress<E>>))
    ensures forall i :: 0 <= i < |r.1| - 1 ==> r.1[i].state == Started
    ensures forall i :: 0 <= i < |r.1| ==> (r.1[i].state == Failed <==> r.1[i].error.Some?)
    decreases |pending|
  {
    if |pending| == 0 then ([], [])
    else if aborted(done) then (pending[1..], [])
    else if outcome(pending[0]).Some? then (pending[1..], [SyncProgress(lastPct, Failed, outcome(pending[0]))])
    else
      var pct := percent(done + 1, total);
      var (rest, events) := Run(pending[1..], done + 1, total, aborted, outcome, percent, pct);
      (rest, [SyncProgress(pct, Started, None)] + events)
  }

  /** `execute()`: runs the pending tasks; returns the queue afterwards and
      the progress events, in order. */
  function Execute<T, E>(q: SyncQueue<T>, aborted: nat -> bool, outcome: T -> Option<E>,
                         percent: (nat, nat) -> int): (r: (SyncQueue<T>, seq<SyncProgress<E>>))
    ensures r.0.total == q.total
    ensures |r.0.pending| <= |q.pending| && r.0.pending == q.pending[|q.pending| - |r.0.pending|..]
    ensures |r.1| <= |q.pending| - |r.0.pending|
  {
    var (rest, events) := Run(q.pending, 0, q.total, aborted, outcome, percent, 0);
    RunShape(q.pending, 0, q.total, aborted, outcome, percent, 0);
    (q.(pending := rest), events)
  }

  /** The run leaves a suffix of the pending tasks and emits at most one
      event per task it consumed. */
  lemma {:induction false} RunShape<T, E>(pending: seq<T>, done: nat, total: nat,
                                          aborted: nat -> bool, outcome: T -> Option<E>, percent: (nat, nat) -> int,
                                          lastPct: int)
    ensures var r := Run(pending, done, total, aborted, outcome, percent, lastPct);
            |r.0| <= |pending| && r.0 == pending[|pending| - |r.0|..] && |r.1| <= |pending| - |r.0|
    decreases |pending|
  {
    if |pending| > 0 && !aborted(done) && outcome(pending[0]).None? {
      RunShape(pending[1..], done + 1, total, aborted, outcome, percent, percent(done + 1, total));
    }
  }

  /** The first `j` tasks succeed without an abort. */
  predicate SucceedsUpTo<T, E>(pending: seq<T>, done: nat, j: nat, aborted: nat -> bool, outcome: T -> Option<E>)
    requires j <= |pending|
  {
    forall i :: 0 <= i < j ==> outcome(pending[i]).None? && !aborted(done + i)
  }

  /** The progress events for successes number `done + 1` to `done + j`. */
  function StartedEvents<E>(done: nat, j: nat, total: nat, percent: (nat, nat) -> int): (r: seq<SyncProgress<E>>)
    ensures |r| == j
    ensures forall i :: 0 <= i < j ==> r[i] == SyncProgress(percent(done + i + 1, total), Started, None)
  {
    seq(j, i requires 0 <= i < j => SyncProgress(percent(done + i + 1, total), Started, None))
  }

  /** One successful task: its event, then the rest of the run. */
  lemma RunStep<T, E>(pending: seq<T>, done: nat, total: nat,
                      aborted: nat -> bool, outcome: T -> Option<E>,
                      percent: (nat, nat) -> int, lastPct: int)
    requires |pending| > 0 && !aborted(done) && outcome(pending[0]).None?
    ensures var tail := Run(pending[1..], done + 1, total, aborted, outcome, percent, percent(done + 1, total));
            Run(pending, done, total, aborted, outcome, percent, lastPct) ==
              (tail.0, [SyncProgress(percent(done + 1, total), Started, None)] + tail.1)
  {
  }

  lemma StartedEventsCons<E>(done: nat, j: nat, total: nat, percent: (nat, nat) -> int)
    requires j > 0
    ensures StartedEvents<E>(done, j, total, percent) ==
              [SyncProgress(percent(done + 1, total), Started, None)] + StartedEvents<E>(done + 1, j - 1, total, percent)
  {
    var a := StartedEvents<E>(done, j, total, percent);
    var b := [SyncProgress(percent(done + 1, total), Started, None)] + StartedEvents<E>(done + 1, j - 1, total, percent);
    forall i | 0 <= i < j ensures a[i] == b[i] {
      if i > 0 {
        assert b[i] == StartedEvents<E>(done + 1, j - 1, total, percent)[i - 1];
        assert done + 1 + (i - 1) + 1 == done + i + 1;
      }
    }
  }

  lemma RunCongruent<T, E>(p1: seq<T>, p2: seq<T>, d1: nat, d2: nat, total: nat,
                           aborted: nat -> bool, outcome: T -> Option<E>, percent: (nat, nat) -> int)
    requires p1 == p2 && d1 == d2
    ensures Run(p1, d1, total, aborted, outcome, percent, percent(d1, total)) ==
            Run(p2, d2, total, aborted, outcome, percent, percent(d2, total))
  {
  }

  /** After `j` successful tasks, one STARTED event has been emitted for
      each of them, in order, and the loop carries on with the rest. */
  lemma {:induction false} RunSucceeds<T, E>(pending: seq<T>, done: nat, total: nat,
                                             aborted: nat -> bool, outcome: T -> Option<E>,
                                             percent: (nat, nat) -> int, lastPct: int, j: nat)
    requires 0 < j <= |pending| && SucceedsUpTo(pending, done, j, aborted, outcome)
    ensures var tail := Run(pending[j..], done + j, total, aborted, outcome, percent, percent(done + j, total));
            Run(pending, done, total, aborted, outcome, percent, lastPct) ==
              (tail.0, StartedEvents(done, j, total, percent) + tail.1)
    decreases j
  {
    assert 0 < j;
    assert outcome(pending[0]).None? && !aborted(done + 0);
    RunStep(pending, done, total, aborted, outcome, percent, lastPct);
    var first: SyncProgress<E> := SyncProgress(percent(done + 1, total), Started, None);
    if j > 1 {
      assert SucceedsUpTo(pending[1..], done + 1, j - 1, aborted, outcome) by {
        forall i | 0 <= i < j - 1 ensures !aborted(done + 1 + i) && outcome(pending[1..][i]).None? {
          var k := i + 1;
          assert 0 <= k < j;
          assert outcome(pending[k]).None? && !aborted(done + k);
          assert pending[1..][i] == pending[k];
          assert done + 1 + i == done + k;
        }
      }
      RunSucceeds(pending[1..], done + 1, total, aborted, outcome, percent, percent(done + 1, total), j - 1);
      RunSucceedsCombine(pending, done, total, aborted, outcome, percent, lastPct, j);
    } else {
      assert j == 1;
      StartedEventsCons<E>(done, 1, total, percent);
      assert StartedEvents<E>(done + 1, 0, total, percent) == [];
      assert [first] + [] == [first];
      assert pending[1..] == pending[j..];
      var tail := Run(pending[j..], done + j, total, aborted, outcome, percent, percent(done + j, total));
      assert Run(pending, done, total, aborted, outcome, percent, lastPct) == (tail.0, [first] + tail.1);
    }
  }

  lemma RunSucceedsCombine<T, E>(pending: seq<T>, done: nat, total: nat,
                                 aborted: nat -> bool, outcome: T -> Option<E>,
                                 percent: (nat, nat) -> int, lastPct: int, j: nat)
    requires 1 < j <= |pending| && outcome(pending[0]).None? && !aborted(done)
    requires var tail := Run(pending[1..][j - 1..], done + 1 + (j - 1), total, aborted, outcome, percent, percent(done + 1 + (j - 1), total));
             Run(pending[1..], done + 1, total, aborted, outcome, percent, percent(done + 1, total)) ==
               (tail.0, StartedEvents(done + 1, j - 1, total, percent) + tail.1)
    ensures var tail := Run(pending[j..], done + j, total, aborted, outcome, percent, percent(done + j, total));
            Run(pending, done, total, aborted, outcome, percent, lastPct) ==
              (tail.0, StartedEvents(done, j, total, percent) + tail.1)
  {
    RunStep(pending, done, total, aborted, outcome, percent, lastPct);
    var first: SyncProgress<E> := SyncProgress(percent(done + 1, total), Started, None);
    var p2 := pending[1..][j - 1..];
    var d2: nat := done + 1 + (j - 1);
    assert p2 == pending[j..];
    RunCongruent(p2, pending[j..], d2, done + j, total, aborted, outcome, percent);
    var tail := Run(pending[j..], done + j, total, aborted, outcome, percent, percent(done + j, total));
    var evs := StartedEvents<E>(done + 1, j - 1, total, percent);
    StartedEventsCons<E>(done, j, total, percent);
    assert [first] + (evs + tail.1) == ([first] + evs) + tail.1;
  }

  /** A run in which nothing aborts or fails empties the queue and reports
      the percentage after every task, as STARTED. */
  lemma ExecuteAllSucceed<T, E>(q: SyncQueue<T>, aborted: nat -> bool, outcome: T -> Option<E>, percent: (nat, nat) -> int)
    requires SucceedsUpTo(q.pending, 0, |q.pending|, aborted, outcome)
    ensures Size(Execute(q, aborted, outcome, percent).0) == 0
    ensures Execute(q, aborted, outcome, percent).1 == StartedEvents(0, |q.pending|, q.total, percent)
  {
    if |q.pending| > 0 {
      RunSucceeds(q.pending, 0, q.total, aborted, outcome, percent, 0, |q.pending|);
      assert q.pending[|q.pending|..] == [];
    }
  }

  /** One task added per `add` call and a full successful run: the queue is
      empty and the last event reports 100 percent, STARTED. */
  lemma ExecuteAllSucceedEndsAt100<T, E>(q: SyncQueue<T>, aborted: nat -> bool, outcome: T -> Option<E>, percent: (nat, nat) -> int)
    requires SucceedsUpTo(q.pending, 0, |q.pending|, aborted, outcome)
    requires 0 < |q.pending| == q.total && percent(q.total, q.total) == 100
    ensures Size(Execute(q, aborted, outcome, percent).0) == 0
    ensures var events := Execute(q, aborted, outcome, percent).1;
            |events| > 0 && events[|events| - 1] == SyncProgress(100, Started, None)
  {
    ExecuteAllSucceed(q, aborted, outcome, percent);
  }

  /** A task that throws after `j` successes produces exactly one FAILED
      event carrying its error, and the loop stops: the failed task is gone,
      the later ones stay pending. */
  lemma ExecuteFailStops<T, E>(q: SyncQueue<T>, aborted: nat -> bool, outcome: T -> Option<E>, percent: (nat, nat) -> int, j: nat)
    requires j < |q.pending| && SucceedsUpTo(q.pending, 0, j, aborted, outcome)
    requires !aborted(j) && outcome(q.pending[j]).Some?
    ensures Execute(q, aborted, outcome, percent).0.pending == q.pending[j + 1..]
    ensures Execute(q, aborted, outcome, percent).1 ==
              StartedEvents(0, j, q.total, percent) +
              [SyncProgress(if j == 0 then 0 else percent(j, q.total), Failed, outcome(q.pending[j]))]
  {
    if j > 0 {
      RunSucceeds(q.pending, 0, q.total, aborted, outcome, percent, 0, j);
      assert q.pending[j..][1..] == q.pending[j + 1..];
    }
  }

  /** An abort seen after `j` successes ends the run: the task just dequeued
      is dropped without running and without an event. */
  lemma ExecuteAbortDrops<T, E>(q: SyncQueue<T>, aborted: nat -> bool, outcome: T -> Option<E>, percent: (nat, nat) -> int, j: nat)
    requires j < |q.pending| && SucceedsUpTo(q.pending, 0, j, aborted, outcome)
    requires aborted(j)
    ensures Execute(q, aborted, outcome, percent).0.pending == q.pending[j + 1..]
    ensures Execute(q, aborted, outcome, percent).1 == StartedEvents(0, j, q.total, percent)
  {
    if j > 0 {
      RunSucceeds(q.pending, 0, q.total, aborted, outcome, percent, 0, j);
      assert q.pending[j..][1..] == q.pending[j + 1..];
    }
  }

  /** `add` with several tasks counts once: two tasks in one call leave a
      total of one, and two pending. */
  lemma AddCountsCalls<T>(a: T, b: T)
    ensures Add(NewSyncQueue(), [a, b]) == SyncQueue([a, b], 1)
  {
  }
}
