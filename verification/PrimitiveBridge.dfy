/** The COHERENT primitive bridge: a durable table of local executions and one shared step counter.
    Each SQL transaction is one function on `Store`, each method of the store class performs one of them, and
    each step of the bridge as a whole (HTTP threads, the single worker thread, process restarts) is one
    `Action`. An execution is identified by its exact invocation: the request digest is taken as injective. */
module PrimitiveBridge {

  datatype RowState = Accepted | Running | Completed | Failed | Cancelled {
    predicate Terminal() { Completed? || Failed? || Cancelled? }
  }

  /** The Mission (numbered in submission order), its Task and the dispatch attempt a request stands for. */
  datatype Invocation = Invocation(mission: nat, task: nat, attempt: nat)

  /** `guarded` marks an outcome recorded by the official-goal guard instead of an execution. */
  datatype Row = Row(state: RowState, guarded: bool)

  /** The two tables, and the SQL transactions on them. */
  datatype Store = Store(rows: map<Invocation, Row>, steps: nat) {

    function Admitted(i: Invocation): Store {
      if i in rows then this else this.(rows := rows[i := Row(Accepted, false)])
    }

    /** One guarded execution-only transition; it is refused when the row is not in the expected state. */
    function Moved(i: Invocation, expected: RowState, next: Row): Store {
      if i in rows && rows[i].state == expected then this.(rows := rows[i := next]) else this
    }

    predicate CanComplete(i: Invocation, expectedStep: nat) {
      i in rows && rows[i].state.Running? && steps == expectedStep
    }

    function WithCompleted(i: Invocation, expectedStep: nat): Store {
      if CanComplete(i, expectedStep) then Store(rows[i := Row(Completed, false)], expectedStep + 1) else this
    }

    function WithFailed(i: Invocation): Store {
      if i in rows && !rows[i].state.Terminal() then this.(rows := rows[i := Row(Failed, false)]) else this
    }

    /** Opening an existing database fails every execution the previous process left unfinished. */
    function Reopened(): Store {
      this.(rows := map i | i in rows :: if rows[i].state.Terminal() then rows[i] else Row(Failed, false))
    }
  }

  /** The durable store object; every method is one transaction. */
  class PrimitiveStore {
    var rows: map<Invocation, Row>
    var steps: nat

    function Contents(): Store
      reads this
    {
      Store(rows, steps)
    }

    constructor ()
      ensures Contents() == Store(map[], 0)
    {
      rows, steps := map[], 0;
    }

    constructor Open(previous: Store)
      ensures Contents() == previous.Reopened()
    {
      rows := map i | i in previous.rows ::
        if previous.rows[i].state.Terminal() then previous.rows[i] else Row(Failed, false);
      steps := previous.steps;
    }

    method CreateOrGet(i: Invocation) returns (row: Row, isNew: bool)
      modifies this
      ensures Contents() == old(Contents()).Admitted(i)
      ensures i in rows && row == rows[i] && isNew == (i !in old(rows))
    {
      isNew := i !in rows;
      if isNew {
        rows := rows[i := Row(Accepted, false)];
      }
      row := rows[i];
    }

    method Transition(i: Invocation, expected: RowState, next: Row) returns (ok: bool)
      modifies this
      ensures Contents() == old(Contents()).Moved(i, expected, next)
      ensures ok == (i in old(rows) && old(rows)[i].state == expected)
    {
      ok := i in rows && rows[i].state == expected;
      if ok {
        rows := rows[i := next];
      }
    }

    method Complete(i: Invocation, expectedStep: nat) returns (ok: bool)
      modifies this
      ensures Contents() == old(Contents()).WithCompleted(i, expectedStep)
      ensures ok == old(Contents()).CanComplete(i, expectedStep)
      ensures ok ==> steps == old(steps) + 1
    {
      ok := steps == expectedStep && i in rows && rows[i].state.Running?;
      if ok {
        steps := expectedStep + 1;
        rows := rows[i := Row(Completed, false)];
      }
    }

    /** Two transactions: read the state, then transition from the state that was read. */
    method Fail(i: Invocation)
      modifies this
      ensures Contents() == old(Contents()).WithFailed(i)
    {
      if i in rows && !rows[i].state.Terminal() {
        var ok := Transition(i, rows[i].state, Row(Failed, false));
      }
    }
  }

  // ----- The bridge as a whole -----

  /** The worker thread: idle, or executing one invocation against the step count it read. */
  datatype Worker = Idle | Executing(invocation: Invocation, stepRead: nat)

  datatype Bridge = Bridge(store: Store, worker: Worker)

  datatype Action =
    | Accept(invocation: Invocation)      // an HTTP thread admits a request
    | Take(invocation: Invocation)        // the worker dequeues it and reads the graph
    | GoalGuard                           // the goal already holds: cancel instead of executing
    | MarkRunning
    | Commit                              // graph, step count and terminal row in one transaction
    | Abort                               // any exception while executing
    | Cancel(invocation: Invocation)      // an HTTP thread cancels before execution
    | Restart                             // the process dies and the database is reopened

  predicate Enabled(b: Bridge, a: Action) {
    match a
    case Accept(_) => true
    case Take(i) => b.worker.Idle? && i in b.store.rows && b.store.rows[i].state.Accepted?
    case GoalGuard =>
      b.worker.Executing? && (b.worker.invocation in b.store.rows ==>
        !b.store.rows[b.worker.invocation].state.Running?)
    case MarkRunning => b.worker.Executing?
    case Commit => b.worker.Executing? && b.store.CanComplete(b.worker.invocation, b.worker.stepRead)
    case Abort => b.worker.Executing?
    case Cancel(_) => true
    case Restart => true
  }

  function Apply(b: Bridge, a: Action): Bridge
    requires Enabled(b, a)
  {
    match a
    case Accept(i) => b.(store := b.store.Admitted(i))
    case Take(i) => b.(worker := Executing(i, b.store.steps))
    case GoalGuard =>
      Bridge(b.store.Moved(b.worker.invocation, Accepted, Row(Cancelled, true)), Idle)
    case MarkRunning => b.(store := b.store.Moved(b.worker.invocation, Accepted, Row(Running, false)))
    case Commit => Bridge(b.store.WithCompleted(b.worker.invocation, b.worker.stepRead), Idle)
    case Abort => Bridge(b.store.WithFailed(b.worker.invocation), Idle)
    case Cancel(i) => b.(store := b.store.Moved(i, Accepted, Row(Cancelled, false)))
    case Restart => Bridge(b.store.Reopened(), Idle)
  }

  ghost function CompletedRows(s: Store): set<Invocation> {
    set i | i in s.rows && s.rows[i].state.Completed?
  }

  /** The step counter counts exactly the completed executions, and the worker's reading is current. */
  ghost predicate Consistent(b: Bridge) {
    && b.store.steps == |CompletedRows(b.store)|
    && (b.worker.Executing? ==> b.worker.invocation in b.store.rows && b.worker.stepRead == b.store.steps)
  }

  lemma ActionKeepsConsistent(b: Bridge, a: Action)
    requires Consistent(b) && Enabled(b, a)
    ensures Consistent(Apply(b, a))
  {
    if a.Commit? {
      CompletedGained(b.store, b.worker.invocation);
    } else {
      CompletedKept(b.store, Apply(b, a).store);
    }
  }

  lemma CompletedGained(s: Store, i: Invocation)
    requires s.CanComplete(i, s.steps)
    ensures |CompletedRows(s.WithCompleted(i, s.steps))| == |CompletedRows(s)| + 1
  {
    assert CompletedRows(s.WithCompleted(i, s.steps)) == CompletedRows(s) + {i};
  }

  lemma CompletedKept(s: Store, t: Store)
    requires forall i | i in s.rows && s.rows[i].state.Completed? :: i in t.rows && t.rows[i].state.Completed?
    requires forall i | i in t.rows && t.rows[i].state.Completed? :: i in s.rows && s.rows[i].state.Completed?
    ensures CompletedRows(t) == CompletedRows(s)
  {
  }

  /** Rows are never removed, and a terminal row never changes again. */
  ghost predicate Extends(s: Store, t: Store) {
    && s.steps <= t.steps
    && (forall i | i in s.rows :: i in t.rows && (s.rows[i].state.Terminal() ==> t.rows[i] == s.rows[i]))
  }

  lemma ActionExtends(b: Bridge, a: Action)
    requires Enabled(b, a)
    ensures Extends(b.store, Apply(b, a).store)
  {
  }

  // ----- Every run -----

  ghost predicate Run(bs: seq<Bridge>, acts: seq<Action>) {
    && |bs| == |acts| + 1
    && bs[0] == Bridge(Store(map[], 0), Idle)
    && (forall n | 0 <= n < |acts| :: Enabled(bs[n], acts[n]) && bs[n + 1] == Apply(bs[n], acts[n]))
  }

  /** In every run the step count is the number of completed executions; a running worker's commit is never
      refused for a changed graph. */
  lemma {:induction false} StepsCountCompletions(bs: seq<Bridge>, acts: seq<Action>, n: nat)
    requires Run(bs, acts) && n < |bs|
    ensures Consistent(bs[n])
    ensures bs[n].worker.Executing? && bs[n].store.rows[bs[n].worker.invocation].state.Running? ==>
              Enabled(bs[n], Commit)
  {
    if n == 0 {
      assert CompletedRows(bs[0].store) == {};
    } else {
      StepsCountCompletions(bs, acts, n - 1);
      ActionKeepsConsistent(bs[n - 1], acts[n - 1]);
    }
  }

  lemma {:induction false} TerminalRowsForever(bs: seq<Bridge>, acts: seq<Action>, m: nat, n: nat)
    requires Run(bs, acts) && m <= n < |bs|
    ensures Extends(bs[m].store, bs[n].store)
  {
    hide Apply;
    if m < n {
      TerminalRowsForever(bs, acts, m, n - 1);
      ActionExtends(bs[n - 1], acts[n - 1]);
    }
  }

  ghost predicate CommitsAt(bs: seq<Bridge>, acts: seq<Action>, n: nat, i: Invocation)
    requires |bs| == |acts| + 1
  {
    n < |acts| && acts[n].Commit? && bs[n].worker.Executing? && bs[n].worker.invocation == i
  }

  /** No execution is ever committed twice, across any interleaving and any number of restarts. */
  lemma CommitsAtMostOnce(bs: seq<Bridge>, acts: seq<Action>, m: nat, n: nat, i: Invocation)
    requires Run(bs, acts) && CommitsAt(bs, acts, m, i) && CommitsAt(bs, acts, n, i)
    ensures m == n
  {
    if m < n {
      TerminalRowsForever(bs, acts, m + 1, n);
    } else if n < m {
      TerminalRowsForever(bs, acts, n + 1, m);
    }
  }

  /** A row is RUNNING only while the worker is at it: no execution is left behind half done. */
  lemma {:induction false} RunningIsExecuting(bs: seq<Bridge>, acts: seq<Action>, n: nat, i: Invocation)
    requires Run(bs, acts) && n < |bs| && i in bs[n].store.rows && bs[n].store.rows[i].state.Running?
    ensures bs[n].worker.Executing? && bs[n].worker.invocation == i && !bs[n].store.rows[i].guarded
  {
    if i in bs[n - 1].store.rows && bs[n - 1].store.rows[i].state.Running? { RunningIsExecuting(bs, acts, n - 1, i); }
  }

  /** The worker is past an invocation: at it, or its row is not waiting any more. */
  ghost predicate Taken(b: Bridge, i: Invocation) {
    i in b.store.rows && ((b.worker.Executing? && b.worker.invocation == i) || !b.store.rows[i].state.Accepted?)
  }

  lemma StepKeepsTaken(b: Bridge, a: Action, i: Invocation)
    requires Enabled(b, a) && Taken(b, i)
    ensures Taken(Apply(b, a), i)
  {
  }

  lemma {:induction false} TakenStays(bs: seq<Bridge>, acts: seq<Action>, m: nat, n: nat, i: Invocation)
    requires Run(bs, acts) && m <= n < |bs| && Taken(bs[m], i)
    ensures Taken(bs[n], i)
  {
    hide Enabled, Apply, Taken;
    if m < n {
      TakenStays(bs, acts, m, n - 1, i);
      StepKeepsTaken(bs[n - 1], acts[n - 1], i);
    }
  }

  /** No invocation is ever started twice, whatever becomes of it the first time. */
  lemma TakenAtMostOnce(bs: seq<Bridge>, acts: seq<Action>, m: nat, n: nat, i: Invocation)
    requires Run(bs, acts) && m < |acts| && n < |acts| && acts[m] == Take(i) && acts[n] == Take(i)
    ensures m == n
  {
    if m < n {
      TakenStays(bs, acts, m + 1, n, i);
    } else if n < m {
      TakenStays(bs, acts, n + 1, m, i);
    }
  }

  // ----- How a row ends -----

  predicate Ended(s: Store, i: Invocation) { i in s.rows && s.rows[i].state.Terminal() }

  /** The step that ends a row, and what it writes: a commit completes it; the goal guard cancels it with its mark
      and a cancellation without, both only before it runs; an exception or a restart fails it. */
  ghost predicate EndsWith(b: Bridge, a: Action, i: Invocation, row: Row) {
    match a
    case Commit => b.worker.Executing? && b.worker.invocation == i && row == Row(Completed, false)
    case GoalGuard =>
      && b.worker.Executing? && b.worker.invocation == i && i in b.store.rows && b.store.rows[i].state.Accepted?
      && row == Row(Cancelled, true)
    case Cancel(j) => j == i && i in b.store.rows && b.store.rows[i].state.Accepted? && row == Row(Cancelled, false)
    case Abort => b.worker.Executing? && b.worker.invocation == i && row == Row(Failed, false)
    case Restart => row == Row(Failed, false)
    case _ => false
  }

  lemma StepEnds(b: Bridge, a: Action, i: Invocation)
    requires Enabled(b, a) && !Ended(b.store, i) && Ended(Apply(b, a).store, i)
    ensures EndsWith(b, a, i, Apply(b, a).store.rows[i])
  {
  }

  /** Every ended row was ended by one such step and has been as that step wrote it since. */
  lemma {:induction false} EndHistory(bs: seq<Bridge>, acts: seq<Action>, n: nat, i: Invocation) returns (k: nat)
    requires Run(bs, acts) && n < |bs| && Ended(bs[n].store, i)
    ensures k < n && !Ended(bs[k].store, i) && EndsWith(bs[k], acts[k], i, bs[n].store.rows[i])
  {
    hide Enabled, Apply, EndsWith;
    if Ended(bs[n - 1].store, i) {
      k := EndHistory(bs, acts, n - 1, i);
      ActionExtends(bs[n - 1], acts[n - 1]);
    } else {
      k := n - 1;
      StepEnds(bs[n - 1], acts[n - 1], i);
    }
  }

  /** The other way round: each of these steps ends the row of an execution in progress exactly so. */
  lemma EndsAsWritten(b: Bridge, a: Action, i: Invocation)
    requires Enabled(b, a) && i in b.store.rows && !Ended(b.store, i)
    ensures forall row :: EndsWith(b, a, i, row) ==> Apply(b, a).store.rows[i] == row
  {
  }
}
