/** The Robonix adapter's durable execution handles: admission, worker, cancellation and restart.
    `Table` is the executions table with its unique index; each transaction is a function on it and a method
    of `ExecutionStore`. `System` adds what is lost on a restart (threads and the worker pool) and, as history,
    what the proofs speak about: local invocations, fence readings and SQL failures. The SHA-256 request key is
    taken as injective, so a request stands for its own key. */
module ExecutionStore {
  import opened Wrappers

  datatype Operation = BuildMap | PublishMap | ImportMap | VerifyLocalization

  datatype Request = Request(operation: Operation, artifactPath: string, invocation: string)

  type Handle = nat

  datatype State = ACCEPTED | RUNNING | COMPLETED | FAILED | CANCELLED {
    predicate Terminal() { COMPLETED? || FAILED? || CANCELLED? }

    function Rank(): nat { if ACCEPTED? then 0 else if RUNNING? then 1 else 2 }
  }

  datatype Row = Row(request: Request, state: State, detail: string, cancelRequested: bool)

  function Name(operation: Operation): string {
    match operation
    case BuildMap => "build-map"
    case PublishMap => "publish-map"
    case ImportMap => "import-map"
    case VerifyLocalization => "verify-localization"
  }

  const CANCEL_DETAIL := "cancellation requested; awaiting actual local outcome"

  function Clip(detail: string): string {
    if |detail| <= 2000 then detail else detail[..2000]
  }

  // ----- The transactions -----

  /** Rows by execution handle (primary key) and handles by request key (unique index). */
  datatype Table = Table(rows: map<Handle, Row>, index: map<Request, Handle>) {

    ghost predicate Valid() {
      && (forall r | r in index :: index[r] in rows && rows[index[r]].request == r)
      && (forall h | h in rows :: rows[h].request in index && index[rows[h].request] == h)
    }

    /** Insert unless the key is already known; a colliding handle violates the primary key. */
    function Created(request: Request, drawn: Handle): Table {
      if request in index || drawn in rows then this
      else Table(rows[drawn := Row(request, ACCEPTED, "accepted by local Robonix adapter", false)],
                 index[request := drawn])
    }

    function Updated(h: Handle, state: State, detail: string): Table {
      if h in rows && !rows[h].state.Terminal()
      then this.(rows := rows[h := rows[h].(state := state, detail := Clip(detail))])
      else this
    }

    function CancelNoted(h: Handle): Table {
      if h in rows && !rows[h].state.Terminal()
      then this.(rows := rows[h := rows[h].(cancelRequested := true, detail := CANCEL_DETAIL)])
      else this
    }
  }

  class ExecutionStore {
    var rows: map<Handle, Row>
    var index: map<Request, Handle>

    function Contents(): Table
      reads this
    {
      Table(rows, index)
    }

    constructor ()
      ensures Contents() == Table(map[], map[]) && Contents().Valid()
    {
      rows, index := map[], map[];
    }

    /** None when the freshly drawn handle is already taken; otherwise the one handle of this request. */
    method CreateOrGet(request: Request, drawn: Handle) returns (r: Option<(Handle, bool)>)
      requires Contents().Valid()
      modifies this
      ensures Contents() == old(Contents()).Created(request, drawn) && Contents().Valid()
      ensures r.None? <==> request !in old(index) && drawn in old(rows)
      ensures r.Some? ==>
        && request in index && index[request] == r.value.0 && r.value.0 in rows
        && rows[r.value.0].request == request && r.value.1 == (request !in old(index))
    {
      if request in index {
        return Some((index[request], false));
      }
      if drawn in rows {
        return None;
      }
      rows := rows[drawn := Row(request, ACCEPTED, "accepted by local Robonix adapter", false)];
      index := index[request := drawn];
      return Some((drawn, true));
    }

    method Get(h: Handle) returns (row: Option<Row>)
      ensures row == if h in rows then Some(rows[h]) else None
    {
      row := if h in rows then Some(rows[h]) else None;
    }

    method Update(h: Handle, state: State, detail: string)
      requires Contents().Valid()
      modifies this
      ensures Contents() == old(Contents()).Updated(h, state, detail) && Contents().Valid()
    {
      if h in rows && !rows[h].state.Terminal() {
        rows := rows[h := rows[h].(state := state, detail := Clip(detail))];
      }
    }

    method RequestCancel(h: Handle) returns (row: Option<Row>)
      requires Contents().Valid()
      modifies this
      ensures Contents() == old(Contents()).CancelNoted(h) && Contents().Valid()
      ensures row == if h in rows then Some(rows[h]) else None
      ensures h in old(rows) ==> h in rows && rows[h].state == old(rows)[h].state
    {
      if h !in rows {
        return None;
      }
      if !rows[h].state.Terminal() {
        rows := rows[h := rows[h].(cancelRequested := true, detail := CANCEL_DETAIL)];
      }
      row := Some(rows[h]);
    }
  }

  // ----- The adapter process -----

  /** Where a pool worker stands in its run of one execution. */
  datatype Pc = Queued | Fencing | Cancelling | Invoking | Returned(ok: bool, detail: string) | Failing(detail: string)

  datatype System = System(
    table: Table,
    admitted: set<Handle>, workers: map<Handle, Pc>,
    calls: multiset<Handle>, fenced: map<Handle, bool>, faulted: set<Handle>)

  datatype Action =
    | Submit(request: Request, drawn: Handle)
    | Enqueue(h: Handle)
    | Start(h: Handle)
    | Fence(h: Handle)
    | WriteCancelled(h: Handle)
    | Invoke(h: Handle, ok: bool, detail: string)
    | WriteOutcome(h: Handle)
    | SqlFault(h: Handle)
    | Status(h: Handle)
    | CancelRequest(h: Handle)
    | Restart

  predicate At(s: System, h: Handle, pc: Pc) {
    h in s.workers && s.workers[h] == pc
  }

  predicate Enabled(s: System, a: Action) {
    match a
    case Enqueue(h) => h in s.admitted
    case Start(h) => At(s, h, Queued) && h in s.table.rows
    case Fence(h) => At(s, h, Fencing) && h in s.table.rows
    case WriteCancelled(h) => At(s, h, Cancelling)
    case Invoke(h, _, _) => At(s, h, Invoking)
    case WriteOutcome(h) => h in s.workers && (s.workers[h].Returned? || s.workers[h].Failing?)
    case SqlFault(h) => h in s.workers
    case _ => true
  }

  /** What a raised SQL error does to a worker: inside its `try` it turns to recording a failure; before the
      `try`, and while recording a failure, the worker dies. */
  function AfterFault(workers: map<Handle, Pc>, h: Handle): map<Handle, Pc>
    requires h in workers
  {
    var pc := workers[h];
    if pc.Fencing? || pc.Cancelling? || pc.Invoking? || (pc.Returned? && pc.ok)
    then workers[h := Failing("unexpected adapter failure")]
    else workers - {h}
  }

  function Apply(s: System, a: Action): System
    requires Enabled(s, a)
  {
    match a
    case Submit(request, drawn) =>
      var isNew := request !in s.table.index && drawn !in s.table.rows;
      s.(table := s.table.Created(request, drawn), admitted := if isNew then s.admitted + {drawn} else s.admitted)
    case Enqueue(h) => s.(admitted := s.admitted - {h}, workers := s.workers[h := Queued])
    case Start(h) =>
      s.(table := s.table.Updated(h, RUNNING, "running " + Name(s.table.rows[h].request.operation)),
         workers := s.workers[h := Fencing])
    case Fence(h) =>
      var seen := s.table.rows[h].cancelRequested;
      s.(workers := s.workers[h := if seen then Cancelling else Invoking], fenced := s.fenced[h := seen])
    case WriteCancelled(h) =>
      s.(table := s.table.Updated(h, CANCELLED, "cancelled before invoking local work"), workers := s.workers - {h})
    case Invoke(h, ok, detail) =>
      s.(workers := s.workers[h := Returned(ok, detail)], calls := s.calls + multiset{h})
    case WriteOutcome(h) =>
      var state := if s.workers[h].Returned? && s.workers[h].ok then COMPLETED else FAILED;
      s.(table := s.table.Updated(h, state, s.workers[h].detail), workers := s.workers - {h})
    case SqlFault(h) => s.(workers := AfterFault(s.workers, h), faulted := s.faulted + {h})
    case Status(_) => s
    case CancelRequest(h) => s.(table := s.table.CancelNoted(h))
    case Restart => s.(admitted := {}, workers := map[])
  }

  // ----- The invariant -----

  /** What is known about one execution: its row, its worker and its history. */
  ghost predicate ExecutionOk(s: System, h: Handle)
    requires h in s.table.rows
  {
    var state := s.table.rows[h].state;
    && s.calls[h] <= 1
    && (h in s.admitted ==> state.ACCEPTED? && h !in s.workers)
    && (h in s.workers ==> (state.ACCEPTED? <==> s.workers[h].Queued?) && !state.Terminal())
    && (state.ACCEPTED? ==> h !in s.fenced && s.calls[h] == 0)
    && (state.CANCELLED? ==> h in s.fenced && s.fenced[h] && s.calls[h] == 0)
    && (state.COMPLETED? ==> h in s.fenced && !s.fenced[h] && s.calls[h] == 1)
    && (state.FAILED? && h !in s.faulted ==> h in s.fenced && !s.fenced[h] && s.calls[h] == 1)
    && (s.calls[h] == 1 ==> h in s.fenced && !s.fenced[h])
    && (h in s.workers ==> WorkerOk(s, h))
  }

  ghost predicate WorkerOk(s: System, h: Handle)
    requires h in s.workers
  {
    match s.workers[h]
    case Queued => true
    case Fencing => h !in s.fenced && s.calls[h] == 0
    case Cancelling => h in s.fenced && s.fenced[h] && s.calls[h] == 0
    case Invoking => h in s.fenced && !s.fenced[h] && s.calls[h] == 0
    case Returned(_, _) => s.calls[h] == 1
    case Failing(_) => h in s.faulted
  }

  ghost predicate Inv(s: System) {
    && s.table.Valid()
    && s.admitted <= s.table.rows.Keys && s.workers.Keys <= s.table.rows.Keys && s.fenced.Keys <= s.table.rows.Keys
    && (forall h | h in s.calls :: h in s.table.rows)
    && (forall h | h in s.table.rows :: ExecutionOk(s, h))
  }

  /** Rows are never removed; a row keeps its request, only moves forward, and is frozen once terminal. */
  ghost predicate Follows(s: Table, t: Table) {
    && (forall r | r in s.index :: r in t.index && t.index[r] == s.index[r])
    && (forall h | h in s.rows ::
          && h in t.rows && t.rows[h].request == s.rows[h].request
          && s.rows[h].state.Rank() <= t.rows[h].state.Rank()
          && (s.rows[h].cancelRequested ==> t.rows[h].cancelRequested)
          && (s.rows[h].state.Terminal() ==> t.rows[h] == s.rows[h]))
  }

  lemma CreatedFollows(t: Table, request: Request, drawn: Handle)
    requires t.Valid()
    ensures t.Created(request, drawn).Valid() && Follows(t, t.Created(request, drawn))
  {
  }

  lemma UpdatedFollows(t: Table, h: Handle, state: State, detail: string)
    requires t.Valid() && (h in t.rows ==> t.rows[h].state.Rank() <= state.Rank())
    ensures t.Updated(h, state, detail).Valid() && Follows(t, t.Updated(h, state, detail))
  {
  }

  lemma CancelNotedFollows(t: Table, h: Handle)
    requires t.Valid()
    ensures t.CancelNoted(h).Valid() && Follows(t, t.CancelNoted(h))
  {
  }

  lemma ActionKeepsTable(s: System, a: Action)
    requires Inv(s) && Enabled(s, a)
    ensures Apply(s, a).table.Valid() && Follows(s.table, Apply(s, a).table)
  {
    hide ExecutionOk, Follows, Table.Valid, Table.Updated, Table.Created, Table.CancelNoted;
    match a
    case Submit(request, drawn) => CreatedFollows(s.table, request, drawn);
    case Start(h) =>
      QueuedIsAccepted(s, h);
      UpdatedFollows(s.table, h, RUNNING, "running " + Name(s.table.rows[h].request.operation));
    case WriteCancelled(h) => UpdatedFollows(s.table, h, CANCELLED, "cancelled before invoking local work");
    case WriteOutcome(h) =>
      var state := if s.workers[h].Returned? && s.workers[h].ok then COMPLETED else FAILED;
      UpdatedFollows(s.table, h, state, s.workers[h].detail);
    case CancelRequest(h) => CancelNotedFollows(s.table, h);
    case _ => SameFollows(s.table);
  }

  lemma SameFollows(t: Table)
    ensures Follows(t, t)
  {
  }

  lemma QueuedIsAccepted(s: System, h: Handle)
    requires Inv(s) && At(s, h, Queued)
    ensures h in s.table.rows && s.table.rows[h].state.ACCEPTED?
  {
    assert ExecutionOk(s, h);
  }

  /** Nothing about this execution changed except its detail and flag, or its threads being lost. */
  ghost predicate Untouched(s: System, t: System, h: Handle) {
    && h in s.table.rows && h in t.table.rows && t.table.rows[h].state == s.table.rows[h].state
    && t.calls[h] == s.calls[h]
    && (h in t.admitted ==> h in s.admitted)
    && (h in t.workers ==> h in s.workers && t.workers[h] == s.workers[h])
    && (h in s.fenced <==> h in t.fenced) && (h in s.fenced ==> t.fenced[h] == s.fenced[h])
    && (h in s.faulted <==> h in t.faulted)
  }

  lemma UntouchedOk(s: System, t: System, h: Handle)
    requires Untouched(s, t, h) && ExecutionOk(s, h)
    ensures ExecutionOk(t, h)
  {
  }

  predicate Concerns(a: Action, h: Handle) {
    match a
    case Submit(_, drawn) => h == drawn
    case Status(_) => false
    case CancelRequest(_) => false
    case Restart => false
    case _ => h == a.h
  }

  lemma OthersUntouched(s: System, a: Action, h: Handle)
    requires Enabled(s, a) && h in s.table.rows && (!Concerns(a, h) || a.Submit?)
    ensures Untouched(s, Apply(s, a), h)
  {
  }

  lemma NewExecutionOk(s: System, a: Action, h: Handle)
    requires Inv(s) && Enabled(s, a) && h !in s.table.rows && h in Apply(s, a).table.rows
    ensures ExecutionOk(Apply(s, a), h)
  {
    assert h !in s.calls;
  }

  lemma BeginOk(s: System, a: Action)
    requires Inv(s) && Enabled(s, a) && (a.Enqueue? || a.Start? || a.Fence? || a.Invoke?)
    ensures a.h in Apply(s, a).table.rows && ExecutionOk(Apply(s, a), a.h)
  {
    assert ExecutionOk(s, a.h);
  }

  lemma EndOk(s: System, a: Action)
    requires Inv(s) && Enabled(s, a) && (a.WriteCancelled? || a.WriteOutcome? || a.SqlFault?)
    ensures a.h in Apply(s, a).table.rows && ExecutionOk(Apply(s, a), a.h)
  {
    assert ExecutionOk(s, a.h);
  }

  lemma ActionKeepsExecution(s: System, a: Action, h: Handle)
    requires Inv(s) && Enabled(s, a) && h in Apply(s, a).table.rows
    ensures ExecutionOk(Apply(s, a), h)
  {
    hide Apply, ExecutionOk, Untouched;
    if h !in s.table.rows {
      NewExecutionOk(s, a, h);
    } else if !Concerns(a, h) || a.Submit? {
      OthersUntouched(s, a, h);
      UntouchedOk(s, Apply(s, a), h);
    } else if a.Enqueue? || a.Start? || a.Fence? || a.Invoke? {
      BeginOk(s, a);
    } else {
      EndOk(s, a);
    }
  }

  lemma ActionKeepsKeys(s: System, a: Action)
    requires Enabled(s, a)
    requires s.admitted <= s.table.rows.Keys && s.workers.Keys <= s.table.rows.Keys
    requires s.fenced.Keys <= s.table.rows.Keys && forall h | h in s.calls :: h in s.table.rows
    ensures var t := Apply(s, a);
      && t.admitted <= t.table.rows.Keys && t.workers.Keys <= t.table.rows.Keys
      && t.fenced.Keys <= t.table.rows.Keys && (forall h | h in t.calls :: h in t.table.rows)
  {
  }

  lemma ActionKeepsInv(s: System, a: Action)
    requires Inv(s) && Enabled(s, a)
    ensures Inv(Apply(s, a))
  {
    hide ExecutionOk, Follows, Apply;
    ActionKeepsTable(s, a);
    ActionKeepsKeys(s, a);
    var t := Apply(s, a);
    forall h | h in t.table.rows ensures ExecutionOk(t, h) { ActionKeepsExecution(s, a, h); }
  }

  // ----- Every run -----

  const START := System(Table(map[], map[]), {}, map[], multiset{}, map[], {})

  ghost predicate Run(ss: seq<System>, acts: seq<Action>) {
    && |ss| == |acts| + 1 && ss[0] == START
    && (forall n | 0 <= n < |acts| :: Enabled(ss[n], acts[n]) && ss[n + 1] == Apply(ss[n], acts[n]))
  }

  lemma {:induction false} RunKeepsInv(ss: seq<System>, acts: seq<Action>, n: nat)
    requires Run(ss, acts) && n < |ss|
    ensures Inv(ss[n])
  {
    hide Apply, Enabled, ExecutionOk;
    if n > 0 {
      RunKeepsInv(ss, acts, n - 1);
      ActionKeepsInv(ss[n - 1], acts[n - 1]);
    }
  }

  /** Between any two moments of any run, handles stay with their requests, states only move forward, and a
      terminal row's state, detail and flag never change again. */
  lemma {:induction false} RowsOnlyMoveForward(ss: seq<System>, acts: seq<Action>, m: nat, n: nat)
    requires Run(ss, acts) && m <= n < |ss|
    ensures Follows(ss[m].table, ss[n].table)
  {
    hide Apply, Enabled, Inv;
    if m < n {
      RowsOnlyMoveForward(ss, acts, m, n - 1);
      RunKeepsInv(ss, acts, n - 1);
      ActionKeepsTable(ss[n - 1], acts[n - 1]);
    }
  }

  /** At most once: in every run, restarts included, a request has one handle for good and its local operation
      is invoked at most once. */
  lemma AtMostOnce(ss: seq<System>, acts: seq<Action>, m: nat, n: nat, h: Handle, k: Handle)
    requires Run(ss, acts) && m <= n < |ss| && h in ss[m].table.rows && k in ss[n].table.rows
    requires ss[m].table.rows[h].request == ss[n].table.rows[k].request
    ensures h == k && ss[n].calls[k] <= 1
  {
    RunKeepsInv(ss, acts, m);
    RunKeepsInv(ss, acts, n);
    RowsOnlyMoveForward(ss, acts, m, n);
    assert ExecutionOk(ss[n], k);
  }

  // ----- The cancellation fence -----

  /** The cancellation was recorded: the request reached a row that was not terminal yet. */
  ghost predicate CancelRecorded(ss: seq<System>, acts: seq<Action>, i: nat, h: Handle)
    requires |ss| == |acts| + 1
  {
    i < |acts| && acts[i] == CancelRequest(h) && h in ss[i].table.rows && !ss[i].table.rows[h].state.Terminal()
  }

  ghost predicate CancelledBefore(ss: seq<System>, acts: seq<Action>, j: nat, h: Handle)
    requires |ss| == |acts| + 1
  {
    exists i :: 0 <= i < j && CancelRecorded(ss, acts, i, h)
  }

  // ----- The outcome of the operation -----

  ghost predicate InvokedAt(acts: seq<Action>, i: nat, h: Handle) {
    i < |acts| && acts[i].Invoke? && acts[i].h == h
  }

  lemma StepCounts(s: System, a: Action, h: Handle)
    requires Enabled(s, a)
    ensures Apply(s, a).calls[h] == s.calls[h] + if a.Invoke? && a.h == h then 1 else 0
    ensures h in s.faulted ==> h in Apply(s, a).faulted
    ensures h in Apply(s, a).faulted && h !in s.faulted ==> a == SqlFault(h)
  {
  }

  lemma {:induction false} CallsAfter(ss: seq<System>, acts: seq<Action>, i: nat, n: nat, h: Handle)
    requires Run(ss, acts) && i < n < |ss| && InvokedAt(acts, i, h)
    ensures ss[n].calls[h] >= 1
    decreases n
  {
    hide Enabled, Apply;
    StepCounts(ss[n - 1], acts[n - 1], h);
    if i < n - 1 { CallsAfter(ss, acts, i, n - 1, h); }
  }

  /** The operation of an execution is invoked at one moment only. */
  lemma InvokedOnce(ss: seq<System>, acts: seq<Action>, i: nat, j: nat, h: Handle)
    requires Run(ss, acts) && InvokedAt(acts, i, h) && InvokedAt(acts, j, h)
    ensures i == j
  {
    if i != j {
      var lo, hi := if i < j then i else j, if i < j then j else i;
      CallsAfter(ss, acts, lo, hi, h);
      RunKeepsInv(ss, acts, hi);
      InvokingWasNotCalled(ss[hi], acts[hi]);
    }
  }

  lemma InvokingWasNotCalled(s: System, a: Action)
    requires Inv(s) && Enabled(s, a) && a.Invoke?
    ensures s.calls[a.h] == 0
  {
    assert ExecutionOk(s, a.h);
  }

  /** What a worker holds after the operation is what the operation returned. */
  lemma {:induction false} ReturnedHistory(ss: seq<System>, acts: seq<Action>, n: nat, h: Handle) returns (j: nat)
    requires Run(ss, acts) && n < |ss| && h in ss[n].workers && ss[n].workers[h].Returned?
    ensures j < n && acts[j] == Invoke(h, ss[n].workers[h].ok, ss[n].workers[h].detail)
  {
    hide Enabled, Apply;
    StepReturns(ss[n - 1], acts[n - 1], h);
    if acts[n - 1].Invoke? && acts[n - 1].h == h {
      j := n - 1;
    } else {
      j := ReturnedHistory(ss, acts, n - 1, h);
    }
  }

  lemma StepReturns(s: System, a: Action, h: Handle)
    requires Enabled(s, a) && h in Apply(s, a).workers && Apply(s, a).workers[h].Returned?
    ensures var pc := Apply(s, a).workers[h];
      if a.Invoke? && a.h == h then a == Invoke(h, pc.ok, pc.detail) else h in s.workers && s.workers[h] == pc
  {
  }

  /** The step that ends an execution. */
  lemma StepEnds(s: System, a: Action, h: Handle)
    requires Inv(s) && Enabled(s, a) && h in Apply(s, a).table.rows && Apply(s, a).table.rows[h].state.Terminal()
    requires !(h in s.table.rows && s.table.rows[h].state.Terminal())
    ensures a == WriteCancelled(h) || a == WriteOutcome(h)
  {
    hide Inv;
    if h !in s.table.rows {
      NewIsAccepted(s, a, h);
    } else if !Concerns(a, h) || a.Submit? {
      OthersUntouched(s, a, h);
    }
  }

  lemma NewIsAccepted(s: System, a: Action, h: Handle)
    requires Enabled(s, a) && h !in s.table.rows && h in Apply(s, a).table.rows
    ensures Apply(s, a).table.rows[h].state.ACCEPTED?
  {
  }

  /** What that step writes. */
  lemma EndIsWritten(s: System, h: Handle)
    requires Inv(s)
    ensures Enabled(s, WriteCancelled(h)) ==> var t := Apply(s, WriteCancelled(h)).table;
      h in t.rows && t.rows[h].state.CANCELLED?
    ensures Enabled(s, WriteOutcome(h)) ==> var row := Apply(s, WriteOutcome(h)).table.rows;
      && h in row
      && if s.workers[h].Returned? then
           && row[h].state == (if s.workers[h].ok then COMPLETED else FAILED)
           && row[h].detail == Clip(s.workers[h].detail)
         else row[h].state.FAILED? && h in s.faulted
  {
    if h in s.workers { assert ExecutionOk(s, h); }
  }

  /** The end itself: the worker writes what its operation returned. */
  lemma EndHistory(ss: seq<System>, acts: seq<Action>, n: nat, h: Handle) returns (j: nat)
    requires Run(ss, acts) && 0 < n < |ss| && h in ss[n].table.rows && h !in ss[n - 1].faulted
    requires ss[n].table.rows[h].state.Terminal() && !ss[n].table.rows[h].state.CANCELLED?
    requires !(h in ss[n - 1].table.rows && ss[n - 1].table.rows[h].state.Terminal())
    ensures j < n && InvokedAt(acts, j, h) && ss[n].table.rows[h].detail == Clip(acts[j].detail)
    ensures ss[n].table.rows[h].state == if acts[j].ok then COMPLETED else FAILED
  {
    hide Enabled, Apply, Inv;
    RunKeepsInv(ss, acts, n - 1);
    StepEnds(ss[n - 1], acts[n - 1], h);
    EndIsWritten(ss[n - 1], h);
    assert acts[n - 1] == WriteOutcome(h);
    WriterIsWorker(ss[n - 1], h);
    j := ReturnedHistory(ss, acts, n - 1, h);
  }

  lemma WriterIsWorker(s: System, h: Handle)
    requires Enabled(s, WriteOutcome(h))
    ensures h in s.workers
  {
  }

  /** An execution without SQL failures that ended, and was not cancelled, reports the outcome of its one invocation:
      COMPLETED exactly when the operation succeeded, FAILED exactly when it raised, with the first 2000 characters of
      what it said. */
  lemma {:induction false} OutcomeIsTheOperations(ss: seq<System>, acts: seq<Action>, n: nat, h: Handle)
    returns (j: nat)
    requires Run(ss, acts) && n < |ss| && h in ss[n].table.rows && h !in ss[n].faulted
    requires ss[n].table.rows[h].state.Terminal() && !ss[n].table.rows[h].state.CANCELLED?
    ensures j < n && InvokedAt(acts, j, h) && forall i: nat | InvokedAt(acts, i, h) :: i == j
    ensures ss[n].table.rows[h].state.COMPLETED? <==> acts[j].ok
    ensures ss[n].table.rows[h].state.FAILED? <==> !acts[j].ok
    ensures var said := acts[j].detail; ss[n].table.rows[h].detail == if |said| <= 2000 then said else said[..2000]
    decreases n
  {
    hide Enabled, Apply, Inv;
    StepCounts(ss[n - 1], acts[n - 1], h);
    if h in ss[n - 1].table.rows && ss[n - 1].table.rows[h].state.Terminal() {
      RowsOnlyMoveForward(ss, acts, n - 1, n);
      j := OutcomeIsTheOperations(ss, acts, n - 1, h);
    } else {
      j := EndHistory(ss, acts, n, h);
    }
    forall i: nat | InvokedAt(acts, i, h) ensures i == j { InvokedOnce(ss, acts, i, j, h); }
  }

  /** An execution that met an SQL failure while its worker ran never ends COMPLETED. */
  ghost predicate FaultedOk(s: System, h: Handle) {
    h in s.faulted ==>
      && h in s.table.rows && !s.table.rows[h].state.COMPLETED? && h !in s.admitted
      && (h in s.workers ==> s.workers[h].Failing?)
  }

  lemma StepKeepsFaulted(s: System, a: Action, h: Handle)
    requires Inv(s) && FaultedOk(s, h) && Enabled(s, a)
    ensures FaultedOk(Apply(s, a), h)
  {
    hide Inv;
    if h in s.table.rows && (!Concerns(a, h) || a.Submit?) {
      OthersUntouched(s, a, h);
    } else if h in s.table.rows {
      OwnStepKeepsFaulted(s, a);
    } else {
      NewIsNotFaulted(s, a, h);
    }
  }

  lemma OwnStepKeepsFaulted(s: System, a: Action)
    requires Inv(s) && Enabled(s, a) && (a.Enqueue? || a.Start? || a.Fence? || a.WriteCancelled? || a.Invoke?
                                         || a.WriteOutcome? || a.SqlFault?)
    requires a.h in s.table.rows && FaultedOk(s, a.h)
    ensures FaultedOk(Apply(s, a), a.h)
  {
    assert ExecutionOk(s, a.h);
    hide Inv;
  }

  lemma NewIsNotFaulted(s: System, a: Action, h: Handle)
    requires Inv(s) && Enabled(s, a) && h !in s.table.rows && FaultedOk(s, h)
    ensures h !in Apply(s, a).faulted
  {
  }

  lemma {:induction false} FaultedNeverCompletes(ss: seq<System>, acts: seq<Action>, n: nat, h: Handle)
    requires Run(ss, acts) && n < |ss|
    ensures FaultedOk(ss[n], h)
    ensures h in ss[n].faulted ==> h in ss[n].table.rows && !ss[n].table.rows[h].state.COMPLETED?
  {
    if n > 0 {
      hide Enabled, Apply, Inv;
      FaultedNeverCompletes(ss, acts, n - 1, h);
      RunKeepsInv(ss, acts, n - 1);
      StepKeepsFaulted(ss[n - 1], acts[n - 1], h);
    }
  }

  /** What an execution says of itself until it ends: that it was accepted, which operation runs, or that a
      cancellation waits for the actual outcome. */
  lemma DetailsUntilTheEnd(s: System, a: Action, h: Handle)
    requires Enabled(s, a) && h in Apply(s, a).table.rows
    requires h !in s.table.rows || !s.table.rows[h].state.Terminal()
    ensures var row := Apply(s, a).table.rows[h];
      && (h !in s.table.rows ==> row.state.ACCEPTED? && row.detail == "accepted by local Robonix adapter")
      && (a == Start(h) ==> row.state.RUNNING? && row.detail == Clip("running " + Name(row.request.operation)))
      && (a == CancelRequest(h) && h in s.table.rows ==>
            && row.cancelRequested && row.state == s.table.rows[h].state
            && row.detail == "cancellation requested; awaiting actual local outcome")
  {
  }

  // ----- What a restart leaves behind -----

  /** An unfinished execution that no thread of the process knows any more. */
  ghost predicate Abandoned(s: System, h: Handle) {
    h in s.table.rows && !s.table.rows[h].state.Terminal() && h !in s.admitted && h !in s.workers
  }

  /** A restart abandons exactly the unfinished executions. */
  lemma RestartAbandons(s: System, h: Handle)
    ensures Abandoned(Apply(s, Restart), h) <==> h in s.table.rows && !s.table.rows[h].state.Terminal()
  {
  }

  /** What an SQL failure does to a running execution: while it checks the fence, cancels, works or reports
      success, its worker goes on to record a failure; before that, and while it records a failure already, the
      worker is lost and the execution abandoned. */
  lemma FaultFailsOrAbandons(s: System, h: Handle)
    requires Inv(s) && h in s.workers
    ensures var pc, t := s.workers[h], Apply(s, SqlFault(h));
      if pc.Queued? || pc.Failing? || (pc.Returned? && !pc.ok) then Abandoned(t, h)
      else Enabled(t, WriteOutcome(h)) && Apply(t, WriteOutcome(h)).table.rows[h].state.FAILED?
  {
    assert ExecutionOk(s, h);
    hide Inv;
  }

  lemma StepKeepsAbandoned(s: System, a: Action, h: Handle)
    requires Abandoned(s, h) && Enabled(s, a)
    ensures var t := Apply(s, a);
      Abandoned(t, h) && t.table.rows[h].state == s.table.rows[h].state && t.calls[h] == s.calls[h]
  {
  }

  /** Nothing ever runs an abandoned execution again: it keeps its state and its number of invocations for good,
      and its request keeps its handle. */
  lemma {:induction false} AbandonedForever(ss: seq<System>, acts: seq<Action>, m: nat, n: nat, h: Handle)
    requires Run(ss, acts) && m <= n < |ss| && Abandoned(ss[m], h)
    ensures Abandoned(ss[n], h) && ss[n].table.rows[h].state == ss[m].table.rows[h].state
    ensures ss[n].calls[h] == ss[m].calls[h] && ss[n].table.rows[h].request == ss[m].table.rows[h].request
    decreases n
  {
    hide Enabled, Apply;
    RowsOnlyMoveForward(ss, acts, m, n);
    if m < n {
      AbandonedForever(ss, acts, m, n - 1, h);
      StepKeepsAbandoned(ss[n - 1], acts[n - 1], h);
    }
  }

  /** The step loses an unfinished execution: the process restarts, or an SQL failure kills its worker, which
      happens before it is under way or while it records a failure. */
  ghost predicate Loses(s: System, a: Action, h: Handle) {
    && h in s.table.rows && !s.table.rows[h].state.Terminal()
    && (|| a.Restart?
        || (&& a == SqlFault(h) && h in s.workers
            && var pc := s.workers[h]; pc.Queued? || pc.Failing? || (pc.Returned? && !pc.ok)))
  }

  lemma StepAbandons(s: System, a: Action, h: Handle)
    requires Enabled(s, a) && !Abandoned(s, h) && Abandoned(Apply(s, a), h)
    ensures Loses(s, a, h)
  {
  }

  lemma LossAbandons(s: System, a: Action, h: Handle)
    requires Inv(s) && Enabled(s, a) && Loses(s, a, h)
    ensures Abandoned(Apply(s, a), h)
  {
    if a.Restart? { RestartAbandons(s, h); } else { FaultFailsOrAbandons(s, h); }
  }

  ghost predicate Lost(ss: seq<System>, acts: seq<Action>, n: nat, h: Handle)
    requires n <= |acts| && |ss| == |acts| + 1
  {
    exists k :: 0 <= k < n && Loses(ss[k], acts[k], h)
  }

  /** In every run the unfinished executions that nobody works on any more are exactly the lost ones; every other
      one is still to be queued, or has its worker. */
  lemma {:induction false} AbandonedIffLost(ss: seq<System>, acts: seq<Action>, n: nat, h: Handle)
    requires Run(ss, acts) && n < |ss|
    ensures Abandoned(ss[n], h) <==> Lost(ss, acts, n, h)
  {
    hide Apply, Enabled, Inv, Loses, Abandoned;
    if n == 0 {
      assert !Abandoned(ss[0], h) by { NothingAtStart(h); }
    } else {
      AbandonedIffLost(ss, acts, n - 1, h);
      RunKeepsInv(ss, acts, n - 1);
      var s, a := ss[n - 1], acts[n - 1];
      if Abandoned(s, h) { StepKeepsAbandoned(s, a, h); }
      if Loses(s, a, h) { LossAbandons(s, a, h); }
      if !Abandoned(s, h) && Abandoned(ss[n], h) { StepAbandons(s, a, h); }
      LostNext(ss, acts, n, h);
    }
  }

  lemma NothingAtStart(h: Handle)
    ensures !Abandoned(START, h)
  {
  }

  lemma LostNext(ss: seq<System>, acts: seq<Action>, n: nat, h: Handle)
    requires 0 < n <= |acts| && |ss| == |acts| + 1
    ensures Lost(ss, acts, n, h) <==> Lost(ss, acts, n - 1, h) || Loses(ss[n - 1], acts[n - 1], h)
  {
    hide Loses;
  }

  /** The durable flag says exactly whether a cancellation was recorded so far. */
  lemma {:induction false} FlagIsHistory(ss: seq<System>, acts: seq<Action>, n: nat, h: Handle)
    requires Run(ss, acts) && n < |ss|
    ensures (h in ss[n].table.rows && ss[n].table.rows[h].cancelRequested) <==> CancelledBefore(ss, acts, n, h)
  {
    if n > 0 {
      FlagIsHistory(ss, acts, n - 1, h);
      FlagStep(ss, acts, n - 1, h);
    }
  }

  lemma FlagAfter(s: System, a: Action, h: Handle)
    requires Enabled(s, a)
    ensures var t := Apply(s, a);
      (h in t.table.rows && t.table.rows[h].cancelRequested) <==>
        || (h in s.table.rows && s.table.rows[h].cancelRequested)
        || (a == CancelRequest(h) && h in s.table.rows && !s.table.rows[h].state.Terminal())
  {
  }

  lemma FlagStep(ss: seq<System>, acts: seq<Action>, n: nat, h: Handle)
    requires Run(ss, acts) && n < |acts|
    requires (h in ss[n].table.rows && ss[n].table.rows[h].cancelRequested) <==> CancelledBefore(ss, acts, n, h)
    ensures (h in ss[n + 1].table.rows && ss[n + 1].table.rows[h].cancelRequested)
            <==> CancelledBefore(ss, acts, n + 1, h)
  {
    hide Apply, Enabled;
    FlagAfter(ss[n], acts[n], h);
    CancelledBeforeNext(ss, acts, n, h);
  }

  lemma CancelledBeforeNext(ss: seq<System>, acts: seq<Action>, n: nat, h: Handle)
    requires |ss| == |acts| + 1 && n < |acts|
    ensures CancelledBefore(ss, acts, n + 1, h) <==> CancelledBefore(ss, acts, n, h) || CancelRecorded(ss, acts, n, h)
  {
    if CancelledBefore(ss, acts, n, h) {
      var i :| 0 <= i < n && CancelRecorded(ss, acts, i, h);
    }
    if CancelledBefore(ss, acts, n + 1, h) {
      var i :| 0 <= i < n + 1 && CancelRecorded(ss, acts, i, h);
      assert i < n || i == n;
    }
  }

  ghost predicate FencedAt(acts: seq<Action>, j: nat, h: Handle) {
    j < |acts| && acts[j] == Fence(h)
  }

  /** The recorded reading belongs to the one fence of this execution. */
  lemma {:induction false} FenceIsHistory(ss: seq<System>, acts: seq<Action>, n: nat, h: Handle) returns (j: nat)
    requires Run(ss, acts) && n < |ss| && h in ss[n].fenced
    ensures j < n && FencedAt(acts, j, h) && (ss[n].fenced[h] <==> CancelledBefore(ss, acts, j, h))
    ensures forall i: nat | i < n && FencedAt(acts, i, h) :: i == j
  {
    hide Apply;
    FencedStep(ss[n - 1], acts[n - 1], h);
    if acts[n - 1] == Fence(h) {
      j := n - 1;
      FlagIsHistory(ss, acts, j, h);
      RunKeepsInv(ss, acts, j);
      assert ExecutionOk(ss[j], h);
      NoFenceYet(ss, acts, j, h);
    } else {
      j := FenceIsHistory(ss, acts, n - 1, h);
    }
  }

  lemma FencedStep(s: System, a: Action, h: Handle)
    requires Enabled(s, a)
    ensures var t := Apply(s, a);
      if a == Fence(h) then h in t.fenced && h in s.table.rows && t.fenced[h] == s.table.rows[h].cancelRequested
      else (h in t.fenced <==> h in s.fenced) && (h in s.fenced ==> t.fenced[h] == s.fenced[h])
  {
  }

  lemma {:induction false} NoFenceYet(ss: seq<System>, acts: seq<Action>, n: nat, h: Handle)
    requires Run(ss, acts) && n < |ss| && h !in ss[n].fenced
    ensures forall i: nat | i < n :: !FencedAt(acts, i, h)
  {
    hide Apply;
    if n > 0 {
      FencedStep(ss[n - 1], acts[n - 1], h);
      NoFenceYet(ss, acts, n - 1, h);
    }
  }

  /** The fence: in every run without SQL failures on it, an execution whose worker ran to its end is CANCELLED
      exactly when its cancellation was recorded before the fence was read; then the local operation was never
      invoked, and otherwise it was invoked exactly once. */
  lemma CancelledIffRecordedBeforeFence(ss: seq<System>, acts: seq<Action>, n: nat, h: Handle) returns (j: nat)
    requires Run(ss, acts) && n < |ss| && h in ss[n].table.rows
    requires ss[n].table.rows[h].state.Terminal() && h !in ss[n].faulted
    ensures j < n && FencedAt(acts, j, h) && forall i: nat | i < n && FencedAt(acts, i, h) :: i == j
    ensures ss[n].table.rows[h].state.CANCELLED? <==> CancelledBefore(ss, acts, j, h)
    ensures ss[n].calls[h] == if ss[n].table.rows[h].state.CANCELLED? then 0 else 1
  {
    RunKeepsInv(ss, acts, n);
    assert ExecutionOk(ss[n], h);
    j := FenceIsHistory(ss, acts, n, h);
  }

  /** With or without SQL failures: CANCELLED means recorded in time and never invoked; a cancellation recorded
      only after the fence can no longer end CANCELLED. */
  lemma LateCancelNeverCancels(ss: seq<System>, acts: seq<Action>, j: nat, n: nat, h: Handle)
    requires Run(ss, acts) && j < n < |ss| && FencedAt(acts, j, h) && h in ss[n].table.rows
    ensures ss[n].table.rows[h].state.CANCELLED? ==> CancelledBefore(ss, acts, j, h) && ss[n].calls[h] == 0
  {
    RunKeepsInv(ss, acts, n);
    assert ExecutionOk(ss[n], h);
    if ss[n].table.rows[h].state.CANCELLED? {
      var i := FenceIsHistory(ss, acts, n, h);
    }
  }
}
