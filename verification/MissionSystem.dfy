/** The segment runner, the Controller and the primitive bridge as one system of interleaved steps.
    The runner's decision and the bridge's transactions are those of `SegmentRunner` and `PrimitiveBridge`;
    the Controller is the environment, bound by two assumptions only: a Mission with a terminal status is not
    dispatched any further, and Completed is reported only once its local executions are all terminal. */
module MissionSystem {
  import opened PrimitiveBridge
  import SR = SegmentRunner
  import PA = PlanAdmission
  import opened Wrappers

  /** A Mission accepted by the Controller; `before` is the step count its admission was based on. */
  datatype Mission = Mission(tasks: nat, before: nat, status: SR.MissionStatus, concluded: Option<SR.Evidence>)

  datatype Runner =
    | Ready(segment: nat)
    | Planning(segment: nat, steps: nat)
    | Waiting(segment: nat, seen: SR.MissionStatus)
    | Stopped

  datatype System = System(bridge: Bridge, missions: seq<Mission>, runner: Runner)

  datatype Step =
    | Dispatch(invocation: Invocation)
    | BridgeStep(action: Action)
    | Report(mission: nat, status: SR.MissionStatus)
    | Begin(goal: bool)
    | PlanningFails
    | AdmissionFails
    | Submit(request: PA.Request, created: bool, accepted: bool)
    | Poll
    | Conclude(evidence: SR.Evidence)
    | Interrupt

  function View(r: Row): SR.LocalState {
    match r.state
    case Completed => SR.LocalCompleted
    case Failed => SR.LocalFailed
    case Cancelled => SR.LocalCancelled(r.guarded)
    case _ => SR.LocalOpen
  }

  /** `local` is a reading of the Mission's rows: every row shows up in it, and nothing else does. */
  ghost predicate ReadsRows(s: Store, m: nat, local: seq<SR.LocalState>) {
    && (forall i | i in s.rows && i.mission == m :: View(s.rows[i]) in local)
    && (forall x | x in local :: exists i :: i in s.rows && i.mission == m && View(s.rows[i]) == x)
  }

  ghost predicate HasRow(s: Store, m: nat, x: SR.LocalState) {
    exists i :: i in s.rows && i.mission == m && View(s.rows[i]) == x
  }

  lemma ReadIffRow(s: Store, m: nat, local: seq<SR.LocalState>, x: SR.LocalState)
    requires ReadsRows(s, m, local)
    ensures x in local <==> HasRow(s, m, x)
  {
  }

  /** So what the runner reads is what is there: the local evidence is terminal exactly when the Mission has rows
      and all are terminal, and it shows the goal guard exactly when the guard cancelled one of them. */
  lemma EvidenceIsTheRows(s: Store, m: nat, e: SR.Evidence)
    requires ReadsRows(s, m, e.local)
    ensures e.LocalTerminal() <==> (exists i :: i in s.rows && i.mission == m) && RowsTerminal(s, m)
    ensures e.Guarded() <==> exists i :: i in s.rows && i.mission == m && s.rows[i] == Row(Cancelled, true)
    ensures SR.LocalCompleted in e.local <==> exists i :: i in s.rows && i.mission == m && s.rows[i].state == Completed
    ensures SR.LocalFailed in e.local <==> exists i :: i in s.rows && i.mission == m && s.rows[i].state == Failed
  {
    hide ReadsRows;
    forall x: SR.LocalState ensures x in e.local <==> HasRow(s, m, x) { ReadIffRow(s, m, e.local, x); }
    assert e.LocalTerminal() <==> e.local != [] && SR.LocalOpen !in e.local;
    assert e.Guarded() <==> SR.LocalCancelled(true) in e.local;
    RowsSeen(s, m);
    forall i | i in s.rows && i.mission == m ensures View(s.rows[i]) in e.local {
      assert HasRow(s, m, View(s.rows[i]));
    }
    if e.local != [] { assert HasRow(s, m, e.local[0]); }
  }

  lemma RowsSeen(s: Store, m: nat)
    ensures HasRow(s, m, SR.LocalOpen) <==> !RowsTerminal(s, m)
    ensures HasRow(s, m, SR.LocalCancelled(true)) <==>
            exists i :: i in s.rows && i.mission == m && s.rows[i] == Row(Cancelled, true)
    ensures HasRow(s, m, SR.LocalCompleted) <==>
            exists i :: i in s.rows && i.mission == m && s.rows[i].state == Completed
    ensures HasRow(s, m, SR.LocalFailed) <==>
            exists i :: i in s.rows && i.mission == m && s.rows[i].state == Failed
  {
    if !RowsTerminal(s, m) {
      var i :| i in s.rows && i.mission == m && !s.rows[i].state.Terminal();
      assert View(s.rows[i]) == SR.LocalOpen;
    }
    if i :| i in s.rows && i.mission == m && s.rows[i] == Row(Cancelled, true) {
      assert View(s.rows[i]) == SR.LocalCancelled(true);
    }
    if i :| i in s.rows && i.mission == m && s.rows[i].state == Completed {
      assert View(s.rows[i]) == SR.LocalCompleted;
    }
    if i :| i in s.rows && i.mission == m && s.rows[i].state == Failed {
      assert View(s.rows[i]) == SR.LocalFailed;
    }
  }

  ghost predicate RowsTerminal(s: Store, m: nat) {
    forall i | i in s.rows && i.mission == m :: s.rows[i].state.Terminal()
  }

  ghost predicate Enabled(s: System, maxSteps: nat, step: Step) {
    match step
    case Dispatch(i) =>
      i.mission < |s.missions| && s.missions[i.mission].status.Unfinished? && i.task < s.missions[i.mission].tasks
    case BridgeStep(a) => !a.Accept? && PrimitiveBridge.Enabled(s.bridge, a)
    case Report(m, status) =>
      && m < |s.missions| && s.missions[m].status.Unfinished? && !status.Unfinished?
      && (status.Completed? ==> RowsTerminal(s.bridge.store, m))
    case Begin(_) => s.runner.Ready?
    case PlanningFails => s.runner.Planning?
    case AdmissionFails => s.runner.Planning?
    case Submit(request, created, accepted) =>
      && s.runner.Planning? && PA.Admissible(request) && request.remainingSteps == maxSteps - s.runner.steps
      && (accepted ==> created)
    case Poll => s.runner.Waiting? && s.missions != []
    case Conclude(e) =>
      && s.runner.Waiting? && s.missions != []
      && e.status == s.runner.seen && ReadsRows(s.bridge.store, |s.missions| - 1, e.local)
    case Interrupt => true
  }

  function Apply(s: System, maxSteps: nat, maxSegments: nat, step: Step): System
    requires Enabled(s, maxSteps, step)
  {
    match step
    case Dispatch(i) => s.(bridge := PrimitiveBridge.Apply(s.bridge, Accept(i)))
    case BridgeStep(a) => s.(bridge := PrimitiveBridge.Apply(s.bridge, a))
    case Report(m, status) => s.(missions := s.missions[m := s.missions[m].(status := status)])
    case Begin(goal) =>
      if s.runner.segment > maxSegments || s.bridge.store.steps >= maxSteps || goal then s.(runner := Stopped)
      else s.(runner := Planning(s.runner.segment, s.bridge.store.steps))
    case PlanningFails => s.(runner := Stopped)
    case AdmissionFails => s.(runner := Ready(s.runner.segment + 1))
    case Submit(request, created, accepted) =>
      var mission := Mission(|request.plan.tasks|, s.runner.steps, SR.Unfinished, None);
      var missions := if created then s.missions + [mission] else s.missions;
      System(s.bridge, missions, if accepted then Waiting(s.runner.segment, SR.Unfinished) else Stopped)
    case Poll => s.(runner := s.runner.(seen := s.missions[|s.missions| - 1].status))
    case Conclude(e) =>
      var last := |s.missions| - 1;
      System(s.bridge, s.missions[last := s.missions[last].(concluded := Some(e))],
             if SR.Decide(e).Replan? then Ready(s.runner.segment + 1) else Stopped)
    case Interrupt => s.(runner := Stopped)
  }

  // ----- The invariant -----

  ghost function CompletedOf(s: Store, m: nat): set<Invocation> {
    set i | i in s.rows && i.mission == m && s.rows[i].state.Completed?
  }

  /** Mission `m` is over on both sides: nothing of it can change or start any more. */
  ghost predicate Quiet(s: System, m: nat)
    requires m < |s.missions|
  {
    && !s.missions[m].status.Unfinished?
    && RowsTerminal(s.bridge.store, m)
  }

  /** The runner saw the end of Mission `m` and its evidence allowed another Mission. */
  ghost predicate Released(s: System, m: nat)
    requires m < |s.missions|
  {
    && s.missions[m].concluded.Some?
    && SR.SafelyOver(s.missions[m].concluded.value)
    && s.missions[m].concluded.value.status == s.missions[m].status
    && Quiet(s, m)
  }

  ghost predicate RowsBelong(s: System) {
    forall i | i in s.bridge.store.rows :: i.mission < |s.missions| && i.task < s.missions[i.mission].tasks
  }

  ghost predicate CompletedTerminal(s: System) {
    forall m | 0 <= m < |s.missions| && s.missions[m].status.Completed? :: RowsTerminal(s.bridge.store, m)
  }

  ghost predicate EarlierReleased(s: System) {
    forall m | 0 <= m < |s.missions| - 1 :: Released(s, m)
  }

  /** The steps taken since the last Mission was admitted are its own completed executions. */
  ghost predicate StepsAccounted(s: System, maxSteps: nat) {
    if s.missions == [] then s.bridge.store.steps == 0
    else
      var last := |s.missions| - 1;
      && s.missions[last].before + s.missions[last].tasks <= maxSteps
      && s.bridge.store.steps == s.missions[last].before + |CompletedOf(s.bridge.store, last)|
  }

  ghost predicate RunnerKnows(s: System) {
    match s.runner
    case Ready(_) => forall m | 0 <= m < |s.missions| :: Released(s, m)
    case Planning(_, steps) =>
      steps == s.bridge.store.steps && forall m | 0 <= m < |s.missions| :: Released(s, m)
    case Waiting(_, seen) =>
      s.missions != [] && (!seen.Unfinished? ==> seen == s.missions[|s.missions| - 1].status)
    case Stopped => true
  }

  ghost predicate Inv(s: System, maxSteps: nat) {
    && (s.bridge.worker.Executing? ==>
          s.bridge.worker.invocation in s.bridge.store.rows && s.bridge.worker.stepRead == s.bridge.store.steps)
    && RowsBelong(s)
    && CompletedTerminal(s)
    && EarlierReleased(s)
    && StepsAccounted(s, maxSteps)
    && RunnerKnows(s)
  }

  // ----- Every step keeps it -----

  /** Only the last Mission can still be moving, and never while the runner is planning. */
  lemma OnlyLastMoves(s: System, maxSteps: nat, m: nat)
    requires Inv(s, maxSteps) && m < |s.missions| && !Quiet(s, m)
    ensures m == |s.missions| - 1 && !s.runner.Ready? && !s.runner.Planning?
  {
    if m < |s.missions| - 1 || s.runner.Ready? || s.runner.Planning? { EarlierIsQuiet(s, maxSteps, m); }
  }

  lemma EarlierIsQuiet(s: System, maxSteps: nat, m: nat)
    requires Inv(s, maxSteps) && m < |s.missions|
    requires m < |s.missions| - 1 || s.runner.Ready? || s.runner.Planning?
    ensures Quiet(s, m)
  {
    assert Released(s, m);
  }

  /** What a bridge step other than an admission can do to the rows. */
  lemma BridgeStepRows(b: Bridge, a: Action)
    requires PrimitiveBridge.Enabled(b, a) && !a.Accept?
    ensures var t := PrimitiveBridge.Apply(b, a).store;
      && t.rows.Keys == b.store.rows.Keys
      && (forall i | i in b.store.rows && b.store.rows[i].state.Terminal() :: t.rows[i] == b.store.rows[i])
      && (!a.Commit? ==> t.steps == b.store.steps)
      && (a.Commit? ==>
            && b.worker.Executing? && t.steps == b.store.steps + 1 && b.worker.invocation in b.store.rows
            && b.store.rows[b.worker.invocation].state.Running?
            && t.rows == b.store.rows[b.worker.invocation := Row(Completed, false)])
      && (forall i | i in t.rows && t.rows[i].state.Completed? && !b.store.rows[i].state.Completed? ::
            a.Commit? && i == b.worker.invocation)
  {
  }

  lemma BridgeStepKeepsReleased(s: System, t: System, a: Action, m: nat)
    requires PrimitiveBridge.Enabled(s.bridge, a) && !a.Accept?
    requires t == s.(bridge := PrimitiveBridge.Apply(s.bridge, a)) && m < |s.missions| && Released(s, m)
    ensures Released(t, m)
  {
    BridgeStepRows(s.bridge, a);
  }

  lemma BridgeStepKeepsSteps(s: System, maxSteps: nat, t: System, a: Action)
    requires Inv(s, maxSteps) && PrimitiveBridge.Enabled(s.bridge, a) && !a.Accept?
    requires t == s.(bridge := PrimitiveBridge.Apply(s.bridge, a))
    ensures StepsAccounted(t, maxSteps) && (a.Commit? ==> !s.runner.Ready? && !s.runner.Planning?)
  {
    hide PrimitiveBridge.Apply, PrimitiveBridge.Enabled, RunnerKnows, EarlierReleased, CompletedTerminal;
    BridgeStepRows(s.bridge, a);
    if a.Commit? {
      var i := s.bridge.worker.invocation;
      assert !Quiet(s, i.mission) by { assert !s.bridge.store.rows[i].state.Terminal(); }
      OnlyLastMoves(s, maxSteps, i.mission);
      CompletedAfterCommit(s.bridge.store, t.bridge.store, i);
    } else if s.missions != [] {
      CompletedSame(s.bridge.store, t.bridge.store, |s.missions| - 1);
    }
  }

  lemma CompletedAfterCommit(s: Store, t: Store, i: Invocation)
    requires i in s.rows && s.rows[i].state.Running? && t.rows == s.rows[i := Row(Completed, false)]
    ensures |CompletedOf(t, i.mission)| == |CompletedOf(s, i.mission)| + 1
  {
    assert CompletedOf(t, i.mission) == CompletedOf(s, i.mission) + {i};
  }

  lemma CompletedSame(s: Store, t: Store, m: nat)
    requires t.rows.Keys == s.rows.Keys
    requires forall i | i in s.rows && s.rows[i].state.Terminal() :: t.rows[i] == s.rows[i]
    requires forall i | i in t.rows && t.rows[i].state.Completed? :: s.rows[i].state.Completed?
    ensures CompletedOf(t, m) == CompletedOf(s, m)
  {
  }

  lemma BridgeStepKeeps(s: System, maxSteps: nat, a: Action)
    requires Inv(s, maxSteps) && PrimitiveBridge.Enabled(s.bridge, a) && !a.Accept?
    ensures Inv(s.(bridge := PrimitiveBridge.Apply(s.bridge, a)), maxSteps)
  {
    hide PA.Admissible;
    var t := s.(bridge := PrimitiveBridge.Apply(s.bridge, a));
    BridgeStepRows(s.bridge, a);
    BridgeStepKeepsSteps(s, maxSteps, t, a);
    forall m | 0 <= m < |t.missions| && t.missions[m].status.Completed? ensures RowsTerminal(t.bridge.store, m) {
      assert RowsTerminal(s.bridge.store, m);
    }
    forall m: nat | m < |s.missions| && Released(s, m) ensures Released(t, m) {
      BridgeStepKeepsReleased(s, t, a, m);
    }
    assert t.bridge.worker.Executing? ==>
        t.bridge.worker.invocation in t.bridge.store.rows && t.bridge.worker.stepRead == t.bridge.store.steps;
  }

  lemma DispatchKeeps(s: System, maxSteps: nat, i: Invocation)
    requires Inv(s, maxSteps) && Enabled(s, maxSteps, Dispatch(i))
    ensures Inv(s.(bridge := PrimitiveBridge.Apply(s.bridge, Accept(i))), maxSteps)
  {
    hide PA.Admissible;
    var t := s.(bridge := PrimitiveBridge.Apply(s.bridge, Accept(i)));
    var last := |s.missions| - 1;
    OnlyLastMoves(s, maxSteps, i.mission);
    assert CompletedOf(t.bridge.store, last) == CompletedOf(s.bridge.store, last);
    forall m: nat | m < last ensures Released(t, m) { assert Released(s, m); }
  }

  lemma ReportKeeps(s: System, maxSteps: nat, maxSegments: nat, step: Step)
    requires step.Report? && Inv(s, maxSteps) && Enabled(s, maxSteps, step)
    ensures Inv(Apply(s, maxSteps, maxSegments, step), maxSteps)
  {
    hide PA.Admissible;
    var t := Apply(s, maxSteps, maxSegments, step);
    var last := |s.missions| - 1;
    OnlyLastMoves(s, maxSteps, step.mission);
    forall m: nat | m < last ensures Released(t, m) { assert Released(s, m); }
  }

  lemma SubmitKeeps(s: System, maxSteps: nat, maxSegments: nat, step: Step)
    requires step.Submit? && Inv(s, maxSteps) && Enabled(s, maxSteps, step)
    ensures Inv(Apply(s, maxSteps, maxSegments, step), maxSteps)
  {
    hide PA.Admissible;
    PA.AdmittedFits(step.request);
    var t := Apply(s, maxSteps, maxSegments, step);
    forall m: nat | m < |s.missions| ensures Released(t, m) { assert Released(s, m); }
    if step.created {
      assert CompletedOf(t.bridge.store, |s.missions|) == {};
    }
  }

  lemma ConcludeKeeps(s: System, maxSteps: nat, maxSegments: nat, step: Step)
    requires step.Conclude? && Inv(s, maxSteps) && Enabled(s, maxSteps, step)
    ensures Inv(Apply(s, maxSteps, maxSegments, step), maxSteps)
  {
    hide PA.Admissible;
    var t := Apply(s, maxSteps, maxSegments, step);
    var e, last := step.evidence, |s.missions| - 1;
    forall m: nat | m < last ensures Released(t, m) { assert Released(s, m); }
    if SR.Decide(e).Replan? {
      SR.ReplanIff(e);
      assert RowsTerminal(s.bridge.store, last) by {
        if e.status.Failed? {
          forall i | i in s.bridge.store.rows && i.mission == last ensures s.bridge.store.rows[i].state.Terminal() {
            assert View(s.bridge.store.rows[i]) in e.local;
          }
        }
      }
      assert Released(t, last);
    }
  }

  lemma StepKeepsInv(s: System, maxSteps: nat, maxSegments: nat, step: Step)
    requires Inv(s, maxSteps) && Enabled(s, maxSteps, step)
    ensures Inv(Apply(s, maxSteps, maxSegments, step), maxSteps)
  {
    hide PA.Admissible;
    hide PrimitiveBridge.Apply;
    match step
    case Dispatch(i) => DispatchKeeps(s, maxSteps, i);
    case BridgeStep(a) => BridgeStepKeeps(s, maxSteps, a);
    case Report(_, _) => ReportKeeps(s, maxSteps, maxSegments, step);
    case Submit(_, _, _) => SubmitKeeps(s, maxSteps, maxSegments, step);
    case Conclude(_) => ConcludeKeeps(s, maxSteps, maxSegments, step);
    case _ =>
      var t := Apply(s, maxSteps, maxSegments, step);
      forall m: nat | m < |s.missions| && Released(s, m) ensures Released(t, m) {
      }
  }

  // ----- Every run -----

  const START := System(Bridge(Store(map[], 0), Idle), [], Ready(1))

  ghost predicate Run(ss: seq<System>, steps: seq<Step>, maxSteps: nat, maxSegments: nat) {
    && |ss| == |steps| + 1 && ss[0] == START
    && (forall n | 0 <= n < |steps| ::
          Enabled(ss[n], maxSteps, steps[n]) && ss[n + 1] == Apply(ss[n], maxSteps, maxSegments, steps[n]))
  }

  lemma {:induction false} RunKeepsInv(ss: seq<System>, steps: seq<Step>, maxSteps: nat, maxSegments: nat, n: nat)
    requires Run(ss, steps, maxSteps, maxSegments) && n < |ss|
    ensures Inv(ss[n], maxSteps)
  {
    hide Apply, Enabled;
    if n > 0 {
      RunKeepsInv(ss, steps, maxSteps, maxSegments, n - 1);
      StepKeepsInv(ss[n - 1], maxSteps, maxSegments, steps[n - 1]);
    }
  }

  /** No overlap: at every moment of every run, unfinished local work belongs to one Mission, the last one
      submitted; every earlier one was seen to be over and is over, on both sides, for good. */
  lemma NoOverlappingMissions(ss: seq<System>, steps: seq<Step>, maxSteps: nat, maxSegments: nat, n: nat)
    requires Run(ss, steps, maxSteps, maxSegments) && n < |ss|
    ensures forall m | 0 <= m < |ss[n].missions| - 1 :: Released(ss[n], m)
    ensures forall i | i in ss[n].bridge.store.rows && !ss[n].bridge.store.rows[i].state.Terminal() ::
              i.mission == |ss[n].missions| - 1
  {
    RunKeepsInv(ss, steps, maxSteps, maxSegments, n);
    forall i | i in ss[n].bridge.store.rows && !ss[n].bridge.store.rows[i].state.Terminal()
      ensures i.mission == |ss[n].missions| - 1
    {
      OnlyLastMoves(ss[n], maxSteps, i.mission);
    }
  }

  // ----- The runner's own limits -----

  ghost predicate WithinSegments(s: System, maxSteps: nat, maxSegments: nat) {
    match s.runner
    case Ready(segment) => |s.missions| < segment <= maxSegments + 1
    case Planning(segment, steps) => |s.missions| < segment <= maxSegments && steps < maxSteps
    case Waiting(segment, _) => |s.missions| <= segment <= maxSegments
    case Stopped => |s.missions| <= maxSegments
  }

  lemma StepKeepsSegments(s: System, maxSteps: nat, maxSegments: nat, step: Step)
    requires WithinSegments(s, maxSteps, maxSegments) && Enabled(s, maxSteps, step)
    ensures WithinSegments(Apply(s, maxSteps, maxSegments, step), maxSteps, maxSegments)
  {
    hide PA.Admissible, PrimitiveBridge.Apply, SR.Decide;
  }

  /** At most one Mission per segment, no segment beyond the limit, and no planning once the budget is spent. */
  lemma {:induction false} RunStaysWithinSegments(
    ss: seq<System>, steps: seq<Step>, maxSteps: nat, maxSegments: nat, n: nat)
    requires Run(ss, steps, maxSteps, maxSegments) && n < |ss|
    ensures WithinSegments(ss[n], maxSteps, maxSegments) && |ss[n].missions| <= maxSegments
    ensures ss[n].runner.Planning? ==> ss[n].runner.steps < maxSteps
  {
    hide Apply, Enabled;
    if n > 0 {
      RunStaysWithinSegments(ss, steps, maxSteps, maxSegments, n - 1);
      StepKeepsSegments(ss[n - 1], maxSteps, maxSegments, steps[n - 1]);
    }
  }

  ghost function Begun(steps: seq<Step>, n: nat): nat
    requires n <= |steps|
  {
    if n == 0 then 0 else Begun(steps, n - 1) + if steps[n - 1].Begin? then 1 else 0
  }

  /** The segment number counts the segments begun, submitted or not, so the runner begins at most one more than
      the limit, the last one only to stop. */
  lemma {:induction false} SegmentsCountBegins(
    ss: seq<System>, steps: seq<Step>, maxSteps: nat, maxSegments: nat, n: nat)
    requires Run(ss, steps, maxSteps, maxSegments) && n < |ss|
    ensures match ss[n].runner
      case Ready(segment) => Begun(steps, n) == segment - 1
      case Planning(segment, _) => Begun(steps, n) == segment
      case Waiting(segment, _) => Begun(steps, n) == segment
      case Stopped => true
    ensures Begun(steps, n) <= maxSegments + 1
  {
    if n > 0 {
      hide PA.Admissible, PrimitiveBridge.Apply, SR.Decide, WithinSegments, ReadsRows;
      SegmentsCountBegins(ss, steps, maxSteps, maxSegments, n - 1);
      SegmentInRange(ss, steps, maxSteps, maxSegments, n - 1);
    }
  }

  lemma SegmentInRange(ss: seq<System>, steps: seq<Step>, maxSteps: nat, maxSegments: nat, n: nat)
    requires Run(ss, steps, maxSteps, maxSegments) && n < |ss|
    ensures ss[n].runner.Ready? ==> ss[n].runner.segment <= maxSegments + 1
  {
    hide Apply, Enabled;
    RunStaysWithinSegments(ss, steps, maxSteps, maxSegments, n);
  }

  /** What stops the runner: no segment or step left or the goal reached, a failed planning, a submission that is not
      accepted, evidence that does not allow another Mission, or an exception. A refused plan does not. */
  lemma StopsOnlyBy(s: System, maxSteps: nat, maxSegments: nat, step: Step)
    requires Enabled(s, maxSteps, step) && !s.runner.Stopped?
    ensures Apply(s, maxSteps, maxSegments, step).runner.Stopped? <==>
      match step
      case Begin(goal) => goal || s.runner.segment > maxSegments || s.bridge.store.steps >= maxSteps
      case PlanningFails => true
      case Submit(_, _, accepted) => !accepted
      case Conclude(e) => !SR.Decide(e).Replan?
      case Interrupt => true
      case _ => false
  {
    hide PA.Admissible, PrimitiveBridge.Apply, SR.Decide;
  }

  // ----- The primitive budget -----

  ghost function TasksOf(rows: set<Invocation>): set<nat> {
    set i | i in rows :: i.task
  }

  /** How many commits of a Mission repeat a Task that was already committed. */
  ghost function Recommits(s: Store, m: nat): int {
    |CompletedOf(s, m)| - |TasksOf(CompletedOf(s, m))|
  }

  lemma {:induction false} TasksFit(tasks: set<nat>, n: nat)
    requires forall t | t in tasks :: t < n
    ensures |tasks| <= n
  {
    if n > 0 {
      TasksFit(tasks - {n - 1}, n - 1);
    } else {
      assert tasks == {};
    }
  }

  lemma {:induction false} OneRowPerTask(rows: set<Invocation>)
    requires forall i, j | i in rows && j in rows && i.task == j.task :: i == j
    ensures |TasksOf(rows)| == |rows|
  {
    if rows != {} {
      var i :| i in rows;
      OneRowPerTask(rows - {i});
      assert TasksOf(rows) == TasksOf(rows - {i}) + {i.task};
    } else {
      assert TasksOf(rows) == {};
    }
  }

  lemma BudgetInState(s: System, maxSteps: nat)
    requires Inv(s, maxSteps) && s.missions != []
    ensures s.bridge.store.steps <= maxSteps + Recommits(s.bridge.store, |s.missions| - 1)
  {
    var last := |s.missions| - 1;
    TasksFit(TasksOf(CompletedOf(s.bridge.store, last)), s.missions[last].tasks);
  }

  /** The primitive budget over a whole run: across any number of segments, failed admissions, failed executions
      and replans the committed steps exceed the budget by no more than the repeated commits of the last Mission's
      Tasks. */
  lemma BudgetHolds(ss: seq<System>, steps: seq<Step>, groundTruth: nat, maxSegments: nat, n: nat)
    requires Run(ss, steps, 2 * groundTruth + 1, maxSegments) && n < |ss|
    ensures ss[n].missions == [] ==> ss[n].bridge.store.steps == 0
    ensures ss[n].missions != [] ==>
              ss[n].bridge.store.steps <= 2 * groundTruth + 1 + Recommits(ss[n].bridge.store, |ss[n].missions| - 1)
  {
    RunKeepsInv(ss, steps, 2 * groundTruth + 1, maxSegments, n);
    if ss[n].missions != [] { BudgetInState(ss[n], 2 * groundTruth + 1); }
  }

  /** No Task is committed twice, however often it is dispatched, fails or is cancelled. */
  ghost predicate OneCommitPerTask(s: Store) {
    forall i, j | i in s.rows && j in s.rows && s.rows[i].state.Completed? && s.rows[j].state.Completed?
                  && i.mission == j.mission && i.task == j.task :: i == j
  }

  /** With at most one committed primitive per admitted Task the budget is exact. */
  lemma BudgetHoldsExactly(ss: seq<System>, steps: seq<Step>, groundTruth: nat, maxSegments: nat, n: nat)
    requires Run(ss, steps, 2 * groundTruth + 1, maxSegments) && n < |ss|
    requires OneCommitPerTask(ss[n].bridge.store)
    ensures ss[n].bridge.store.steps <= 2 * groundTruth + 1
  {
    BudgetHolds(ss, steps, groundTruth, maxSegments, n);
    if ss[n].missions != [] { OneRowPerTask(CompletedOf(ss[n].bridge.store, |ss[n].missions| - 1)); }
  }

  // ----- Runs that attain the bound -----

  lemma Extended(ss: seq<System>, steps: seq<Step>, maxSteps: nat, maxSegments: nat, step: Step)
    returns (ss': seq<System>, steps': seq<Step>)
    requires Run(ss, steps, maxSteps, maxSegments) && Enabled(ss[|steps|], maxSteps, step)
    ensures Run(ss', steps', maxSteps, maxSegments)
    ensures ss'[|steps'|] == Apply(ss[|steps|], maxSteps, maxSegments, step)
  {
    hide Enabled, Apply;
    ss', steps' := ss + [Apply(ss[|steps|], maxSteps, maxSegments, step)], steps + [step];
  }

  /** A Mission of one Task is the last one and can be dispatched. */
  ghost predicate Open(s: System) {
    s.missions != [] && Last(s).status.Unfinished? && Last(s).tasks == 1 && s.bridge.worker.Idle?
  }

  ghost function Last(s: System): Mission
    requires s.missions != []
  {
    s.missions[|s.missions| - 1]
  }

  /** One more dispatch of its Task is executed and committed. */
  lemma Committed(ss: seq<System>, steps: seq<Step>, maxSteps: nat, maxSegments: nat, attempt: nat)
    returns (ss': seq<System>, steps': seq<Step>)
    requires Run(ss, steps, maxSteps, maxSegments) && Open(ss[|steps|])
    requires Invocation(|ss[|steps|].missions| - 1, 0, attempt) !in ss[|steps|].bridge.store.rows
    ensures Run(ss', steps', maxSteps, maxSegments)
    ensures var s, s' := ss[|steps|], ss'[|steps'|];
      && s'.missions == s.missions && s'.runner == s.runner && s'.bridge.worker.Idle?
      && s'.bridge.store.steps == s.bridge.store.steps + 1
      && s'.bridge.store.rows
           == s.bridge.store.rows[Invocation(|s.missions| - 1, 0, attempt) := Row(Completed, false)]
  {
    var i := Invocation(|ss[|steps|].missions| - 1, 0, attempt);
    hide Run, PA.Admissible;
    ss', steps' := Extended(ss, steps, maxSteps, maxSegments, Dispatch(i));
    ss', steps' := Extended(ss', steps', maxSteps, maxSegments, BridgeStep(Take(i)));
    ss', steps' := Extended(ss', steps', maxSteps, maxSegments, BridgeStep(MarkRunning));
    ss', steps' := Extended(ss', steps', maxSteps, maxSegments, BridgeStep(Commit));
  }

  /** Before segment `k + 1`, after `k` Missions that committed one step each. */
  ghost predicate Rested(s: System, k: nat) {
    && s.runner == Ready(k + 1) && |s.missions| == k && s.bridge.worker.Idle? && s.bridge.store.steps == k
    && (forall i | i in s.bridge.store.rows :: i.mission < k)
  }

  /** A plan of one Task is admitted and submitted. */
  lemma Submitted(ss: seq<System>, steps: seq<Step>, maxSteps: nat, maxSegments: nat, k: nat)
    returns (ss': seq<System>, steps': seq<Step>)
    requires Run(ss, steps, maxSteps, maxSegments) && Rested(ss[|steps|], k) && k < maxSteps && k < maxSegments
    ensures Run(ss', steps', maxSteps, maxSegments) && Open(ss'[|steps'|])
    ensures var s, s' := ss[|steps|], ss'[|steps'|];
      && s'.bridge == s.bridge && s'.missions == s.missions + [Mission(1, k, SR.Unfinished, None)]
      && s'.runner == Waiting(k + 1, SR.Unfinished)
  {
    hide Run, PA.Admissible, PA.ExampleTask;
    var request := PA.ExampleRequest("m", maxSteps - k, PA.Serial);
    PA.ExampleIsAdmissible("m", maxSteps - k, PA.Serial);
    ss', steps' := Extended(ss, steps, maxSteps, maxSegments, Begin(false));
    ss', steps' := Extended(ss', steps', maxSteps, maxSegments, Submit(request, true, true));
  }

  /** A Mission whose rows are all completed is reported, seen and concluded; the runner goes on. */
  lemma Concluded(ss: seq<System>, steps: seq<Step>, maxSteps: nat, maxSegments: nat)
    returns (ss': seq<System>, steps': seq<Step>)
    requires Run(ss, steps, maxSteps, maxSegments) && Open(ss[|steps|]) && ss[|steps|].runner.Waiting?
    requires var s := ss[|steps|];
      && (forall i | i in s.bridge.store.rows && i.mission == |s.missions| - 1 ::
            s.bridge.store.rows[i].state.Completed?)
      && exists i :: i in s.bridge.store.rows && i.mission == |s.missions| - 1
    ensures Run(ss', steps', maxSteps, maxSegments)
    ensures var s, s' := ss[|steps|], ss'[|steps'|];
      s'.bridge == s.bridge && |s'.missions| == |s.missions| && s'.runner == Ready(s.runner.segment + 1)
  {
    var m := |ss[|steps|].missions| - 1;
    hide Run, PA.Admissible;
    var e := SR.Evidence(SR.Completed, None, false, [SR.LocalCompleted], Some([SR.Completed]));
    assert SR.LocalCompleted in e.local;
    ss', steps' := Extended(ss, steps, maxSteps, maxSegments, Report(m, SR.Completed));
    ss', steps' := Extended(ss', steps', maxSteps, maxSegments, Poll);
    ss', steps' := Extended(ss', steps', maxSteps, maxSegments, Conclude(e));
  }

  /** Segment after segment, each spending one step of the budget. */
  lemma {:induction false} Spent(maxSteps: nat, maxSegments: nat, k: nat) returns (ss: seq<System>, steps: seq<Step>)
    requires k <= maxSteps && k <= maxSegments
    ensures Run(ss, steps, maxSteps, maxSegments) && Rested(ss[|steps|], k)
  {
    if k == 0 {
      ss, steps := [START], [];
    } else {
      hide Run;
      ss, steps := Spent(maxSteps, maxSegments, k - 1);
      ss, steps := Submitted(ss, steps, maxSteps, maxSegments, k - 1);
      ss, steps := Committed(ss, steps, maxSteps, maxSegments, 0);
      ss, steps := Concluded(ss, steps, maxSteps, maxSegments);
    }
  }

  /** The last Mission's one Task is committed `j` times. */
  lemma {:induction false} CommittedTimes(
    ss: seq<System>, steps: seq<Step>, maxSteps: nat, maxSegments: nat, j: nat)
    returns (ss': seq<System>, steps': seq<Step>)
    requires Run(ss, steps, maxSteps, maxSegments) && Open(ss[|steps|])
    requires forall i | i in ss[|steps|].bridge.store.rows :: i.mission < |ss[|steps|].missions| - 1
    ensures Run(ss', steps', maxSteps, maxSegments) && Open(ss'[|steps'|])
    ensures var s, s' := ss[|steps|], ss'[|steps'|];
      && s'.missions == s.missions && s'.bridge.store.steps == s.bridge.store.steps + j
      && (forall i | i in s'.bridge.store.rows :: i.mission < |s.missions| - 1 || i.attempt < j)
    decreases j
  {
    if j == 0 {
      ss', steps' := ss, steps;
    } else {
      hide Run;
      ss', steps' := CommittedTimes(ss, steps, maxSteps, maxSegments, j - 1);
      ss', steps' := Committed(ss', steps', maxSteps, maxSegments, j - 1);
    }
  }

  /** Of commits of a single Task all but the first are repeated. */
  lemma RecommitsOfOneTask(s: System, maxSteps: nat)
    requires Inv(s, maxSteps) && s.missions != [] && Last(s).tasks == 1 && s.bridge.store.steps > Last(s).before
    ensures Recommits(s.bridge.store, |s.missions| - 1) == s.bridge.store.steps - Last(s).before - 1
  {
    var commits := CompletedOf(s.bridge.store, |s.missions| - 1);
    assert commits != {};
    var i :| i in commits;
    assert forall c | c in commits :: c.task == 0;
    assert i.task in TasksOf(commits);
    assert TasksOf(commits) == {0};
  }

  /** Nothing limits a Controller that dispatches a committed Task again: for every budget and every excess there
      is a run that spends the budget over its segments and exceeds it by exactly that many repeated commits, so
      the bound is attained. */
  lemma BudgetAttained(groundTruth: nat, excess: nat) returns (ss: seq<System>, steps: seq<Step>)
    ensures var budget := 2 * groundTruth + 1;
      && Run(ss, steps, budget, budget) && ss[|steps|].missions != []
      && ss[|steps|].bridge.store.steps == budget + excess
      && Recommits(ss[|steps|].bridge.store, |ss[|steps|].missions| - 1) == excess
  {
    var budget := 2 * groundTruth + 1;
    ss, steps := Spent(budget, budget, budget - 1);
    ss, steps := Submitted(ss, steps, budget, budget, budget - 1);
    ss, steps := CommittedTimes(ss, steps, budget, budget, excess + 1);
    RunKeepsInv(ss, steps, budget, budget, |steps|);
    RecommitsOfOneTask(ss[|steps|], budget);
  }
}
