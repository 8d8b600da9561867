/** The fault injector of `tools/e2-recovery`: concurrent proxy observers race to trigger one injection, one
    injector thread reports its milestones on a timeline, and a verdict is derived from the persisted timeline. */
module FaultTimeline {
  import opened Wrappers

  datatype Milestone =
    | FaultTriggered | LocalHandleConfirmed | PrimaryCrashSent | PrimaryExited | RecoveryRequired
    | RecoveryAuthorized | SameOwnerRestarted | SameOwnerRegistered | RebindCompleted

  /** What a milestone event records besides its name, as far as the verdict or the recovery depends on it. */
  datatype Detail =
    | Plain
    | Trigger(request: nat, agent: int)
    | Authorization(execution: nat, httpStatus: int)
    | Rebind(original: nat, replacement: nat)

  datatype Event = Reached(milestone: Milestone, detail: Detail) | InjectionFailed | Other

  /** The milestones before the registration, in the order the injector emits them. */
  const BEFORE_REGISTRATION: seq<Milestone> :=
    [FaultTriggered, LocalHandleConfirmed, PrimaryCrashSent, PrimaryExited, RecoveryRequired, RecoveryAuthorized,
     SameOwnerRestarted]

  /** The fixed order; the registration can be repeated, see `Register`. */
  ghost function Registered(times: nat): (r: seq<Milestone>)
    ensures |r| == 7 + times && r[..7] == BEFORE_REGISTRATION
    ensures forall k | 7 <= k < |r| :: r[k] == SameOwnerRegistered
  {
    BEFORE_REGISTRATION + seq(times, _ => SameOwnerRegistered)
  }

  ghost function Order(registrations: nat): seq<Milestone> { Registered(registrations) + [RebindCompleted] }

  ghost function Milestones(timeline: seq<Event>): seq<Milestone> {
    if timeline == [] then []
    else
      var e := timeline[|timeline| - 1];
      Milestones(timeline[..|timeline| - 1]) + if e.Reached? then [e.milestone] else []
  }

  // ----- The two lock sections of an observer -----

  class FaultGate {
    var requestCount: nat
    var started: bool

    constructor ()
      ensures requestCount == 0 && !started
    {
      requestCount, started := 0, false;
    }

    method CountRequest() returns (number: nat)
      modifies this
      ensures requestCount == old(requestCount) + 1 == number && started == old(started)
    {
      requestCount := requestCount + 1;
      number := requestCount;
    }

    /** Only the first claim succeeds. */
    method Claim() returns (won: bool)
      modifies this
      ensures started && won == !old(started) && requestCount == old(requestCount)
    {
      if started {
        return false;
      }
      started := true;
      won := true;
    }
  }

  // ----- The system -----

  /** When to inject: at the first request of one agent, or at the request after a number of completed steps. */
  datatype Target = Agent(id: int) | AfterSteps(steps: nat) | Never

  predicate Matches(target: Target, request: nat, agent: int) {
    match target
    case Agent(id) => agent == id
    case AfterSteps(steps) => request == steps + 1
    case Never => false
  }

  /** An observer of an accepted request: counted; owner of the injection; done announcing it. */
  datatype Observer = Counted(request: nat, agent: int) | Claimed(request: nat, agent: int) | Announced

  /** The injector: not started; about to emit milestone number `next` for the Controller execution it confirmed;
      about to emit its failure; finished or dead. */
  datatype Injector = NotStarted | Working(next: nat, execution: nat) | Failing | Ended

  datatype State = State(
    target: Target,
    requests: nat,
    started: bool,
    observers: map<nat, Observer>,
    injector: Injector,
    timeline: seq<Event>,
    saved: seq<Event>)

  /** Each `kept` says whether the write of the timeline file succeeds; the event is appended either way. */
  datatype Action =
    | Count(thread: nat, agent: int)
    | Drop(thread: nat)                  // invalid request, not the target, or an exception in the observer
    | Claim(thread: nat)                 // the second lock section
    | Announce(thread: nat, kept: bool)  // emits fault_triggered
    | Spawn(thread: nat)                 // starts the injector thread
    | Confirm(execution: nat, kept: bool)
    | Advance(kept: bool)                // crash sent, exited, recovery required, node restarted
    | Authorize(httpStatus: int, kept: bool)
    | Register(kept: bool)
    | Rebound(replacement: nat, kept: bool)
    | Error                              // an exception the injector handles
    | Die                                // one it does not handle
    | ReportFailure(kept: bool)
    | Note(kept: bool)                   // every other event of the runtime

  predicate Enabled(s: State, a: Action) {
    match a
    case Count(t, _) => t !in s.observers
    case Drop(t) => t in s.observers
    case Claim(t) =>
      && t in s.observers && s.observers[t].Counted?
      && Matches(s.target, s.observers[t].request, s.observers[t].agent)
    case Announce(t, _) => t in s.observers && s.observers[t].Claimed?
    case Spawn(t) => t in s.observers && s.observers[t].Announced?
    case Confirm(_, _) => s.injector.Working? && s.injector.next == 1
    case Advance(_) => s.injector.Working? && s.injector.next in {2, 3, 4, 6}
    case Authorize(_, _) => s.injector.Working? && s.injector.next == 5
    case Register(_) => s.injector.Working? && s.injector.next == 7
    case Rebound(replacement, _) =>
      s.injector.Working? && s.injector.next == 8 && replacement != s.injector.execution
    case Error => s.injector.Working?
    case Die => s.injector.Working? || s.injector.Failing?
    case ReportFailure(_) => s.injector.Failing?
    case Note(_) => true
  }

  /** `event`: append to the timeline, then write the whole of it to the file. */
  function Emitted(s: State, e: Event, kept: bool): State {
    var timeline := s.timeline + [e];
    s.(timeline := timeline, saved := if kept then timeline else s.saved)
  }

  function Apply(s: State, a: Action): State
    requires Enabled(s, a)
  {
    match a
    case Count(t, agent) =>
      s.(requests := s.requests + 1, observers := s.observers[t := Counted(s.requests + 1, agent)])
    case Drop(t) => s.(observers := s.observers - {t})
    case Claim(t) =>
      var o := s.observers[t];
      if s.started then s.(observers := s.observers - {t})
      else s.(started := true, observers := s.observers[t := Claimed(o.request, o.agent)])
    case Announce(t, kept) =>
      var o := s.observers[t];
      var s' := Emitted(s, Reached(FaultTriggered, Trigger(o.request, o.agent)), kept);
      if kept then s'.(observers := s.observers[t := Announced]) else s'.(observers := s.observers - {t})
    case Spawn(t) => s.(observers := s.observers - {t}, injector := Working(1, 0))
    case Confirm(execution, kept) =>
      Emitted(s, Reached(LocalHandleConfirmed, Plain), kept)
        .(injector := if kept then Working(2, execution) else Failing)
    case Advance(kept) =>
      Emitted(s, Reached(BEFORE_REGISTRATION[s.injector.next], Plain), kept).(injector := Next(s.injector, kept))
    case Authorize(httpStatus, kept) =>
      Emitted(s, Reached(RecoveryAuthorized, Authorization(s.injector.execution, httpStatus)), kept)
        .(injector := Next(s.injector, kept && httpStatus == 202))
    case Register(kept) =>
      // A failed write is swallowed by the polling loop, which then registers again.
      Emitted(s, Reached(SameOwnerRegistered, Plain), kept)
        .(injector := if kept then Working(8, s.injector.execution) else s.injector)
    case Rebound(replacement, kept) =>
      Emitted(s, Reached(RebindCompleted, Rebind(s.injector.execution, replacement)), kept)
        .(injector := if kept then Ended else Failing)
    case Error => s.(injector := Failing)
    case Die => s.(injector := Ended)
    case ReportFailure(kept) => Emitted(s, InjectionFailed, kept).(injector := Ended)
    case Note(kept) => Emitted(s, Other, kept)
  }

  function Next(i: Injector, ok: bool): Injector
    requires i.Working?
  {
    if ok then Working(i.next + 1, i.execution) else Failing
  }

  ghost predicate Initial(s: State) {
    && s.requests == 0 && !s.started && s.observers == map[] && s.injector == NotStarted
    && s.timeline == [] && s.saved == []
  }

  ghost predicate Run(ss: seq<State>, acts: seq<Action>) {
    && |ss| == |acts| + 1 && Initial(ss[0])
    && (forall n | 0 <= n < |acts| :: Enabled(ss[n], acts[n]) && ss[n + 1] == Apply(ss[n], acts[n]))
  }

  // ----- The invariant -----

  /** The milestones so far are a beginning of the fixed order. */
  ghost predicate Ordered(ms: seq<Milestone>) { exists j: nat :: j >= 1 && ms <= Order(j) }

  /** How far the timeline is, seen from the injector. */
  ghost predicate InStep(ms: seq<Milestone>, i: Injector) {
    match i
    case NotStarted => ms == [] || ms == [FaultTriggered]
    case Working(next, _) =>
      if next < 7 then 1 <= next && ms == BEFORE_REGISTRATION[..next]
      else if next == 7 then exists j: nat :: ms == Registered(j)
      else next == 8 && exists j: nat :: j >= 1 && ms == Registered(j)
    case Failing => Ordered(ms)
    case Ended => Ordered(ms)
  }

  /** At most one observer owns the injection, and only before the injector starts. */
  ghost predicate OneOwner(s: State) {
    && (forall t | t in s.observers && !s.observers[t].Counted? ::
          && s.started && s.injector.NotStarted? && (s.observers[t].Announced? <==> Milestones(s.timeline) != [])
          && (s.observers[t].Claimed? ==> Matches(s.target, s.observers[t].request, s.observers[t].agent)))
    && (forall t, u | t in s.observers && u in s.observers && !s.observers[t].Counted? && !s.observers[u].Counted? ::
          t == u)
    && (!s.injector.NotStarted? ==> s.started)
    && (!s.started ==> Milestones(s.timeline) == [])
  }

  /** What the recorded details say: the trigger was the target's; past the authorisation it was granted, for the
      execution that is later rebound to another one. */
  ghost predicate DetailOk(s: State, e: Event) {
    e.Reached? ==>
      match e.milestone
      case FaultTriggered => e.detail.Trigger? && Matches(s.target, e.detail.request, e.detail.agent)
      case RecoveryAuthorized =>
        && e.detail.Authorization?
        && (s.injector.Working? && s.injector.next >= 6 ==> e.detail == Authorization(s.injector.execution, 202))
      case RebindCompleted => e.detail.Rebind? && e.detail.replacement != e.detail.original
      case _ => true
  }

  ghost predicate Granted(e: Event, f: Event) {
    IsMilestone(e, RecoveryAuthorized) && IsMilestone(f, RebindCompleted) ==>
      && e.detail.Authorization? && f.detail.Rebind?
      && e.detail.httpStatus == 202 && e.detail.execution == f.detail.original
  }

  ghost predicate Details(s: State) {
    && (forall e | e in s.timeline :: DetailOk(s, e))
    && (forall e, f | e in s.timeline && f in s.timeline :: Granted(e, f))
  }

  ghost predicate Inv(s: State) {
    InStep(Milestones(s.timeline), s.injector) && OneOwner(s) && Details(s) && s.saved <= s.timeline
  }

  ghost predicate IsMilestone(e: Event, m: Milestone) { e.Reached? && e.milestone == m }

  lemma MilestonesAppend(timeline: seq<Event>, e: Event)
    ensures Milestones(timeline + [e])
         == if e.Reached? then Milestones(timeline) + [e.milestone] else Milestones(timeline)
  {
    assert (timeline + [e])[..|timeline|] == timeline;
  }

  lemma {:induction false} MilestoneIn(timeline: seq<Event>, m: Milestone)
    ensures m in Milestones(timeline) <==> exists e :: e in timeline && IsMilestone(e, m)
  {
    if timeline != [] {
      var front, last := timeline[..|timeline| - 1], timeline[|timeline| - 1];
      MilestoneIn(front, m);
      assert timeline == front + [last] && last in timeline;
      if m in Milestones(front) {
        var e :| e in front && IsMilestone(e, m);
        assert e in timeline;
      }
      if exists e :: e in timeline && IsMilestone(e, m) {
        var e :| e in timeline && IsMilestone(e, m);
        assert e in front || e == last;
      }
    }
  }

  // ----- Every step keeps it -----

  lemma BeforeIsOrdered(k: nat)
    requires k <= 7
    ensures Ordered(BEFORE_REGISTRATION[..k])
  {
    assert BEFORE_REGISTRATION[..k] <= Order(1);
  }

  lemma RegisteredGrows(j: nat)
    ensures Registered(j + 1) == Registered(j) + [SameOwnerRegistered] && Registered(j) <= Order(j + 1)
  {
    var longer := Registered(j + 1);
    assert longer[..7] == Registered(j)[..7];
    assert forall k | 0 <= k < 7 :: longer[k] == longer[..7][k] && Registered(j)[k] == Registered(j)[..7][k];
    assert longer == Registered(j) + [SameOwnerRegistered];
  }

  lemma WorkingIsOrdered(ms: seq<Milestone>, i: Injector)
    requires i.Working? && InStep(ms, i)
    ensures Ordered(ms)
  {
    if i.next < 7 {
      BeforeIsOrdered(i.next);
    } else {
      var j: nat :| ms == Registered(j);
      RegisteredGrows(j);
    }
  }

  lemma StepKeepsOrder(s: State, a: Action)
    requires InStep(Milestones(s.timeline), s.injector) && OneOwner(s) && Enabled(s, a)
    ensures InStep(Milestones(Apply(s, a).timeline), Apply(s, a).injector)
  {
    hide Milestones, Ordered, InStep;
    var ms, s' := Milestones(s.timeline), Apply(s, a);
    if |s'.timeline| > |s.timeline| { MilestonesAppend(s.timeline, s'.timeline[|s.timeline|]); }
    if s.injector.Working? {
      WorkingIsOrdered(ms, s.injector);
      EmitKeepsOrder(ms, s.injector, if a.Confirm? then a.execution else s.injector.execution);
    }
    StandingIsOrdered(ms, s.injector);
    StandingIsOrdered(Milestones(s'.timeline), s.injector);
  }

  /** States of the injector that do not depend on how far it is. */
  lemma StandingIsOrdered(ms: seq<Milestone>, i: Injector)
    ensures Ordered(ms) ==> InStep(ms, Failing) && InStep(ms, Ended)
    ensures InStep(ms, NotStarted) <==> ms == [] || ms == [FaultTriggered]
    ensures InStep([FaultTriggered], Working(1, 0))
    ensures InStep(ms, i) && (i.Failing? || i.Ended?) ==> Ordered(ms)
  {
    assert BEFORE_REGISTRATION[..1] == [FaultTriggered];
  }

  /** The injector's own emissions, on the milestones alone. */
  lemma EmitKeepsOrder(ms: seq<Milestone>, i: Injector, execution: nat)
    requires i.Working? && InStep(ms, i)
    ensures i.next < 7 ==> InStep(ms + [BEFORE_REGISTRATION[i.next]], Working(i.next + 1, execution))
    ensures i.next < 7 ==> Ordered(ms + [BEFORE_REGISTRATION[i.next]])
    ensures i.next == 7 ==> forall n | 7 <= n <= 8 :: InStep(ms + [SameOwnerRegistered], Working(n, execution))
    ensures i.next == 8 ==> Ordered(ms + [RebindCompleted])
    ensures 1 <= i.next <= 8
  {
    if i.next < 7 {
      var next := ms + [BEFORE_REGISTRATION[i.next]];
      assert next == BEFORE_REGISTRATION[..i.next + 1];
      BeforeIsOrdered(i.next + 1);
      assert i.next + 1 == 7 ==> next == Registered(0);
    } else if i.next == 7 {
      var j: nat :| ms == Registered(j);
      RegisteredGrows(j);
    } else {
      var j: nat :| j >= 1 && ms == Registered(j);
      assert ms + [RebindCompleted] <= Order(j);
    }
  }

  lemma StepKeepsOwner(s: State, a: Action)
    requires InStep(Milestones(s.timeline), s.injector) && OneOwner(s) && Enabled(s, a)
    ensures OneOwner(Apply(s, a))
  {
    hide Milestones, Ordered;
    var s' := Apply(s, a);
    if |s'.timeline| > |s.timeline| { MilestonesAppend(s.timeline, s'.timeline[|s.timeline|]); }
  }

  /** Before the injector is past the authorisation nothing is rebound. */
  lemma NotReboundYet(ms: seq<Milestone>, i: Injector)
    requires InStep(ms, i) && (i.NotStarted? || (i.Working? && i.next <= 8))
    ensures RebindCompleted !in ms
    ensures i.NotStarted? || i.next <= 5 ==> RecoveryAuthorized !in ms
  {
    if i.Working? {
      if i.next >= 7 {
        var j: nat :| ms == Registered(j);
        assert forall k | 0 <= k < 7 :: ms[k] == ms[..7][k];
      }
    }
  }

  lemma StepKeepsDetails(s: State, a: Action)
    requires Inv(s) && Enabled(s, a)
    ensures Details(Apply(s, a))
  {
    hide Milestones, Ordered, InStep, Matches;
    var s' := Apply(s, a);
    forall e | e in s'.timeline ensures DetailOk(s', e) {
      NewDetail(s, a, e);
    }
    forall e, f | e in s'.timeline && f in s'.timeline ensures Granted(e, f) {
      NewGrant(s, a, e, f);
    }
  }

  lemma NewDetail(s: State, a: Action, e: Event)
    requires Inv(s) && Enabled(s, a) && e in Apply(s, a).timeline
    ensures DetailOk(Apply(s, a), e)
  {
    hide Milestones, InStep;
    var s' := Apply(s, a);
    if e in s.timeline {
      assert DetailOk(s, e);
      if s.injector.Working? && s.injector.next == 5 {
        NotReboundYet(Milestones(s.timeline), s.injector);
        MilestoneIn(s.timeline, RecoveryAuthorized);
        assert IsMilestone(e, RecoveryAuthorized) ==> RecoveryAuthorized in Milestones(s.timeline);
      }
      if a.Spawn? || a.Confirm? { assert s'.injector.Working? ==> s'.injector.next < 6; }
    }
  }

  lemma NewGrant(s: State, a: Action, e: Event, f: Event)
    requires Inv(s) && Enabled(s, a) && e in Apply(s, a).timeline && f in Apply(s, a).timeline
    ensures Granted(e, f)
  {
    hide Milestones, InStep, Matches;
    if e in s.timeline && f in s.timeline {
      assert Granted(e, f);
    } else if a.Authorize? {
      NotReboundYet(Milestones(s.timeline), s.injector);
      MilestoneIn(s.timeline, RebindCompleted);
      assert f in s.timeline ==> !IsMilestone(f, RebindCompleted);
    } else if a.Rebound? {
      assert e in s.timeline ==> DetailOk(s, e);
    }
  }

  lemma StepKeepsInv(s: State, a: Action)
    requires Inv(s) && Enabled(s, a)
    ensures Inv(Apply(s, a))
  {
    hide InStep, OneOwner, Details, Milestones, Apply, Enabled;
    StepKeepsOrder(s, a);
    StepKeepsOwner(s, a);
    StepKeepsDetails(s, a);
    StepKeepsSaved(s, a);
  }

  lemma StepKeepsSaved(s: State, a: Action)
    requires s.saved <= s.timeline && Enabled(s, a)
    ensures Apply(s, a).saved <= Apply(s, a).timeline
  {
  }

  lemma {:induction false} RunKeepsInv(ss: seq<State>, acts: seq<Action>, n: nat)
    requires Run(ss, acts) && n < |ss|
    ensures Inv(ss[n])
  {
    if n > 0 {
      RunKeepsInv(ss, acts, n - 1);
      hide Enabled, Apply, Inv;
      StepKeepsInv(ss[n - 1], acts[n - 1]);
    }
  }

  // ----- Whole runs -----

  lemma {:induction false} MilestonesPrefix(timeline: seq<Event>, n: nat)
    requires n <= |timeline|
    ensures Milestones(timeline[..n]) <= Milestones(timeline)
  {
    if n < |timeline| {
      MilestonesPrefix(timeline[..|timeline| - 1], n);
      assert timeline[..|timeline| - 1][..n] == timeline[..n];
    } else {
      assert timeline[..n] == timeline;
    }
  }

  lemma OrderedPrefix(ms: seq<Milestone>, longer: seq<Milestone>)
    requires Ordered(longer) && ms <= longer
    ensures Ordered(ms)
  {
    var j: nat :| j >= 1 && longer <= Order(j);
    assert ms <= Order(j);
  }

  lemma InStepIsOrdered(ms: seq<Milestone>, i: Injector)
    requires InStep(ms, i)
    ensures Ordered(ms)
  {
    if i.Working? {
      WorkingIsOrdered(ms, i);
    } else if i.NotStarted? {
      BeforeIsOrdered(0);
      BeforeIsOrdered(1);
      assert BEFORE_REGISTRATION[..0] == [] && BEFORE_REGISTRATION[..1] == [FaultTriggered];
    }
  }

  /** In every interleaving of observers, injector and failing writes the milestones form a beginning of the fixed
      order, on the timeline and on what is persisted of it. */
  lemma TimelineIsOrdered(ss: seq<State>, acts: seq<Action>, n: nat)
    requires Run(ss, acts) && n < |ss|
    ensures Ordered(Milestones(ss[n].timeline)) && Ordered(Milestones(ss[n].saved))
  {
    RunKeepsInv(ss, acts, n);
    hide Run, Ordered, InStep, OneOwner, Details, Milestones;
    var s := ss[n];
    InStepIsOrdered(Milestones(s.timeline), s.injector);
    MilestonesPrefix(s.timeline, |s.saved|);
    assert s.timeline[..|s.saved|] == s.saved;
    OrderedPrefix(Milestones(s.saved), Milestones(s.timeline));
  }

  /** The seven events the verdict asks for. */
  const REQUIRED: set<Milestone> :=
    {FaultTriggered, LocalHandleConfirmed, PrimaryExited, RecoveryRequired, RecoveryAuthorized, SameOwnerRegistered,
     RebindCompleted}

  ghost function Position(m: Milestone): nat {
    match m
    case FaultTriggered => 0
    case LocalHandleConfirmed => 1
    case PrimaryCrashSent => 2
    case PrimaryExited => 3
    case RecoveryRequired => 4
    case RecoveryAuthorized => 5
    case SameOwnerRestarted => 6
    case SameOwnerRegistered => 7
    case RebindCompleted => 8
  }

  lemma PositionBefore(m: Milestone)
    requires m != RebindCompleted && m != SameOwnerRegistered
    ensures Position(m) < 7 && BEFORE_REGISTRATION[Position(m)] == m
  {
  }

  lemma OrderedComplete(ms: seq<Milestone>)
    requires Ordered(ms) && RebindCompleted in ms
    ensures forall m: Milestone :: m in ms
  {
    var j: nat :| j >= 1 && ms <= Order(j);
    var k :| 0 <= k < |ms| && ms[k] == RebindCompleted;
    OrderPosition(j, k);
    assert ms == Order(j);
    assert forall i | 0 <= i < 7 :: Registered(j)[i] == Registered(j)[..7][i];
    forall m: Milestone ensures m in ms {
      if m != RebindCompleted && m != SameOwnerRegistered { PositionBefore(m); }
      var i := if m == RebindCompleted then k else if m == SameOwnerRegistered then 7 else Position(m);
      assert ms[i] == m;
    }
  }

  lemma OrderPosition(j: nat, i: nat)
    requires i < |Order(j)|
    ensures Position(Order(j)[i]) == if i < 7 then i else if i < 7 + j then 7 else 8
  {
    var r := Registered(j);
    assert forall k | 0 <= k < 7 :: r[k] == r[..7][k];
  }

  lemma OrderedOnce(ms: seq<Milestone>, p: nat, q: nat)
    requires Ordered(ms) && p < q < |ms| && ms[p] == ms[q]
    ensures ms[p] == SameOwnerRegistered
  {
    var j: nat :| j >= 1 && ms <= Order(j);
    OrderPosition(j, p);
    OrderPosition(j, q);
    hide Order;
    assert Position(ms[p]) == 7;
  }

  /** At most one fault is ever triggered, and at most one crash sent: no milestone but the registration occurs
      twice. */
  lemma SingleInjection(ss: seq<State>, acts: seq<Action>, n: nat, p: nat, q: nat)
    requires Run(ss, acts) && n < |ss|
    requires var ms := Milestones(ss[n].timeline); p < q < |ms| && ms[p] == ms[q]
    ensures Milestones(ss[n].timeline)[p] == SameOwnerRegistered
  {
    TimelineIsOrdered(ss, acts, n);
    OrderedOnce(Milestones(ss[n].timeline), p, q);
  }

  /** On every reachable persisted timeline the seven-event test is the presence of the rebind alone. */
  lemma SevenEventsIffRebind(ss: seq<State>, acts: seq<Action>, n: nat)
    requires Run(ss, acts) && n < |ss|
    ensures (forall m | m in REQUIRED :: m in Milestones(ss[n].saved)) <==> RebindCompleted in Milestones(ss[n].saved)
  {
    TimelineIsOrdered(ss, acts, n);
    hide Run, Ordered, Milestones;
    if RebindCompleted in Milestones(ss[n].saved) {
      OrderedComplete(Milestones(ss[n].saved));
    } else {
      assert RebindCompleted in REQUIRED;
    }
  }

  /** A rebind is to another execution than the original, whose recovery the Controller had authorised (202). */
  lemma RebindWasAuthorised(ss: seq<State>, acts: seq<Action>, n: nat, e: Event)
    requires Run(ss, acts) && n < |ss| && e in ss[n].saved && IsMilestone(e, RebindCompleted)
    ensures e.detail.Rebind? && e.detail.replacement != e.detail.original
    ensures exists f :: f in ss[n].saved && f == Reached(RecoveryAuthorized, Authorization(e.detail.original, 202))
    ensures forall f | f in ss[n].saved && IsMilestone(f, RecoveryAuthorized) ::
              f == Reached(RecoveryAuthorized, Authorization(e.detail.original, 202))
  {
    RunKeepsInv(ss, acts, n);
    TimelineIsOrdered(ss, acts, n);
    hide Run, Ordered, Milestones, InStep, OneOwner;
    var s := ss[n];
    forall f | f in s.saved ensures f in s.timeline {
      var i :| 0 <= i < |s.saved| && s.saved[i] == f;
      assert s.timeline[i] == f;
    }
    assert DetailOk(s, e);
    MilestoneIn(s.saved, RebindCompleted);
    OrderedComplete(Milestones(s.saved));
    MilestoneIn(s.saved, RecoveryAuthorized);
    var f :| f in s.saved && IsMilestone(f, RecoveryAuthorized);
    forall g | g in s.saved && IsMilestone(g, RecoveryAuthorized)
      ensures g == Reached(RecoveryAuthorized, Authorization(e.detail.original, 202))
    {
      assert Granted(g, e) && DetailOk(s, g);
    }
  }

  // ----- At which request the fault is injected -----

  /** How many accepted requests were counted so far. */
  ghost function Requests(acts: seq<Action>, n: nat): nat
    requires n <= |acts|
  {
    if n == 0 then 0 else Requests(acts, n - 1) + if acts[n - 1].Count? then 1 else 0
  }

  lemma {:induction false} RequestsCounted(ss: seq<State>, acts: seq<Action>, n: nat)
    requires Run(ss, acts) && n < |ss|
    ensures ss[n].requests == Requests(acts, n) && ss[n].target == ss[0].target
  {
    if n > 0 {
      RequestsCounted(ss, acts, n - 1);
      hide Run;
      assert Requests(acts, n) == Requests(acts, n - 1) + if acts[n - 1].Count? then 1 else 0;
    }
  }

  /** Thread `t` observes, at step `k`, the request it counted at step `j`. */
  ghost predicate Observes(ss: seq<State>, acts: seq<Action>, t: nat, j: nat, k: nat, request: nat, agent: int)
    requires |ss| == |acts| + 1
  {
    && j < k < |ss| && acts[j] == Count(t, agent) && request == Requests(acts, j + 1)
    && forall i | j < i <= k :: t in ss[i].observers
  }

  lemma StepOfObserver(s: State, a: Action, t: nat)
    requires Enabled(s, a) && t in Apply(s, a).observers && !Apply(s, a).observers[t].Announced?
    ensures var o := Apply(s, a).observers[t];
      if a.Count? && a.thread == t then o == Counted(s.requests + 1, a.agent)
      else t in s.observers && !s.observers[t].Announced?
           && s.observers[t].request == o.request && s.observers[t].agent == o.agent
  {
  }

  lemma {:induction false} ObserverHistory(ss: seq<State>, acts: seq<Action>, t: nat, n: nat) returns (j: nat)
    requires Run(ss, acts) && n < |ss| && t in ss[n].observers && !ss[n].observers[t].Announced?
    ensures Observes(ss, acts, t, j, n, ss[n].observers[t].request, ss[n].observers[t].agent)
  {
    hide Enabled, Apply;
    StepOfObserver(ss[n - 1], acts[n - 1], t);
    if acts[n - 1].Count? && acts[n - 1].thread == t {
      j := n - 1;
      RequestsCounted(ss, acts, n - 1);
    } else {
      j := ObserverHistory(ss, acts, t, n - 1);
    }
  }

  lemma StepTriggers(s: State, a: Action, e: Event)
    requires Enabled(s, a) && e in Apply(s, a).timeline && e !in s.timeline && IsMilestone(e, FaultTriggered)
    ensures a.Announce? && a.thread in s.observers && s.observers[a.thread].Claimed?
    ensures e.detail == Trigger(s.observers[a.thread].request, s.observers[a.thread].agent)
  {
  }

  /** Every trigger on a timeline is the target's: in agent mode it names the agent, in step mode it comes with
      the request after the configured number of steps. Its number and agent are those of the accepted request
      that the announcing thread itself counted. */
  lemma {:induction false} TriggerIsTheTargets(ss: seq<State>, acts: seq<Action>, n: nat, e: Event)
    returns (t: nat, j: nat, k: nat)
    requires Run(ss, acts) && n < |ss| && e in ss[n].timeline && IsMilestone(e, FaultTriggered)
    ensures e.detail.Trigger? && k < n && acts[k].Announce? && acts[k].thread == t
    ensures Observes(ss, acts, t, j, k, e.detail.request, e.detail.agent)
    ensures ss[0].target.Agent? ==> e.detail.agent == ss[0].target.id
    ensures ss[0].target.AfterSteps? ==> e.detail.request == ss[0].target.steps + 1
    ensures !ss[0].target.Never?
  {
    hide Enabled, Apply;
    if e in ss[n - 1].timeline {
      t, j, k := TriggerIsTheTargets(ss, acts, n - 1, e);
    } else {
      StepTriggers(ss[n - 1], acts[n - 1], e);
      t, k := acts[n - 1].thread, n - 1;
      j := ObserverHistory(ss, acts, t, k);
      TriggerMatchesTarget(ss, acts, n, e);
    }
  }

  lemma TriggerMatchesTarget(ss: seq<State>, acts: seq<Action>, n: nat, e: Event)
    requires Run(ss, acts) && n < |ss| && e in ss[n].timeline && IsMilestone(e, FaultTriggered)
    ensures e.detail.Trigger? && !ss[0].target.Never?
    ensures ss[0].target.Agent? ==> e.detail.agent == ss[0].target.id
    ensures ss[0].target.AfterSteps? ==> e.detail.request == ss[0].target.steps + 1
  {
    RunKeepsInv(ss, acts, n);
    RequestsCounted(ss, acts, n);
    assert DetailOk(ss[n], e);
  }

  // ----- What is persisted -----

  /** Whether the step emits an event, and whether its write of the timeline succeeds. */
  predicate Emits(a: Action) {
    a.Announce? || a.Confirm? || a.Advance? || a.Authorize? || a.Register? || a.Rebound? || a.ReportFailure? || a.Note?
  }

  /** Every emission appends one event; the file then holds the whole timeline, or, when the write fails, what it held
      before. No other step changes either. */
  lemma StepPersists(s: State, a: Action)
    requires Enabled(s, a)
    ensures var t := Apply(s, a);
      if !Emits(a) then t.timeline == s.timeline && t.saved == s.saved
      else
        && |t.timeline| == |s.timeline| + 1 && s.timeline <= t.timeline
        && t.saved == if a.kept then t.timeline else s.saved
  {
  }

  // ----- How the injection comes to an end -----

  /** The second lock section decides once: the first claim makes its thread the owner, with the request it
      counted; every later one only sends its thread away. */
  lemma ClaimDecides(s: State, t: nat)
    requires Enabled(s, Claim(t))
    ensures var o, s' := s.observers[t], Apply(s, Claim(t));
      && s'.started && s'.timeline == s.timeline && s'.injector == s.injector
      && s'.observers == if s.started then s.observers - {t} else s.observers[t := Claimed(o.request, o.agent)]
  {
  }

  predicate Finishes(a: Action) { a.Die? || a.ReportFailure? || (a.Rebound? && a.kept) }

  ghost predicate Finished(acts: seq<Action>, n: nat)
    requires n <= |acts|
  {
    exists k :: 0 <= k < n && Finishes(acts[k])
  }

  lemma FinishedNext(acts: seq<Action>, n: nat)
    requires 0 < n <= |acts|
    ensures Finished(acts, n) <==> Finished(acts, n - 1) || Finishes(acts[n - 1])
  {
  }

  lemma StepFinishes(s: State, a: Action)
    requires OneOwner(s) && Enabled(s, a)
    ensures Apply(s, a).injector.Ended? <==> s.injector.Ended? || Finishes(a)
  {
  }

  /** The injector ends with a rebind on record, with a report of its failure, or by dying, and with nothing else;
      it is never started again. So a handled error never ends it silently. */
  lemma {:induction false} EndsOnRecord(ss: seq<State>, acts: seq<Action>, n: nat)
    requires Run(ss, acts) && n < |ss|
    ensures ss[n].injector.Ended? <==> Finished(acts, n)
  {
    if n > 0 {
      hide Enabled, Apply, Finished, Finishes, Inv;
      EndsOnRecord(ss, acts, n - 1);
      RunKeepsInv(ss, acts, n - 1);
      assert OneOwner(ss[n - 1]) by { InvIsOneOwner(ss[n - 1]); }
      StepFinishes(ss[n - 1], acts[n - 1]);
      FinishedNext(acts, n);
    }
  }

  lemma InvIsOneOwner(s: State)
    requires Inv(s)
    ensures OneOwner(s) && InStep(Milestones(s.timeline), s.injector)
  {
  }

  /** The file is not behind: once the trigger is announced, and at every milestone after it, the injector goes on
      only when the file shows every milestone so far. Only the registration, which is emitted again, may be
      missing. */
  ghost predicate Filed(s: State) {
    && (forall t | t in s.observers && s.observers[t].Announced? :: Milestones(s.saved) == Milestones(s.timeline))
    && (s.injector.Working? ==>
          if s.injector.next == 7 then BEFORE_REGISTRATION <= Milestones(s.saved)
          else Milestones(s.saved) == Milestones(s.timeline))
  }

  lemma StepKeepsFiled(s: State, a: Action)
    requires OneOwner(s) && InStep(Milestones(s.timeline), s.injector) && Filed(s) && Enabled(s, a)
    requires InStep(Milestones(Apply(s, a).timeline), Apply(s, a).injector)
    ensures Filed(Apply(s, a))
  {
    hide Milestones, Ordered;
    if Emits(a) { MilestonesAppend(s.timeline, Apply(s, a).timeline[|s.timeline|]); }
    assert Registered(0) == BEFORE_REGISTRATION;
  }

  lemma {:induction false} RunKeepsFiled(ss: seq<State>, acts: seq<Action>, n: nat)
    requires Run(ss, acts) && n < |ss|
    ensures Filed(ss[n])
  {
    if n > 0 {
      hide Enabled, Apply, Filed, Inv;
      RunKeepsFiled(ss, acts, n - 1);
      RunKeepsInv(ss, acts, n - 1);
      RunKeepsInv(ss, acts, n);
      InvIsOneOwner(ss[n - 1]);
      InvIsOneOwner(ss[n]);
      StepKeepsFiled(ss[n - 1], acts[n - 1]);
    }
  }

  // ----- When a failure is on record -----

  ghost predicate Reported(acts: seq<Action>, n: nat)
    requires n <= |acts|
  {
    exists k :: 0 <= k < n && acts[k].ReportFailure?
  }

  lemma ReportedNext(acts: seq<Action>, n: nat)
    requires 0 < n <= |acts|
    ensures Reported(acts, n) <==> Reported(acts, n - 1) || acts[n - 1].ReportFailure?
  {
  }

  /** A failure event is on the timeline exactly when the injector reported one. */
  lemma {:induction false} FailureIsReported(ss: seq<State>, acts: seq<Action>, n: nat)
    requires Run(ss, acts) && n < |ss|
    ensures InjectionFailed in ss[n].timeline <==> Reported(acts, n)
  {
    if n > 0 {
      hide Enabled, Apply;
      hide Reported;
      FailureIsReported(ss, acts, n - 1);
      StepReports(ss[n - 1], acts[n - 1]);
      ReportedNext(acts, n);
    }
  }

  lemma StepReports(s: State, a: Action)
    requires Enabled(s, a)
    ensures InjectionFailed in Apply(s, a).timeline <==> InjectionFailed in s.timeline || a.ReportFailure?
  {
  }

  // ----- When the order is strict -----

  /** How often the registration milestone occurs, and how often it was emitted. */
  ghost function Repeated(ms: seq<Milestone>): nat {
    if ms == [] then 0 else Repeated(ms[..|ms| - 1]) + if ms[|ms| - 1] == SameOwnerRegistered then 1 else 0
  }

  ghost function Registrations(acts: seq<Action>, n: nat): nat
    requires n <= |acts|
  {
    if n == 0 then 0 else Registrations(acts, n - 1) + if acts[n - 1].Register? then 1 else 0
  }

  lemma {:induction false} RepeatedInOrder(j: nat, k: nat)
    requires k <= |Order(j)|
    ensures Repeated(Order(j)[..k]) == if k <= 7 then 0 else if k <= 7 + j then k - 7 else j
  {
    if k > 0 {
      hide Order;
      RepeatedInOrder(j, k - 1);
      OrderPosition(j, k - 1);
      OrderLength(j);
      var ms := Order(j)[..k];
      PrefixStep(Order(j), k);
      assert Position(ms[k - 1]) == 7 <==> ms[k - 1] == SameOwnerRegistered;
    }
  }

  lemma PrefixStep(ms: seq<Milestone>, k: nat)
    requires 0 < k <= |ms|
    ensures ms[..k][..k - 1] == ms[..k - 1] && ms[..k][k - 1] == ms[k - 1]
  {
  }

  lemma OrderLength(j: nat)
    ensures |Order(j)| == 8 + j
  {
  }

  lemma OrderAgrees(j: nat, k: nat)
    requires j >= 1 && k <= 8 && k <= |Order(j)|
    ensures k <= |Order(1)| && Order(j)[..k] == Order(1)[..k]
  {
    assert forall i | 0 <= i < 7 :: Registered(j)[i] == Registered(j)[..7][i];
    assert forall i | 0 <= i < 7 :: Registered(1)[i] == Registered(1)[..7][i];
  }

  /** Milestones in order are strictly in order exactly when the registration is not repeated. */
  lemma StrictIffNotRepeated(ms: seq<Milestone>)
    requires Ordered(ms)
    ensures ms <= Order(1) <==> Repeated(ms) <= 1
  {
    hide Order;
    var j: nat :| j >= 1 && ms <= Order(j);
    OrderLength(j);
    OrderLength(1);
    assert ms == Order(j)[..|ms|];
    RepeatedInOrder(j, |ms|);
    if |ms| <= 8 {
      OrderAgrees(j, |ms|);
      assert Order(1)[..|ms|] <= Order(1);
    } else if ms <= Order(1) {
      assert ms == Order(1)[..|ms|];
      RepeatedInOrder(1, |ms|);
    }
  }

  lemma RepeatedNext(timeline: seq<Event>, e: Event)
    ensures Repeated(Milestones(timeline + [e]))
         == Repeated(Milestones(timeline)) + if IsMilestone(e, SameOwnerRegistered) then 1 else 0
  {
    hide Milestones;
    MilestonesAppend(timeline, e);
    var ms := Milestones(timeline);
    if e.Reached? { assert (ms + [e.milestone])[..|ms|] == ms; }
  }

  lemma StepRegisters(s: State, a: Action)
    requires Enabled(s, a)
    ensures Repeated(Milestones(Apply(s, a).timeline))
         == Repeated(Milestones(s.timeline)) + if a.Register? then 1 else 0
  {
    hide Milestones, Repeated;
    var s' := Apply(s, a);
    if |s'.timeline| > |s.timeline| {
      RepeatedNext(s.timeline, s'.timeline[|s.timeline|]);
      assert a.Advance? ==> BEFORE_REGISTRATION[s.injector.next] != SameOwnerRegistered;
    }
  }

  lemma {:induction false} RepeatedIsRegistrations(ss: seq<State>, acts: seq<Action>, n: nat)
    requires Run(ss, acts) && n < |ss|
    ensures Repeated(Milestones(ss[n].timeline)) == Registrations(acts, n)
  {
    if n > 0 {
      hide Enabled, Apply, Milestones, Repeated;
      RepeatedIsRegistrations(ss, acts, n - 1);
      StepRegisters(ss[n - 1], acts[n - 1]);
    }
  }

  /** Each milestone occurs at most once, in order, if and only if the injector emitted the registration at most once;
      it emits it again after every failed write of it. */
  lemma StrictIffRegisteredOnce(ss: seq<State>, acts: seq<Action>, n: nat)
    requires Run(ss, acts) && n < |ss|
    ensures Milestones(ss[n].timeline) <= Order(1) <==> Registrations(acts, n) <= 1
  {
    TimelineIsOrdered(ss, acts, n);
    RepeatedIsRegistrations(ss, acts, n);
    StrictIffNotRepeated(Milestones(ss[n].timeline));
  }

  lemma Extended(ss: seq<State>, acts: seq<Action>, a: Action) returns (ss': seq<State>, acts': seq<Action>)
    requires Run(ss, acts) && Enabled(ss[|acts|], a)
    ensures Run(ss', acts') && acts' == acts + [a] && ss'[|acts'|] == Apply(ss[|acts|], a)
  {
    hide Enabled, Apply;
    ss', acts' := ss + [Apply(ss[|acts|], a)], acts + [a];
  }

  /** One request triggers the injection. */
  lemma StartedRun() returns (ss: seq<State>, acts: seq<Action>)
    ensures Run(ss, acts) && ss[|acts|].injector == Working(1, 0) && ss[|acts|].target == Agent(1)
    ensures ss[|acts|].saved == [Reached(FaultTriggered, Trigger(1, 1))]
  {
    ss, acts := [State(Agent(1), 0, false, map[], NotStarted, [], [])], [];
    assert Run(ss, acts);
    hide Run;
    ss, acts := Extended(ss, acts, Count(0, 1));
    ss, acts := Extended(ss, acts, Claim(0));
    ss, acts := Extended(ss, acts, Announce(0, true));
    ss, acts := Extended(ss, acts, Spawn(0));
  }

  /** One milestone of the injector whose write succeeds. */
  lemma Advanced(ss: seq<State>, acts: seq<Action>, a: Action) returns (ss': seq<State>, acts': seq<Action>)
    requires Run(ss, acts) && ss[|acts|].injector.Working? && Enabled(ss[|acts|], a)
    requires a == Confirm(5, true) || a == Advance(true) || a == Authorize(202, true)
    ensures Run(ss', acts')
    ensures ss'[|acts'|].injector
         == Working(ss[|acts|].injector.next + 1, if a.Confirm? then 5 else ss[|acts|].injector.execution)
  {
    hide Run;
    ss', acts' := Extended(ss, acts, a);
  }

  /** A run up to the registration. */
  lemma RegisteringRun() returns (ss: seq<State>, acts: seq<Action>)
    ensures Run(ss, acts) && ss[|acts|].injector == Working(7, 5)
  {
    hide Run;
    ss, acts := StartedRun();
    ss, acts := Advanced(ss, acts, Confirm(5, true));
    ss, acts := Advanced(ss, acts, Advance(true));
    ss, acts := Advanced(ss, acts, Advance(true));
    ss, acts := Advanced(ss, acts, Advance(true));
    ss, acts := Advanced(ss, acts, Authorize(202, true));
    ss, acts := Advanced(ss, acts, Advance(true));
  }

  /** A run in which the write of the registration fails once and the milestone occurs twice. */
  lemma LostRegistrationRepeats() returns (ss: seq<State>, acts: seq<Action>)
    ensures Run(ss, acts) && !(Milestones(ss[|acts|].timeline) <= Order(1))
  {
    ss, acts := RegisteringRun();
    hide Run;
    ss, acts := Extended(ss, acts, Register(false));
    ss, acts := Extended(ss, acts, Register(true));
    RegisteredTwice(acts);
    assert |ss| == |acts| + 1 by { RunLength(ss, acts); }
    StrictIffRegisteredOnce(ss, acts, |acts|);
  }

  lemma RunLength(ss: seq<State>, acts: seq<Action>)
    requires Run(ss, acts)
    ensures |ss| == |acts| + 1
  {
  }

  lemma RegisteredTwice(acts: seq<Action>)
    requires |acts| >= 2 && acts[|acts| - 1].Register? && acts[|acts| - 2].Register?
    ensures Registrations(acts, |acts|) >= 2
  {
  }

  // ----- The verdict -----

  datatype Profile = Clean | NodeLoss

  datatype Verdict = Verdict(injectionValid: bool, infrastructureOk: bool, fullSuccess: bool)

  predicate Has(timeline: seq<Event>, m: Milestone) {
    timeline != [] && ((timeline[0].Reached? && timeline[0].milestone == m) || Has(timeline[1..], m))
  }

  function FirstTrigger(timeline: seq<Event>): Option<Detail> {
    if timeline == [] then None
    else if timeline[0].Reached? && timeline[0].milestone == FaultTriggered then Some(timeline[0].detail)
    else FirstTrigger(timeline[1..])
  }

  /** `fault_verdict`; `preFault` is the step count of the graph snapshot taken before the crash, if there is one. */
  function FaultVerdict(
    timeline: seq<Event>, profile: Profile, target: Target, preFault: Option<nat>, taskSuccess: bool): Verdict
  {
    var expectedTrigger :=
      match target
      case Agent(id) =>
        var trigger := FirstTrigger(timeline);
        trigger.Some? && trigger.value.Trigger? && trigger.value.agent == id && preFault.Some?
      case AfterSteps(steps) => preFault == Some(steps)
      case Never => false;
    var valid :=
      if profile.Clean? then !Has(timeline, FaultTriggered)
      else
        && Has(timeline, FaultTriggered) && Has(timeline, LocalHandleConfirmed) && Has(timeline, PrimaryExited)
        && Has(timeline, RecoveryRequired) && Has(timeline, RecoveryAuthorized) && Has(timeline, SameOwnerRegistered)
        && Has(timeline, RebindCompleted) && expectedTrigger;
    var ok := InjectionFailed !in timeline;
    Verdict(valid, ok, taskSuccess && valid && ok)
  }

  lemma {:induction false} HasIs(timeline: seq<Event>, m: Milestone)
    ensures Has(timeline, m) <==> exists e :: e in timeline && IsMilestone(e, m)
  {
    if timeline != [] {
      HasIs(timeline[1..], m);
      assert timeline == [timeline[0]] + timeline[1..];
      if exists e :: e in timeline && IsMilestone(e, m) {
        var e :| e in timeline && IsMilestone(e, m);
        assert e == timeline[0] || e in timeline[1..];
      }
      if exists e :: e in timeline[1..] && IsMilestone(e, m) {
        var e :| e in timeline[1..] && IsMilestone(e, m);
        assert e in timeline;
      }
      assert timeline[0] in timeline;
    }
  }

  lemma {:induction false} FirstTriggerIs(timeline: seq<Event>)
    requires Has(timeline, FaultTriggered)
    ensures FirstTrigger(timeline).Some?
    ensures exists e :: e in timeline && IsMilestone(e, FaultTriggered) && e.detail == FirstTrigger(timeline).value
  {
    if timeline[0].Reached? && timeline[0].milestone == FaultTriggered {
      assert timeline[0] in timeline && IsMilestone(timeline[0], FaultTriggered);
    } else {
      FirstTriggerIs(timeline[1..]);
      var e :| e in timeline[1..] && IsMilestone(e, FaultTriggered) && e.detail == FirstTrigger(timeline[1..]).value;
      assert e in timeline;
    }
  }

  /** The first trigger of a timeline is at position `i`. */
  ghost predicate TriggersFirstAt(timeline: seq<Event>, i: nat) {
    && i < |timeline| && IsMilestone(timeline[i], FaultTriggered)
    && forall k | 0 <= k < i :: !IsMilestone(timeline[k], FaultTriggered)
  }

  lemma {:induction false} FirstTriggerAt(timeline: seq<Event>, i: nat)
    requires TriggersFirstAt(timeline, i)
    ensures FirstTrigger(timeline) == Some(timeline[i].detail)
  {
    if i > 0 {
      assert !IsMilestone(timeline[0], FaultTriggered);
      assert forall k | 0 <= k < i - 1 :: timeline[1..][k] == timeline[k + 1];
      FirstTriggerAt(timeline[1..], i - 1);
    }
  }

  /** In agent mode no timeline at all counts as a valid node loss unless its first trigger names the agent. */
  lemma AgentVerdictNeedsItsTrigger(
    timeline: seq<Event>, id: int, preFault: Option<nat>, taskSuccess: bool, i: nat)
    requires TriggersFirstAt(timeline, i)
    requires FaultVerdict(timeline, NodeLoss, Agent(id), preFault, taskSuccess).injectionValid
    ensures timeline[i].detail.Trigger? && timeline[i].detail.agent == id
  {
    hide Has;
    FirstTriggerAt(timeline, i);
  }

  /** On every reachable persisted timeline a node-loss injection counts as valid exactly when the rebind is there
      and the snapshot taken before the crash exists, in step mode with the configured step count; a rebind of the
      wrong agent never occurs. The whole run then succeeds exactly when the runner reported
      success and no failure is on record. */
  lemma VerdictIffRebind(ss: seq<State>, acts: seq<Action>, n: nat, preFault: Option<nat>, taskSuccess: bool)
    requires Run(ss, acts) && n < |ss|
    ensures var s := ss[n];
      var v := FaultVerdict(s.saved, NodeLoss, s.target, preFault, taskSuccess);
      && (v.injectionValid <==>
            && RebindCompleted in Milestones(s.saved) && preFault.Some?
            && (s.target.AfterSteps? ==> preFault.value == s.target.steps))
      && (v.infrastructureOk <==> InjectionFailed !in s.saved)
      && (v.fullSuccess <==> taskSuccess && v.injectionValid && InjectionFailed !in s.saved)
  {
    RunKeepsInv(ss, acts, n);
    SevenEventsIffRebind(ss, acts, n);
    hide Run, Milestones, InStep, OneOwner, Has, FirstTrigger;
    var s := ss[n];
    forall m: Milestone ensures Has(s.saved, m) <==> m in Milestones(s.saved) {
      HasIs(s.saved, m);
      MilestoneIn(s.saved, m);
    }
    if RebindCompleted in Milestones(s.saved) {
      assert FaultTriggered in REQUIRED;
      TriggerMatches(s);
    }
  }

  lemma TriggerMatches(s: State)
    requires Inv(s) && Has(s.saved, FaultTriggered)
    ensures !s.target.Never?
    ensures FirstTrigger(s.saved).Some? && FirstTrigger(s.saved).value.Trigger?
    ensures s.target.Agent? ==> FirstTrigger(s.saved).value.agent == s.target.id
  {
    hide Milestones, InStep, OneOwner, Has, FirstTrigger;
    FirstTriggerIs(s.saved);
    var e :| e in s.saved && IsMilestone(e, FaultTriggered) && e.detail == FirstTrigger(s.saved).value;
    var i :| 0 <= i < |s.saved| && s.saved[i] == e;
    assert s.timeline[i] == e && DetailOk(s, e);
  }

  /** The clean verdict, for every target: valid exactly when no trigger is persisted. */
  lemma CleanVerdictIff(ss: seq<State>, acts: seq<Action>, n: nat, preFault: Option<nat>, taskSuccess: bool)
    requires Run(ss, acts) && n < |ss|
    ensures FaultVerdict(ss[n].saved, Clean, ss[n].target, preFault, taskSuccess).injectionValid <==>
            FaultTriggered !in Milestones(ss[n].saved)
    ensures ss[n].target.Never? ==> FaultTriggered !in Milestones(ss[n].saved)
  {
    RunKeepsInv(ss, acts, n);
    hide Run, Milestones, InStep, OneOwner, Has;
    HasIs(ss[n].saved, FaultTriggered);
    MilestoneIn(ss[n].saved, FaultTriggered);
    if ss[n].target.Never? && Has(ss[n].saved, FaultTriggered) { TriggerMatches(ss[n]); }
  }

  /** The clean profile does not switch the injection off when an agent is named: a run that triggers it. */
  lemma CleanRunInjects(preFault: Option<nat>, taskSuccess: bool) returns (ss: seq<State>, acts: seq<Action>)
    ensures Run(ss, acts) && ss[|acts|].target == Agent(1)
    ensures !FaultVerdict(ss[|acts|].saved, Clean, Agent(1), preFault, taskSuccess).injectionValid
  {
    ss, acts := StartedRun();
    assert Has(ss[|acts|].saved, FaultTriggered);
  }
}
