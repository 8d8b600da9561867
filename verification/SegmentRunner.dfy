/** The planning-segment loop of the multi-task experiment: plan, admit, submit, wait, decide.
    What the world answers in each segment is a script; the loop, its decision and its verdict are the
    runner's own. */
module SegmentRunner {
  import opened Wrappers
  import PA = PlanAdmission
  import PT = PrimitiveTasks

  // ----- Evidence and the decision -----

  datatype MissionStatus = Completed | Failed | Cancelled | Unfinished

  /** The state of one local execution of the Mission, as read from the bridge database. */
  datatype LocalState = LocalCompleted | LocalFailed | LocalCancelled(goalGuard: bool) | LocalOpen

  /** Everything read after the wait: the last reported status, the reply to a goal cancellation if one was
      requested, whether the goal holds, the local executions and the Controller attempts (None: unreadable). */
  datatype Evidence = Evidence(
    status: MissionStatus, goalCancelReply: Option<int>, goal: bool,
    local: seq<LocalState>, attempts: Option<seq<MissionStatus>>)
  {
    predicate LocalTerminal() {
      local != [] && forall i | 0 <= i < |local| :: !local[i].LocalOpen?
    }

    predicate AttemptsTerminal() {
      attempts.Some? && attempts.value != [] && forall i | 0 <= i < |attempts.value| :: !attempts.value[i].Unfinished?
    }

    predicate CancelledAfterGoal() {
      status.Cancelled? && goalCancelReply == Some(202) && goal
    }

    predicate Guarded() {
      exists i | 0 <= i < |local| :: local[i] == LocalCancelled(true)
    }
  }

  datatype Decision = GoalReached | Replan | Unsafe

  function Decide(e: Evidence): Decision {
    if e.goal && (e.status.Completed? || e.CancelledAfterGoal() || e.Guarded()) then GoalReached
    else if e.status.Completed? then Replan
    else if e.status.Failed? && e.LocalTerminal() && e.AttemptsTerminal() then Replan
    else Unsafe
  }

  /** The Mission is over: it completed, or it failed and both sides only hold terminal attempts. */
  ghost predicate SafelyOver(e: Evidence) {
    e.status.Completed? || (e.status.Failed? && e.LocalTerminal() && e.AttemptsTerminal())
  }

  // ----- One run -----

  /** What the world answers in one segment. */
  datatype Segment = Segment(
    steps: nat, goal: bool, planned: bool, plan: PA.Plan, contexts: map<int, PA.AgentContext>, reply: Reply)

  /** The answer to a posted plan: another status than 202, no answer at all (a timeout or a lost connection), or
      acceptance. `created` says whether the Controller has the Mission although the runner was not told so. */
  datatype Reply = Refused(created: bool) | Lost(created: bool) | Accepted(wait: Wait) {

    predicate Created() { Accepted? || created }

    predicate Ended() { Accepted? && wait.Concluded? }
  }

  /** Waiting ends in evidence, or in an exception (a process exit, a transport failure). `filed`: the records and
      diagnostics written after the decision did not fail. */
  datatype Wait = Concluded(evidence: Evidence, filed: bool) | Interrupted

  datatype Config = Config(env: string, taskIndex: int, profile: PA.Profile, maxSteps: nat, missionId: nat -> string)

  /** A posted Mission: how many Tasks, against which step count, and what became of it. */
  datatype Submission = Submission(segment: nat, tasks: nat, stepsBefore: nat, reply: Reply)

  function AdmissionRequest(c: Config, n: nat, s: Segment): PA.Request {
    PA.Request(s.plan, c.missionId(n), c.env, c.taskIndex, s.contexts, c.maxSteps - s.steps, c.profile)
  }

  /** The flags the verdict is computed from; they keep the values of the last concluded wait. */
  datatype Flags = Flags(completed: bool, cancelledAfterGoal: bool, guarded: bool) {
    predicate Any() { completed || cancelledAfterGoal || guarded }
  }

  const NO_FLAGS := Flags(false, false, false)

  function FlagsOf(e: Evidence): Flags {
    Flags(e.status.Completed?, e.CancelledAfterGoal(), e.Guarded())
  }

  // ----- Which segments are posted -----

  /** Segment `n` gets as far as a plan. */
  predicate Plans(c: Config, s: Segment) { s.steps < c.maxSteps && !s.goal && s.planned }

  /** Another segment follows after an answer. */
  predicate Continues(r: Reply) {
    r.Ended() && r.wait.filed && Decide(r.wait.evidence).Replan?
  }

  ghost predicate Admitted(c: Config, world: nat -> Segment, n: nat) {
    PA.Admissible(AdmissionRequest(c, n, world(n)))
  }

  /** Segment `n` leads to the next one: its plan is refused by admission, or its Mission is over and more is to
      do. */
  ghost predicate LeadsOn(c: Config, world: nat -> Segment, n: nat) {
    Plans(c, world(n)) && (Admitted(c, world, n) ==> Continues(world(n).reply))
  }

  /** The plan of segment `n` is posted: all segments before it led on to it, and it is admitted. */
  ghost predicate Posted(c: Config, world: nat -> Segment, maxSegments: nat, n: nat) {
    && 1 <= n <= maxSegments && (forall m | 1 <= m < n :: LeadsOn(c, world, m))
    && Plans(c, world(n)) && Admitted(c, world, n)
  }

  function SubmissionOf(world: nat -> Segment, n: nat): Submission {
    Submission(n, |world(n).plan.tasks|, world(n).steps, world(n).reply)
  }

  /** The records of a run: exactly the posted segments below `n`, in order. */
  ghost predicate Records(c: Config, world: nat -> Segment, maxSegments: nat, n: nat, s: seq<Submission>) {
    && (forall i, j | 0 <= i < j < |s| :: s[i].segment < s[j].segment)
    && (forall i | 0 <= i < |s| ::
          && s[i] == SubmissionOf(world, s[i].segment) && s[i].segment < n
          && Posted(c, world, maxSegments, s[i].segment))
    && (forall m: nat | m < n && Posted(c, world, maxSegments, m) :: exists i :: 0 <= i < |s| && s[i].segment == m)
  }

  /** The runner object: what it keeps across segments. */
  class Runner {
    var submitted: seq<Submission>
    var flags: Flags

    constructor ()
      ensures submitted == [] && flags == NO_FLAGS
    {
      submitted, flags := [], NO_FLAGS;
    }

    /** The segment loop. `world(n)` is what the world answers in segment `n`; exactly the segments whose
        predecessors all lead on to them are posted, in order. */
    method Run(c: Config, maxSegments: nat, world: nat -> Segment)
      requires submitted == [] && flags == NO_FLAGS
      modifies this
      ensures Records(c, world, maxSegments, maxSegments + 1, submitted)
      ensures flags == LastFlags(submitted)
    {
      hide PA.Admissible, PA.IsScheduled, PA.Justified, PA.ChecksBeforeLoop, PA.CheckerFor, LastFlags, Records;
      NothingRecorded(c, world, maxSegments);
      for n := 1 to maxSegments + 1
        invariant Records(c, world, maxSegments, n, submitted) && flags == LastFlags(submitted)
        invariant forall m | 1 <= m < n :: LeadsOn(c, world, m)
      {
        var s := world(n);
        StopsWithout(c, world, maxSegments, n, submitted);
        if s.steps >= c.maxSteps {
          return;
        }
        if s.goal {
          return;
        }
        if !s.planned {
          return;
        }
        var outcome := PA.ValidatePlan(AdmissionRequest(c, n, s));
        if outcome.Rejected? {
          continue;
        }
        ghost var before := submitted;
        submitted := submitted + [Submission(n, |s.plan.tasks|, s.steps, s.reply)];
        RecordsNext(c, world, maxSegments, n, before);
        LastFlagsNext(before, submitted[|before|]);
        if !s.reply.Accepted? {
          return;
        }
        if s.reply.wait.Interrupted? {
          return;
        }
        var e := s.reply.wait.evidence;
        flags := FlagsOf(e);
        if !s.reply.wait.filed {
          return;
        }
        var decision := Decide(e);
        if decision.GoalReached? || decision.Unsafe? {
          return;
        }
      }
    }
  }

  lemma NothingRecorded(c: Config, world: nat -> Segment, maxSegments: nat)
    ensures Records(c, world, maxSegments, 1, []) && LastFlags([]) == NO_FLAGS
  {
  }

  /** When segment `n` does not lead on, nothing after it is posted; when it is not posted either, the records
      stay. */
  lemma StopsWithout(c: Config, world: nat -> Segment, maxSegments: nat, n: nat, s: seq<Submission>)
    requires 1 <= n <= maxSegments && Records(c, world, maxSegments, n, s)
    ensures !(Plans(c, world(n)) && Admitted(c, world, n)) ==> Records(c, world, maxSegments, n + 1, s)
    ensures !Plans(c, world(n)) ==> Records(c, world, maxSegments, maxSegments + 1, s)
  {
    hide PA.Admissible;
    forall m: nat | n < m && Posted(c, world, maxSegments, m) ensures LeadsOn(c, world, n) {}
  }

  lemma RecordsNext(c: Config, world: nat -> Segment, maxSegments: nat, n: nat, s: seq<Submission>)
    requires 1 <= n <= maxSegments && Records(c, world, maxSegments, n, s)
    requires Posted(c, world, maxSegments, n)
    ensures Records(c, world, maxSegments, n + 1, s + [SubmissionOf(world, n)])
    ensures !LeadsOn(c, world, n) ==> Records(c, world, maxSegments, maxSegments + 1, s + [SubmissionOf(world, n)])
  {
    hide PA.Admissible;
    var t := s + [SubmissionOf(world, n)];
    forall m: nat | m <= maxSegments && Posted(c, world, maxSegments, m) && (m <= n || !LeadsOn(c, world, n))
      ensures exists i :: 0 <= i < |t| && t[i].segment == m
    {
      if m < n {
        var i :| 0 <= i < |s| && s[i].segment == m;
        assert t[i].segment == m;
      } else {
        assert t[|s|].segment == n;
      }
    }
  }

  ghost function Last(s: seq<Submission>): Submission
    requires s != []
  {
    s[|s| - 1]
  }

  /** The flags left behind by a run: those of the last concluded wait. */
  ghost function LastFlags(s: seq<Submission>): Flags {
    if s == [] then NO_FLAGS
    else if Last(s).reply.Ended() then FlagsOf(Last(s).reply.wait.evidence)
    else LastFlags(s[..|s| - 1])
  }

  lemma LastFlagsNext(s: seq<Submission>, x: Submission)
    ensures LastFlags(s + [x]) == if x.reply.Ended() then FlagsOf(x.reply.wait.evidence) else LastFlags(s)
  {
    assert (s + [x])[..|s|] == s;
  }

  // ----- What may follow what -----

  /** Another Mission may follow exactly when the evidence says this one is over and the run is not finished. */
  lemma ReplanIff(e: Evidence)
    ensures Decide(e).Replan? <==> SafelyOver(e) && !Decide(e).GoalReached?
  {
  }

  /** Every Mission but the last was over, by the evidence in hand, before the next plan was posted. */
  ghost predicate NoOverlap(s: seq<Submission>) {
    forall i | 0 <= i < |s| - 1 :: s[i].reply.Ended() && SafelyOver(s[i].reply.wait.evidence)
  }

  /** Every Mission was admitted with at least one Task and no more Tasks than steps were left when read. */
  ghost predicate WithinBudget(c: Config, s: seq<Submission>) {
    forall i | 0 <= i < |s| :: 1 <= s[i].tasks && s[i].stepsBefore + s[i].tasks <= c.maxSteps
  }

  lemma AdmittedCount(c: Config, n: nat, s: Segment)
    requires PA.Admissible(AdmissionRequest(c, n, s))
    ensures 1 <= |s.plan.tasks| && s.steps + |s.plan.tasks| <= c.maxSteps
  {
    hide PA.Admissible;
    PA.AdmittedFits(AdmissionRequest(c, n, s));
  }

  /** In every run, whatever the world answers: a plan is posted only after every earlier Mission is over, and it fits
      into the steps that are left. */
  lemma RunsAreSafe(c: Config, world: nat -> Segment, maxSegments: nat, s: seq<Submission>)
    requires Records(c, world, maxSegments, maxSegments + 1, s)
    ensures NoOverlap(s) && WithinBudget(c, s)
  {
    hide PA.Admissible, SafelyOver;
    forall i | 0 <= i < |s| ensures 1 <= s[i].tasks && s[i].stepsBefore + s[i].tasks <= c.maxSteps {
      AdmittedCount(c, s[i].segment, world(s[i].segment));
    }
    forall i | 0 <= i < |s| - 1 ensures s[i].reply.Ended() && SafelyOver(s[i].reply.wait.evidence) {
      assert s[i].segment < s[i + 1].segment && LeadsOn(c, world, s[i].segment);
      ReplanIff(s[i].reply.wait.evidence);
    }
  }

  /** Every posted plan is the one planned for its own segment: it carries that segment's Mission id, and each of
      its Tasks is sound for the configured environment and task and for the robots of that segment. */
  lemma PostedPlansAreSound(
    c: Config, world: nat -> Segment, maxSegments: nat, s: seq<Submission>, i: nat, k: nat)
    returns (agent: int, action: string)
    requires Records(c, world, maxSegments, maxSegments + 1, s) && i < |s|
    requires k < |world(s[i].segment).plan.tasks|
    ensures var n := s[i].segment;
      && world(n).plan.missionId == c.missionId(n)
      && PT.SoundFor(PA.Request(world(n).plan, c.missionId(n), c.env, c.taskIndex, world(n).contexts,
                                c.maxSteps - world(n).steps, c.profile),
                     world(n).plan.tasks[k], agent, action)
  {
    hide PA.ShapeOk, PA.WellFormed, PT.SoundFor;
    var n := s[i].segment;
    agent, action := PT.AdmittedTasksAreSound(AdmissionRequest(c, n, world(n)), k);
  }

  // ----- The verdict -----

  /** The verdict of a run, given whether the goal holds in the final graph. */
  function Success(flags: Flags, goalAtEnd: bool): bool {
    goalAtEnd && flags.Any()
  }

  /** The last Mission the Controller has was seen to end the way a success claims. */
  ghost predicate LastConfirmed(s: seq<Submission>) {
    s != [] &&
    if Last(s).reply.Created() then Last(s).reply.Ended() && FlagsOf(Last(s).reply.wait.evidence).Any()
    else LastConfirmed(s[..|s| - 1])
  }

  /** The runner broke off after the Controller had the last Mission: while waiting for it, or because the answer to
      its submission was lost or was a refusal after all. */
  ghost predicate BrokeOff(s: seq<Submission>) {
    s != [] && Last(s).reply.Created() && !Last(s).reply.Ended()
  }

  /** A success is reported without a confirmed last Mission exactly when the run broke off after the Controller had
      it, and the Mission before it left a flag behind. */
  lemma MisreportedIff(
    c: Config, world: nat -> Segment, maxSegments: nat, s: seq<Submission>, goalAtEnd: bool)
    requires Records(c, world, maxSegments, maxSegments + 1, s)
    ensures Success(LastFlags(s), goalAtEnd) && !LastConfirmed(s) <==>
              && goalAtEnd && BrokeOff(s) && |s| >= 2
              && var before := s[|s| - 2].reply;
                 before.Ended() && (before.wait.evidence.status.Completed? || before.wait.evidence.Guarded())
  {
    RunsAreSafe(c, world, maxSegments, s);
    hide Records;
    if s != [] {
      var t := s[..|s| - 1];
      if t != [] { assert Last(t) == s[|s| - 2]; }
    }
  }

  /** So a run that never broke off reports success only for a confirmed Mission. */
  lemma UnbrokenRunReportsTruly(
    c: Config, world: nat -> Segment, maxSegments: nat, s: seq<Submission>, goalAtEnd: bool)
    requires Records(c, world, maxSegments, maxSegments + 1, s) && !BrokeOff(s)
    ensures Success(LastFlags(s), goalAtEnd) ==> LastConfirmed(s)
  {
    MisreportedIff(c, world, maxSegments, s, goalAtEnd);
  }

  /** The evidence of a Mission that a success may rest on: it completed; or it was cancelled by an accepted
      request after the goal was reached, and the goal holds; or the goal guard cancelled one of its local
      executions. */
  ghost predicate Confirms(e: Evidence) {
    || e.status == Completed
    || (e.status == Cancelled && e.goalCancelReply == Some(202) && e.goal)
    || LocalCancelled(true) in e.local
  }

  /** When a run reports success, in full: the goal holds in the final graph and the last wait that ended confirms
      it. That is the wait for the last posted Mission, or, when that one never ended, the wait before it. */
  lemma ReportsSuccessIff(c: Config, world: nat -> Segment, maxSegments: nat, s: seq<Submission>, goalAtEnd: bool)
    requires Records(c, world, maxSegments, maxSegments + 1, s)
    ensures Success(LastFlags(s), goalAtEnd) <==>
      && goalAtEnd && s != []
      && if Last(s).reply.Ended() then Confirms(Last(s).reply.wait.evidence)
         else |s| >= 2 && s[|s| - 2].reply.Ended() && Confirms(s[|s| - 2].reply.wait.evidence)
  {
    RunsAreSafe(c, world, maxSegments, s);
    hide Records, FlagsOf, Confirms, Evidence.Guarded, Evidence.CancelledAfterGoal, SafelyOver;
    if s != [] && Last(s).reply.Ended() {
      FlagsConfirm(Last(s).reply.wait.evidence);
    } else if s != [] {
      var t := s[..|s| - 1];
      if t != [] {
        assert Last(t) == s[|s| - 2];
        FlagsConfirm(Last(t).reply.wait.evidence);
      }
    }
  }

  lemma FlagsConfirm(e: Evidence)
    ensures FlagsOf(e).Any() <==> Confirms(e)
  {
  }

  /** The decision after a wait, on the evidence itself: stop when the goal holds and is confirmed; else go on
      when the Mission completed, or failed with local executions and Controller attempts that are all terminal;
      else stop. */
  lemma DecisionIs(e: Evidence)
    ensures Decide(e).GoalReached? <==> e.goal && Confirms(e)
    ensures Decide(e).Replan? <==>
      && !(e.goal && Confirms(e))
      && (|| e.status == Completed
          || (&& e.status == Failed && e.local != [] && LocalOpen !in e.local
              && e.attempts.Some? && e.attempts.value != [] && Unfinished !in e.attempts.value))
  {
  }

  // ----- Worlds in which it misreports -----

  function ExampleConfig(profile: PA.Profile): Config { Config("env", 0, profile, 3, _ => "m") }

  /** The same admissible plan in every segment. */
  function ExampleSegment(steps: nat, reply: Reply): Segment {
    Segment(steps, false, true, PA.Plan("m", 1, [PA.ExampleTask()]), PA.ExampleContexts(), reply)
  }

  /** A first Mission that completes, then a second one with the given answer. */
  function ExampleAnswer(reply: Reply, n: nat): Segment {
    var completed := Evidence(Completed, None, false, [LocalCompleted], Some([Completed]));
    if n <= 1 then ExampleSegment(0, Accepted(Concluded(completed, true))) else ExampleSegment(1, reply)
  }

  function ExampleWorld(reply: Reply): nat -> Segment { (n: nat) => ExampleAnswer(reply, n) }

  lemma ExampleAdmitted(profile: PA.Profile, reply: Reply, n: nat)
    requires !profile.Unsupported?
    ensures Plans(ExampleConfig(profile), ExampleWorld(reply)(n))
    ensures Admitted(ExampleConfig(profile), ExampleWorld(reply), n)
  {
    hide PA.Admissible, PA.ExampleTask, PA.ExampleContexts;
    var c, s := ExampleConfig(profile), ExampleWorld(reply)(n);
    assert AdmissionRequest(c, n, s) == PA.ExampleRequest("m", c.maxSteps - s.steps, profile);
    PA.ExampleIsAdmissible("m", c.maxSteps - s.steps, profile);
  }

  /** Whenever the second Mission is with the Controller and the runner breaks off, by a lost answer, a refusal that
      came too late or a broken wait, this run of two segments reports a success nobody saw. */
  lemma StaleFlagMisreports(profile: PA.Profile, reply: Reply) returns (s: seq<Submission>)
    requires !profile.Unsupported? && reply in {Lost(true), Refused(true), Accepted(Interrupted)}
    ensures Records(ExampleConfig(profile), ExampleWorld(reply), 2, 3, s)
    ensures Success(LastFlags(s), true) && !LastConfirmed(s)
  {
    hide PA.Admissible, ExampleSegment;
    var c, world := ExampleConfig(profile), ExampleWorld(reply);
    ExampleAdmitted(profile, reply, 1);
    ExampleAdmitted(profile, reply, 2);
    assert LeadsOn(c, world, 1) by { FirstLeadsOn(reply); }
    assert world(2).reply == reply by { SecondReply(reply); }
    NothingRecorded(c, world, 2);
    s := [] + [SubmissionOf(world, 1)];
    RecordsNext(c, world, 2, 1, []);
    RecordsNext(c, world, 2, 2, s);
    s := s + [SubmissionOf(world, 2)];
    FirstLeadsOn(reply);
    MisreportedIff(c, world, 2, s, true);
  }

  lemma FirstLeadsOn(reply: Reply)
    ensures var first := ExampleWorld(reply)(1).reply;
      Continues(first) && first.wait.evidence.status.Completed?
  {
  }

  lemma SecondReply(reply: Reply)
    ensures ExampleWorld(reply)(2).reply == reply
  {
  }
}
