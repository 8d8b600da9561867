/** The process wrapper that hides an injected crash from the runner until cleanup (`SuppressedExitProcess`), its
    interleaving with the injector, and the cleanup itself (`stop_processes`). */
module HiddenExit {
  import opened Wrappers

  /** Why the real child is gone: killed by the injector, or for any reason of its own. */
  datatype Cause = Injected | Own

  // ----- Polling while the injector works -----

  /** The runner is between polls, or has read the real child's status but not yet the wrapper's flags. */
  datatype Poll = Idle | Read(status: Option<Cause>)

  /** The injector: before it marks the child; marked, not yet killed; killed; given up after marking. */
  datatype Injector = Before | Marked | Killed | GaveUp

  datatype State = State(child: Option<Cause>, suppress: bool, cleanup: bool, injector: Injector, poll: Poll)

  datatype Action =
    | Mark               // suppress_exit := true
    | Kill               // the real child's kill
    | GiveUp             // any failure of the injector between the two
    | Exit               // the child exits by itself
    | ReadStatus         // the first half of the wrapper's poll
    | Answer             // the second half: read the flags and return
    | Cleanup            // the runner's send_signal or kill on the wrapper

  predicate Enabled(s: State, a: Action) {
    match a
    case Mark => s.injector.Before?
    case Kill => s.injector.Marked?
    case GiveUp => s.injector.Marked?
    case Exit => s.child.None?
    case ReadStatus => s.poll.Idle?
    case Answer => s.poll.Read?
    case Cleanup => s.poll.Idle?
  }

  function Apply(s: State, a: Action): State
    requires Enabled(s, a)
  {
    match a
    case Mark => s.(suppress := true, injector := Marked)
    case Kill => s.(child := if s.child.None? then Some(Injected) else s.child, injector := Killed)
    case GiveUp => s.(injector := GaveUp)
    case Exit => s.(child := Some(Own))
    case ReadStatus => s.(poll := Read(s.child))
    case Answer => s.(poll := Idle)
    case Cleanup => s.(cleanup := true)
  }

  /** What the wrapper's poll returns when it answers in state `s`. */
  function Answered(s: State): Option<Cause>
    requires s.poll.Read?
  {
    if s.suppress && !s.cleanup && s.poll.status.Some? then None else s.poll.status
  }

  ghost predicate Run(ss: seq<State>, acts: seq<Action>) {
    && |ss| == |acts| + 1 && ss[0] == State(None, false, false, Before, Idle)
    && (forall n | 0 <= n < |acts| :: Enabled(ss[n], acts[n]) && ss[n + 1] == Apply(ss[n], acts[n]))
  }

  /** Only a marked child is killed, and the mark stays. */
  ghost predicate Inv(s: State) {
    && (s.suppress <==> !s.injector.Before?)
    && (s.child == Some(Injected) ==> s.injector.Killed?)
    && (s.poll.Read? && s.poll.status.Some? ==> s.child == s.poll.status)
  }

  lemma {:induction false} RunKeepsInv(ss: seq<State>, acts: seq<Action>, n: nat)
    requires Run(ss, acts) && n < |ss|
    ensures Inv(ss[n])
  {
    if n > 0 { RunKeepsInv(ss, acts, n - 1); }
  }

  /** In every interleaving an injected crash is never visible to a poll before cleanup starts, and a poll hides an
      exit exactly while the child is marked and cleanup has not started. */
  lemma InjectedCrashIsHidden(ss: seq<State>, acts: seq<Action>, n: nat)
    requires Run(ss, acts) && n < |acts| && acts[n].Answer?
    ensures !ss[n].cleanup ==> Answered(ss[n]) != Some(Injected)
    ensures ss[n].poll.status.Some? ==> (Answered(ss[n]).None? <==> !ss[n].injector.Before? && !ss[n].cleanup)
  {
    RunKeepsInv(ss, acts, n);
  }

  ghost predicate CleanedUp(acts: seq<Action>, n: nat)
    requires n <= |acts|
  {
    exists k :: 0 <= k < n && acts[k].Cleanup?
  }

  lemma CleanedUpNext(acts: seq<Action>, n: nat)
    requires 0 < n <= |acts|
    ensures CleanedUp(acts, n) <==> CleanedUp(acts, n - 1) || acts[n - 1].Cleanup?
  {
  }

  /** The hiding ends with the first cleanup and never begins again. */
  lemma {:induction false} CleanupEndsHiding(ss: seq<State>, acts: seq<Action>, n: nat)
    requires Run(ss, acts) && n < |ss|
    ensures ss[n].cleanup <==> CleanedUp(acts, n)
    ensures CleanedUp(acts, n) && ss[n].poll.Read? ==> Answered(ss[n]) == ss[n].poll.status
  {
    if n > 0 {
      hide CleanedUp;
      CleanupEndsHiding(ss, acts, n - 1);
      CleanedUpNext(acts, n);
    }
  }

  lemma {:induction false} ExitStays(ss: seq<State>, acts: seq<Action>, m: nat, n: nat)
    requires Run(ss, acts) && m <= n < |ss| && ss[m].child.Some?
    ensures ss[n].child == ss[m].child
    decreases n
  {
    if m < n { ExitStays(ss, acts, m, n - 1); }
  }

  /** The first poll that starts after an exit sees it, unless the child is marked and cleanup has not started. */
  lemma ExitIsVisible(ss: seq<State>, acts: seq<Action>, m: nat, r: nat, n: nat)
    requires Run(ss, acts) && m <= r < n < |acts| && ss[m].child.Some?
    requires acts[r].ReadStatus? && acts[n].Answer? && (forall k | r < k < n :: !acts[k].Answer?)
    ensures Answered(ss[n]) == if ss[n].suppress && !ss[n].cleanup then None else ss[m].child
  {
    ExitStays(ss, acts, m, r);
    PollKept(ss, acts, r, n);
  }

  lemma {:induction false} PollKept(ss: seq<State>, acts: seq<Action>, r: nat, n: nat)
    requires Run(ss, acts) && r < n < |ss| && acts[r].ReadStatus? && (forall k | r < k < n :: !acts[k].Answer?)
    ensures ss[n].poll == Read(ss[r].child)
    decreases n
  {
    if r + 1 < n { PollKept(ss, acts, r, n - 1); }
  }

  /** The mark outlives a failed injection: a run in which a child that then exits by itself is reported as alive. */
  lemma GenuineExitIsHidden() returns (ss: seq<State>, acts: seq<Action>)
    ensures Run(ss, acts) && |acts| > 0 && acts[|acts| - 1].Answer?
    ensures var s := ss[|acts| - 1]; s.poll.Read? && s.child == Some(Own) && Answered(s) == None
  {
    acts := [Mark, GiveUp, Exit, ReadStatus, Answer];
    var marked := State(None, true, false, Marked, Idle);
    var exited := State(Some(Own), true, false, GaveUp, Idle);
    ss := [State(None, false, false, Before, Idle), marked, marked.(injector := GaveUp), exited,
           exited.(poll := Read(Some(Own))), exited];
  }

  // ----- Stopping the children -----

  /** A child as the cleanup sees it. `obeys`: it exits in time after SIGTERM. `mortal`: it exits in time after
      SIGKILL. An ordinary child is never marked. */
  class Child {
    const obeys: bool
    const mortal: bool
    var exited: bool
    var suppress: bool
    var cleanup: bool
    var signalled: bool
    var reaped: bool
    var closed: bool

    constructor (obeys: bool, mortal: bool)
      ensures this.obeys == obeys && this.mortal == mortal
      ensures !exited && !suppress && !cleanup && !signalled && !reaped && !closed
    {
      this.obeys, this.mortal := obeys, mortal;
      exited, suppress, cleanup, signalled, reaped, closed := false, false, false, false, false, false;
    }

    /** The wrapper's answer: alive, or hidden as alive. */
    function LooksAlive(): bool
      reads this
    {
      !exited || (suppress && !cleanup)
    }

    method SendSignal()
      modifies this`cleanup, this`signalled, this`exited
      ensures cleanup
      ensures signalled == (old(signalled) || !old(exited))
      ensures exited == (old(exited) || obeys)
    {
      cleanup := true;
      if !exited {
        signalled := true;
        exited := obeys;
      }
    }

    method Wait() returns (inTime: bool)
      modifies this`reaped
      ensures inTime == exited && reaped == (old(reaped) || exited)
    {
      inTime := exited;
      reaped := reaped || exited;
    }

    method Kill()
      modifies this`cleanup, this`exited
      ensures cleanup && exited == (old(exited) || mortal)
    {
      cleanup := true;
      exited := exited || mortal;
    }

    method Close()
      modifies this`closed
      ensures closed
    {
      closed := true;
    }
  }

  /** The cleanup asks the same question as the runner's polls: a child looks alive exactly when a poll answers
      nothing. */
  lemma LooksAliveIsThePoll(c: Child, s: State)
    requires s.child.Some? == c.exited && s.suppress == c.suppress && s.cleanup == c.cleanup && s.poll == Read(s.child)
    ensures c.LooksAlive() <==> Answered(s) == None
  {
  }

  /** A child that outlives SIGTERM and SIGKILL. */
  ghost predicate Resists(c: Child)
    reads c
  {
    !c.exited && !c.obeys && !c.mortal
  }

  ghost predicate Distinct(children: seq<Child>) {
    forall i, j | 0 <= i < j < |children| :: children[i] != children[j]
  }

  ghost predicate Done(c: Child)
    reads c
  {
    c.exited && c.reaped && c.closed
  }

  /** The first loop: SIGTERM to every child that looks alive, last started first. */
  method SignalAll(children: seq<Child>)
    requires Distinct(children)
    modifies children
    ensures forall k | 0 <= k < |children| :: var c := children[k];
      && c.exited == (old(c.exited) || c.obeys) && c.signalled == (old(c.signalled) || !old(c.exited))
      && c.suppress == old(c.suppress) && c.reaped == old(c.reaped) && c.closed == old(c.closed)
      && c.cleanup == (old(c.cleanup) || !old(c.exited) || old(c.suppress))
      && !(c.exited && c.LooksAlive())
  {
    var i := |children|;
    while i > 0
      invariant 0 <= i <= |children|
      invariant forall k | i <= k < |children| :: var c := children[k];
        && c.exited == (old(c.exited) || c.obeys) && c.signalled == (old(c.signalled) || !old(c.exited))
        && c.suppress == old(c.suppress) && c.reaped == old(c.reaped) && c.closed == old(c.closed)
        && c.cleanup == (old(c.cleanup) || !old(c.exited) || old(c.suppress))
        && !(c.exited && c.LooksAlive())
      invariant forall k | 0 <= k < i :: var c := children[k];
        && c.exited == old(c.exited) && c.signalled == old(c.signalled) && c.cleanup == old(c.cleanup)
        && c.suppress == old(c.suppress) && c.reaped == old(c.reaped) && c.closed == old(c.closed)
    {
      i := i - 1;
      var c := children[i];
      if c.LooksAlive() {
        c.SendSignal();
      }
    }
  }

  /** The second loop: wait for every child, last started first, and kill one that does not end in time. A child that
      survives that as well ends the loop with an exception. */
  method WaitAll(children: seq<Child>) returns (failed: Option<nat>)
    requires Distinct(children)
    modifies children
    ensures forall k | 0 <= k < |children| :: children[k].signalled == old(children[k].signalled)
    ensures failed.None? ==> forall k | 0 <= k < |children| :: old(Ends(children[k])) && Done(children[k])
    ensures failed.Some? ==>
      && failed.value < |children| && !old(Ends(children[failed.value]))
      && (forall k | failed.value < k < |children| :: old(Ends(children[k])) && Done(children[k]))
      && (forall k | 0 <= k <= failed.value ::
            children[k].reaped == old(children[k].reaped) && children[k].closed == old(children[k].closed))
  {
    var i := |children|;
    while i > 0
      invariant 0 <= i <= |children|
      invariant forall k | i <= k < |children| :: old(Ends(children[k])) && Done(children[k])
      invariant forall k | 0 <= k < i ::
        && children[k].exited == old(children[k].exited)
        && children[k].reaped == old(children[k].reaped) && children[k].closed == old(children[k].closed)
      invariant forall k | 0 <= k < |children| :: children[k].signalled == old(children[k].signalled)
    {
      i := i - 1;
      var c := children[i];
      var inTime := c.Wait();
      if !inTime {
        c.Kill();
        inTime := c.Wait();
        if !inTime {
          return Some(i);
        }
      }
      c.Close();
    }
    failed := None;
  }

  /** Whether the child ends at all once it is killed. */
  ghost predicate Ends(c: Child)
    reads c
  {
    c.exited || c.mortal
  }

  /** Both loops. Every child is reaped and its log closed exactly when none outlives SIGKILL, whatever was hidden
      or already dead before. Otherwise the wait for the last such child is given up with an exception: the children
      started after it are done, those before it were signalled but not waited for. */
  method StopProcesses(children: seq<Child>) returns (failed: Option<nat>)
    requires Distinct(children)
    modifies children
    ensures forall k | 0 <= k < |children| ::
      children[k].signalled == old(children[k].signalled || !children[k].exited)
    ensures failed.None? <==> forall k | 0 <= k < |children| :: !old(Resists(children[k]))
    ensures failed.None? ==> forall k | 0 <= k < |children| :: Done(children[k])
    ensures failed.Some? ==>
      && failed.value < |children| && old(Resists(children[failed.value]))
      && (forall k | failed.value < k < |children| :: !old(Resists(children[k])) && Done(children[k]))
      && (forall k | 0 <= k <= failed.value ::
            children[k].reaped == old(children[k].reaped) && children[k].closed == old(children[k].closed))
  {
    SignalAll(children);
    assert forall k | 0 <= k < |children| :: Ends(children[k]) == !old(Resists(children[k]));
    failed := WaitAll(children);
  }
}
