/** The adapter's bounded request workers: a bounded semaphore of connection permits, a reported active count
    and a saturating counter of refusals. Each lock section and each semaphore operation is one step; accepting,
    refusing, failed thread starts and finishing workers interleave freely. A thread start either fails without
    a thread or succeeds. */
module BoundedWorkers {
  import opened Wrappers

  const MAX_COUNT: nat := 0xFFFF_FFFF_FFFF_FFFF

  // ----- The shared counters -----

  /** `free` are the permits left in the semaphore. */
  datatype Counters = Counters(limit: nat, free: nat, active: int, rejected: nat) {

    function Saturated(): Counters {
      this.(rejected := if rejected < MAX_COUNT then rejected + 1 else MAX_COUNT)
    }
  }

  predicate ValidLimit(limit: int) { 1 <= limit <= 1024 }

  class Transport {
    var limit: nat
    var free: nat
    var active: int
    var rejected: nat

    function Contents(): Counters
      reads this
    {
      Counters(limit, free, active, rejected)
    }

    constructor (connectionLimit: nat)
      requires ValidLimit(connectionLimit)
      ensures Contents() == Counters(connectionLimit, connectionLimit, 0, 0)
    {
      limit, free, active, rejected := connectionLimit, connectionLimit, 0, 0;
    }

    /** Capacity is validated before any listener is bound; a configured server can start a run. */
    static method Configure(connectionLimit: int, timeoutSeconds: real) returns (t: Option<Transport>)
      ensures t.Some? <==> 1 <= connectionLimit <= 1024 && 0.0 < timeoutSeconds <= 900.0
      ensures t.Some? ==> fresh(t.value) && Initial(Server(t.value.Contents(), map[]), connectionLimit)
    {
      if !ValidLimit(connectionLimit) || !(0.0 < timeoutSeconds <= 900.0) {
        return None;
      }
      var transport := new Transport(connectionLimit);
      return Some(transport);
    }

    /** Non-blocking acquire. */
    method TryAcquire() returns (ok: bool)
      modifies this
      ensures ok == (old(free) > 0)
      ensures Contents() == if ok then old(Contents()).(free := old(free) - 1) else old(Contents())
    {
      ok := free > 0;
      if ok {
        free := free - 1;
      }
    }

    method CountRejected()
      modifies this
      ensures Contents() == old(Contents()).Saturated()
    {
      rejected := if rejected < MAX_COUNT then rejected + 1 else MAX_COUNT;
    }

    method Count(delta: int)
      modifies this
      ensures Contents() == old(Contents()).(active := old(active) + delta)
    {
      active := active + delta;
    }

    /** The bounded semaphore refuses a release beyond its limit. */
    method Release() returns (ok: bool)
      modifies this
      ensures ok == (old(free) < limit)
      ensures Contents() == if ok then old(Contents()).(free := old(free) + 1) else old(Contents())
    {
      ok := free < limit;
      if ok {
        free := free + 1;
      }
    }
  }

  // ----- Connections -----

  type Connection = nat

  /** How far one accepted or refused connection has come. */
  datatype Phase = Acquired | Counted | Serving | Leaving | Uncounted | Closed | Refusing | Refused {

    /** Between acquire and release. */
    predicate Holds() { Acquired? || Counted? || Serving? || Leaving? || Uncounted? }

    /** Between the two updates of the active count. */
    predicate Active() { Counted? || Serving? || Leaving? }
  }

  datatype Server = Server(counters: Counters, phases: map<Connection, Phase>)

  datatype Action =
    | Arrive(c: Connection)
    | Reject(c: Connection)
    | CountIn(c: Connection)
    | Spawn(c: Connection, started: bool)
    | Finish(c: Connection)
    | CountOut(c: Connection)
    | GiveBack(c: Connection)

  predicate In(s: Server, c: Connection, p: Phase) {
    c in s.phases && s.phases[c] == p
  }

  predicate Enabled(s: Server, a: Action) {
    match a
    case Arrive(c) => c !in s.phases
    case Reject(c) => In(s, c, Refusing)
    case CountIn(c) => In(s, c, Acquired)
    case Spawn(c, _) => In(s, c, Counted)
    case Finish(c) => In(s, c, Serving)
    case CountOut(c) => In(s, c, Leaving)
    case GiveBack(c) => In(s, c, Uncounted)
  }

  function Apply(s: Server, a: Action): Server
    requires Enabled(s, a)
  {
    var k := s.counters;
    match a
    case Arrive(c) =>
      if k.free > 0 then Server(k.(free := k.free - 1), s.phases[c := Acquired])
      else Server(k, s.phases[c := Refusing])
    case Reject(c) => Server(k.Saturated(), s.phases[c := Refused])
    case CountIn(c) => Server(k.(active := k.active + 1), s.phases[c := Counted])
    case Spawn(c, started) => Server(k, s.phases[c := if started then Serving else Leaving])
    case Finish(c) => Server(k, s.phases[c := Leaving])
    case CountOut(c) => Server(k.(active := k.active - 1), s.phases[c := Uncounted])
    case GiveBack(c) => Server(if k.free < k.limit then k.(free := k.free + 1) else k, s.phases[c := Closed])
  }

  ghost function Holders(s: Server): set<Connection> {
    set c | c in s.phases && s.phases[c].Holds()
  }

  ghost function Counting(s: Server): set<Connection> {
    set c | c in s.phases && s.phases[c].Active()
  }

  ghost function Turned(s: Server): set<Connection> {
    set c | c in s.phases && s.phases[c].Refused?
  }

  /** Permits are conserved, the active count counts, and the refusal counter saturates. */
  ghost predicate Conserved(s: Server) {
    && s.counters.free + |Holders(s)| == s.counters.limit
    && s.counters.active == |Counting(s)|
    && s.counters.rejected == if |Turned(s)| < MAX_COUNT then |Turned(s)| else MAX_COUNT
  }

  /** Moving one connection to another phase changes the holders by that connection only. */
  lemma HoldersMoved(s: Server, t: Server, c: Connection, p: Phase)
    requires t.phases == s.phases[c := p]
    ensures Holders(t) == if p.Holds() then Holders(s) + {c} else Holders(s) - {c}
    ensures c in Holders(s) <==> c in s.phases && s.phases[c].Holds()
  {
  }

  lemma HoldersAfter(s: Server, a: Action)
    requires Enabled(s, a)
    ensures |Holders(Apply(s, a))| ==
            |Holders(s)| + (if a.Arrive? && s.counters.free > 0 then 1 else if a.GiveBack? then -1 else 0)
  {
    hide Holders;
    var t := Apply(s, a);
    HoldersMoved(s, t, a.c, t.phases[a.c]);
    assert a.c in Holders(s) ==> Holders(s) + {a.c} == Holders(s);
    assert a.c !in Holders(s) ==> Holders(s) - {a.c} == Holders(s);
  }

  lemma CountingMoved(s: Server, t: Server, c: Connection, p: Phase)
    requires t.phases == s.phases[c := p]
    ensures Counting(t) == if p.Active() then Counting(s) + {c} else Counting(s) - {c}
    ensures c in Counting(s) <==> c in s.phases && s.phases[c].Active()
  {
  }

  lemma CountingAfter(s: Server, a: Action)
    requires Enabled(s, a)
    ensures |Counting(Apply(s, a))| == |Counting(s)| + (if a.CountIn? then 1 else if a.CountOut? then -1 else 0)
  {
    hide Counting;
    var t := Apply(s, a);
    CountingMoved(s, t, a.c, t.phases[a.c]);
    assert a.c in Counting(s) ==> Counting(s) + {a.c} == Counting(s);
    assert a.c !in Counting(s) ==> Counting(s) - {a.c} == Counting(s);
  }

  lemma TurnedMoved(s: Server, t: Server, c: Connection, p: Phase)
    requires t.phases == s.phases[c := p]
    ensures Turned(t) == if p.Refused? then Turned(s) + {c} else Turned(s) - {c}
    ensures c in Turned(s) <==> c in s.phases && s.phases[c].Refused?
  {
  }

  lemma TurnedAfter(s: Server, a: Action)
    requires Enabled(s, a)
    ensures |Turned(Apply(s, a))| == |Turned(s)| + (if a.Reject? then 1 else 0)
  {
    hide Turned;
    var t := Apply(s, a);
    TurnedMoved(s, t, a.c, t.phases[a.c]);
    assert a.c !in Turned(s) ==> Turned(s) - {a.c} == Turned(s);
  }

  lemma ActionConserves(s: Server, a: Action)
    requires Conserved(s) && Enabled(s, a)
    ensures Conserved(Apply(s, a))
    ensures a.GiveBack? ==> s.counters.free < s.counters.limit
    ensures Apply(s, a).counters.limit == s.counters.limit
    ensures s.counters.rejected <= Apply(s, a).counters.rejected
  {
    hide Holders, Counting, Turned;
    HoldersAfter(s, a);
    CountingAfter(s, a);
    TurnedAfter(s, a);
  }

  // ----- Every run -----

  /** A configured server before its first connection. */
  ghost predicate Initial(s: Server, limit: nat) {
    ValidLimit(limit) && s == Server(Counters(limit, limit, 0, 0), map[])
  }

  ghost predicate Run(ss: seq<Server>, acts: seq<Action>, limit: nat) {
    && |ss| == |acts| + 1 && Initial(ss[0], limit)
    && (forall n | 0 <= n < |acts| :: Enabled(ss[n], acts[n]) && ss[n + 1] == Apply(ss[n], acts[n]))
  }

  lemma {:induction false} RunConserves(ss: seq<Server>, acts: seq<Action>, limit: nat, n: nat)
    requires Run(ss, acts, limit) && n < |ss|
    ensures Conserved(ss[n]) && ss[n].counters.limit == limit
  {
    hide Apply, Enabled;
    if n == 0 {
      assert Holders(ss[0]) == {} && Counting(ss[0]) == {} && Turned(ss[0]) == {};
    } else {
      RunConserves(ss, acts, limit, n - 1);
      ActionConserves(ss[n - 1], acts[n - 1]);
    }
  }

  /** At every moment of every run the permits add up to the limit, the reported active count is between zero
      and the permits held, and the bounded semaphore is never released beyond its limit. */
  lemma PermitsConserved(ss: seq<Server>, acts: seq<Action>, limit: nat, n: nat)
    requires Run(ss, acts, limit) && n < |ss|
    ensures ss[n].counters.free + |Holders(ss[n])| == limit
    ensures 0 <= ss[n].counters.active <= |Holders(ss[n])| <= limit
    ensures n < |acts| && acts[n].GiveBack? ==> ss[n].counters.free < limit
  {
    RunConserves(ss, acts, limit, n);
    SubsetSize(Counting(ss[n]), Holders(ss[n]));
    if n < |acts| { ActionConserves(ss[n], acts[n]); }
  }

  // ----- Each connection once -----

  ghost predicate TakesPermit(ss: seq<Server>, acts: seq<Action>, n: nat, c: Connection)
    requires |ss| == |acts| + 1
  {
    n < |acts| && acts[n] == Arrive(c) && ss[n].counters.free > 0
  }

  /** A connection past its release stays closed. */
  lemma {:induction false} ClosedForever(ss: seq<Server>, acts: seq<Action>, limit: nat, c: Connection, m: nat, n: nat)
    requires Run(ss, acts, limit) && m <= n < |ss| && In(ss[m], c, Closed)
    ensures In(ss[n], c, Closed)
  {
    if m < n { ClosedForever(ss, acts, limit, c, m, n - 1); }
  }

  /** A connection that holds a permit took it at one earlier moment. */
  lemma {:induction false} HolderTookPermit(ss: seq<Server>, acts: seq<Action>, limit: nat, c: Connection, n: nat)
      returns (m: nat)
    requires Run(ss, acts, limit) && n < |ss|
    requires c in ss[n].phases && (ss[n].phases[c].Holds() || ss[n].phases[c].Closed?)
    ensures m < n && TakesPermit(ss, acts, m, c)
  {
    if acts[n - 1] == Arrive(c) {
      m := n - 1;
    } else {
      m := HolderTookPermit(ss, acts, limit, c, n - 1);
    }
  }

  /** A closed connection gave its permit back. */
  lemma {:induction false} ClosedGaveBack(ss: seq<Server>, acts: seq<Action>, limit: nat, c: Connection, n: nat)
      returns (g: nat)
    requires Run(ss, acts, limit) && n < |ss| && In(ss[n], c, Closed)
    ensures g < n && acts[g] == GiveBack(c)
  {
    if acts[n - 1] == GiveBack(c) {
      g := n - 1;
    } else {
      g := ClosedGaveBack(ss, acts, limit, c, n - 1);
    }
  }

  /** Every permit is given back at most once, and only by a connection that took one. */
  lemma PermitReturnedOnce(ss: seq<Server>, acts: seq<Action>, limit: nat, c: Connection, i: nat, j: nat)
      returns (m: nat)
    requires Run(ss, acts, limit) && i < |acts| && j < |acts| && acts[i] == GiveBack(c) && acts[j] == GiveBack(c)
    ensures i == j && m < i && TakesPermit(ss, acts, m, c)
  {
    if i < j {
      ClosedForever(ss, acts, limit, c, i + 1, j);
    } else if j < i {
      ClosedForever(ss, acts, limit, c, j + 1, i);
    }
    m := HolderTookPermit(ss, acts, limit, c, i);
  }

  /** A connection is served, and its handling ends, only after its thread was started; one whose thread failed to
      start goes straight to giving its permit back. */
  lemma {:induction false} ServedOnlyWhenStarted(
    ss: seq<Server>, acts: seq<Action>, limit: nat, c: Connection, n: nat) returns (m: nat)
    requires Run(ss, acts, limit) && n < |ss| && In(ss[n], c, Serving)
    ensures m < n && acts[m] == Spawn(c, true)
  {
    if acts[n - 1] == Spawn(c, true) {
      m := n - 1;
    } else {
      m := ServedOnlyWhenStarted(ss, acts, limit, c, n - 1);
    }
  }

  /** A connection whose thread was started is served until its handling finishes. */
  lemma {:induction false} StartedServesUntilFinish(
    ss: seq<Server>, acts: seq<Action>, limit: nat, c: Connection, m: nat, n: nat)
    requires Run(ss, acts, limit) && m < n < |ss| && acts[m] == Spawn(c, true)
    requires forall k | m < k < n :: acts[k] != Finish(c)
    ensures In(ss[n], c, Serving)
    decreases n
  {
    if m < n - 1 { StartedServesUntilFinish(ss, acts, limit, c, m, n - 1); }
  }

  lemma {:induction false} NotStartedNeverServes(
    ss: seq<Server>, acts: seq<Action>, limit: nat, c: Connection, m: nat, n: nat)
    requires Run(ss, acts, limit) && m < n < |ss| && acts[m] == Spawn(c, false)
    ensures c in ss[n].phases && (ss[n].phases[c].Leaving? || ss[n].phases[c].Uncounted? || ss[n].phases[c].Closed?)
    ensures n < |acts| ==> acts[n] != Finish(c)
    decreases n
  {
    if m < n - 1 { NotStartedNeverServes(ss, acts, limit, c, m, n - 1); }
  }

  /** The refusal counter never goes down, and reports the refusals exactly until it saturates. */
  lemma {:induction false} RejectedIsMonotone(ss: seq<Server>, acts: seq<Action>, limit: nat, m: nat, n: nat)
    requires Run(ss, acts, limit) && m <= n < |ss|
    ensures ss[m].counters.rejected <= ss[n].counters.rejected <= MAX_COUNT
    ensures |Turned(ss[n])| <= MAX_COUNT ==> ss[n].counters.rejected == |Turned(ss[n])|
  {
    hide Apply, Enabled;
    RunConserves(ss, acts, limit, n);
    if m < n {
      RejectedIsMonotone(ss, acts, limit, m, n - 1);
      RunConserves(ss, acts, limit, n - 1);
      ActionConserves(ss[n - 1], acts[n - 1]);
    }
  }
}
