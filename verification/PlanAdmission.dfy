/** Admission of a MissionPlan before it is submitted: structure, primitive Tasks and dependency shape.
    The method keeps the shape of the admission loop; `Admissible` says, through chains alone, which
    plans it lets through, and `Schedule` which order it returns. */
module PlanAdmission {
  import opened Dag
  import opened Wrappers

  // ----- Plan documents -----

  /** One JSON parameter: an integer (never a Boolean), a string, or anything else. */
  datatype Value = Num(n: int) | Text(s: string) | Other

  datatype Contract = Contract(namespace: string, name: string, version: string)

  datatype Resource = Resource(kind: string, units: int)

  datatype Role = Role(
    resourceScope: string, operation: Contract, parameters: map<string, Value>,
    capabilities: seq<Contract>, resources: seq<Resource>)

  datatype Task = Task(id: Id, dependsOn: seq<Id>, roles: seq<Role>, satisfaction: string)

  datatype Plan = Plan(missionId: string, contexts: nat, tasks: seq<Task>)

  datatype AgentContext = AgentContext(agentClass: string, availableActions: seq<string>)

  datatype Profile = Serial | PartialOrder | Unsupported(name: string)

  /** One admission call: the plan and everything it is checked against. */
  datatype Request = Request(
    plan: Plan, missionId: string, env: string, taskIndex: int,
    contexts: map<int, AgentContext>, remainingSteps: int, profile: Profile)

  datatype Entry = Entry(taskId: Id, dependsOn: seq<Id>, parameters: map<string, Value>)

  datatype TaskFault =
    | RoleCount | ResourceScope | ParameterSet | UnknownAgent | Environment | TaskOrClass
    | OperationRoute | Capability | Resources | Satisfaction | Syntax

  datatype Rejection =
    | MissionMismatch | TaskCount | UnknownProfile | ContextCount | DuplicateIds
    | DependencyList | DependencyTarget | Cycle | NotSerial | InvalidTask(fault: TaskFault)
    | RobotReused | RootUnavailable

  datatype Outcome = Accepted(ordered: seq<Entry>) | Rejected(why: Rejection)

  // ----- One primitive Task -----

  const PARAMETERS := {"env", "task", "agent_id", "agent_class", "action"}

  const UNARY_VERBS := ["[open] ", "[close] ", "[grab] ", "[movetowards] ", "[land_on] ", "[takeoff_from] "]

  predicate IsDigit(c: char) { '0' <= c <= '9' }

  predicate IsNameChar(c: char) { c != '<' && c != '>' }

  function Decimal(n: int): string
    decreases if n < 0 then 1 - n else n
  {
    if n < 0 then "-" + Decimal(-n)
    else if n < 10 then [('0' as int + n) as char]
    else Decimal(n / 10) + Decimal(n % 10)
  }

  /** The text after a `<class name>(id)` reference at the start of `s`. */
  function AfterReference(s: string): Option<string> {
    if |s| < 2 || s[0] != '<' then None
    else
      var name := Span(s[1..], IsNameChar);
      var rest := s[1 + name..];
      if name == 0 || !(">(" <= rest) then None
      else
        var digits := Span(rest[2..], IsDigit);
        var tail := rest[2 + digits..];
        if digits == 0 || !(")" <= tail) then None else Some(tail[1..])
  }

  function Span(s: string, p: char -> bool): (n: nat)
    ensures n <= |s|
  {
    if s == [] || !p(s[0]) then 0 else 1 + Span(s[1..], p)
  }

  predicate PlacementSyntax(action: string, verb: string, relation: string) {
    && verb <= action
    && var first := AfterReference(action[|verb|..]);
    && first.Some? && relation <= first.value
    && AfterReference(first.value[|relation|..]) == Some("")
  }

  predicate PrimitiveSyntax(action: string) {
    || (exists i | 0 <= i < |UNARY_VERBS| ::
          UNARY_VERBS[i] <= action && AfterReference(action[|UNARY_VERBS[i]|..]) == Some(""))
    || PlacementSyntax(action, "[putinto] ", " into ")
    || PlacementSyntax(action, "[puton] ", " on ")
  }

  /** The first failing check of one primitive Task, in the order the checks are made. */
  function TaskFaultOf(q: Request, task: Task): Option<TaskFault> {
    if |task.roles| != 1 then Some(RoleCount)
    else
      var role := task.roles[0];
      var params := role.parameters;
      if role.resourceScope != "task" then Some(ResourceScope)
      else if params.Keys != PARAMETERS then Some(ParameterSet)
      else if !params["agent_id"].Num? || params["agent_id"].n !in q.contexts then Some(UnknownAgent)
      else
        var agent := params["agent_id"].n;
        var contract := Contract("coherent", "agent-" + Decimal(agent) + "-primitive", "v1");
        if params["env"] != Text(q.env) || !params["task"].Num? then Some(Environment)
        else if params["task"].n != q.taskIndex || params["agent_class"] != Text(q.contexts[agent].agentClass)
          then Some(TaskOrClass)
        else if role.operation != contract then Some(OperationRoute)
        else if role.capabilities != [contract] then Some(Capability)
        else if role.resources != [Resource("space", 1)] then Some(Resources)
        else if task.satisfaction != "execution-report" then Some(Satisfaction)
        else if !params["action"].Text? || !PrimitiveSyntax(params["action"].s) then Some(Syntax)
        else None
  }

  /** What the loop learns about one Task: its first fault, or its robot, whether its action is available
      right now, and the entry it contributes. */
  datatype TaskCheck = Bad(fault: TaskFault) | Good(agent: int, available: bool, entry: Entry)

  function CheckTask(q: Request, task: Task): TaskCheck {
    var fault := TaskFaultOf(q, task);
    if fault.Some? then Bad(fault.value)
    else
      var params := task.roles[0].parameters;
      var agent := params["agent_id"].n;
      Good(agent, params["action"].s in q.contexts[agent].availableActions, Entry(task.id, task.dependsOn, params))
  }

  type Checker = Task -> TaskCheck

  function CheckerFor(q: Request): Checker {
    task => CheckTask(q, task)
  }

  /** A Task is sound, and if it has no dependencies its action is available right now. */
  predicate Passes(c: Checker, task: Task) {
    c(task).Good? && (task.dependsOn == [] ==> c(task).available)
  }

  // ----- The dependency graph of a plan -----

  function IdSet(tasks: seq<Task>): set<Id> {
    if tasks == [] then {} else IdSet(tasks[..|tasks| - 1]) + {tasks[|tasks| - 1].id}
  }

  lemma {:induction false} IdAt(tasks: seq<Task>, i: nat)
    requires i < |tasks|
    ensures tasks[i].id in IdSet(tasks)
  {
    if i < |tasks| - 1 { IdAt(tasks[..|tasks| - 1], i); }
  }

  function DepSet(task: Task): set<Id> {
    set d | d in task.dependsOn
  }

  predicate UniqueIds(tasks: seq<Task>) {
    forall i, j | 0 <= i < j < |tasks| :: tasks[i].id != tasks[j].id
  }

  predicate UniqueList(s: seq<Id>) {
    forall i, j | 0 <= i < j < |s| :: s[i] != s[j]
  }

  predicate KnownTargets(tasks: seq<Task>, task: Task) {
    task.id !in task.dependsOn && forall d | d in task.dependsOn :: d in IdSet(tasks)
  }

  predicate DependenciesOk(tasks: seq<Task>, task: Task) {
    UniqueList(task.dependsOn) && KnownTargets(tasks, task)
  }

  predicate WellFormed(tasks: seq<Task>) {
    UniqueIds(tasks) && forall i | 0 <= i < |tasks| :: DependenciesOk(tasks, tasks[i])
  }

  ghost function Position(tasks: seq<Task>, id: Id): (i: nat)
    requires id in IdSet(tasks)
    ensures i < |tasks| && tasks[i].id == id
  {
    if tasks[|tasks| - 1].id == id then |tasks| - 1 else Position(tasks[..|tasks| - 1], id)
  }

  ghost function GraphOf(tasks: seq<Task>): Graph {
    map id | id in IdSet(tasks) :: DepSet(tasks[Position(tasks, id)])
  }

  lemma GraphAt(tasks: seq<Task>, i: nat)
    requires UniqueIds(tasks) && i < |tasks|
    ensures tasks[i].id in GraphOf(tasks) && GraphOf(tasks)[tasks[i].id] == DepSet(tasks[i])
  {
    IdAt(tasks, i);
  }

  lemma GraphClosed(tasks: seq<Task>)
    requires WellFormed(tasks)
    ensures Closed(GraphOf(tasks)) && GraphOf(tasks).Keys == IdSet(tasks)
  {
    forall id | id in GraphOf(tasks) ensures GraphOf(tasks)[id] <= GraphOf(tasks).Keys {
      assert DependenciesOk(tasks, tasks[Position(tasks, id)]);
    }
  }

  // ----- Which plans are admitted -----

  ghost predicate ChecksBeforeLoop(q: Request) {
    && q.plan.missionId == q.missionId
    && 1 <= |q.plan.tasks| <= q.remainingSteps
    && !q.profile.Unsupported?
    && q.plan.contexts == 1
    && WellFormed(q.plan.tasks)
  }

  ghost predicate AllPass(tasks: seq<Task>, c: Checker) {
    forall i | 0 <= i < |tasks| :: Passes(c, tasks[i])
  }

  ghost predicate SharesRobot(tasks: seq<Task>, c: Checker, m: nat, n: nat) {
    && m < |tasks| && n < |tasks| && m != n
    && c(tasks[m]).Good? && c(tasks[n]).Good? && c(tasks[m]).agent == c(tasks[n]).agent
  }

  /** Tasks whose longest dependency chains are equally long use different robots. */
  ghost predicate RobotsDisjoint(tasks: seq<Task>, c: Checker) {
    forall m: nat, n: nat, k: nat | SharesRobot(tasks, c, m, n) ::
      !(LongestChain(GraphOf(tasks), tasks[m].id, k) && LongestChain(GraphOf(tasks), tasks[n].id, k))
  }

  ghost predicate ShapeOk(tasks: seq<Task>, profile: Profile, c: Checker) {
    && AllPass(tasks, c)
    && Acyclic(GraphOf(tasks))
    && (profile.Serial? ==> exists o :: HamiltonianChain(GraphOf(tasks), o))
    && (profile.PartialOrder? ==> RobotsDisjoint(tasks, c))
  }

  /** The plans that admission lets through, said without frontiers or rounds. */
  ghost predicate Admissible(q: Request) {
    ChecksBeforeLoop(q) && ShapeOk(q.plan.tasks, q.profile, CheckerFor(q))
  }

  // ----- The returned order -----

  /** Positions of the tasks that are still to do and whose dependencies are complete, in plan order. */
  function Ready(tasks: seq<Task>, todo: set<Id>, completed: set<Id>): (r: seq<nat>)
    ensures forall i | 0 <= i < |r| :: r[i] < |tasks|
  {
    if tasks == [] then []
    else
      var n := |tasks| - 1;
      Ready(tasks[..n], todo, completed)
      + (if tasks[n].id in todo && DepSet(tasks[n]) <= completed then [n] else [])
  }

  /** The positions processed in the first `k` rounds. */
  ghost function Listing(tasks: seq<Task>, g: Graph, k: nat): (r: seq<nat>)
    ensures forall i | 0 <= i < |r| :: r[i] < |tasks|
  {
    if k == 0 then [] else Listing(tasks, g, k - 1) + RoundList(tasks, g, k - 1)
  }

  ghost function RoundList(tasks: seq<Task>, g: Graph, k: nat): (r: seq<nat>)
    ensures forall i | 0 <= i < |r| :: r[i] < |tasks|
  {
    Ready(tasks, g.Keys - Done(g, k), Done(g, k))
  }

  ghost function Schedule(tasks: seq<Task>): seq<nat> {
    Listing(tasks, GraphOf(tasks), |tasks|)
  }

  ghost function IdsAt(tasks: seq<Task>, at: seq<nat>): (ids: seq<Id>)
    requires forall i | 0 <= i < |at| :: at[i] < |tasks|
    ensures |ids| == |at|
  {
    seq(|at|, i requires 0 <= i < |at| => tasks[at[i]].id)
  }

  ghost predicate Checked(tasks: seq<Task>, c: Checker, at: seq<nat>) {
    forall i | 0 <= i < |at| :: at[i] < |tasks| && Passes(c, tasks[at[i]])
  }

  ghost function EntriesAt(tasks: seq<Task>, c: Checker, at: seq<nat>): (e: seq<Entry>)
    requires Checked(tasks, c, at)
    ensures |e| == |at|
  {
    seq(|at|, i requires 0 <= i < |at| => c(tasks[at[i]]).entry)
  }

  lemma {:induction false} ReadyIs(tasks: seq<Task>, todo: set<Id>, completed: set<Id>)
    ensures var r := Ready(tasks, todo, completed);
      && (forall i, j | 0 <= i < j < |r| :: r[i] < r[j])
      && (forall n: nat :: n in r <==> n < |tasks| && tasks[n].id in todo && DepSet(tasks[n]) <= completed)
  {
    if tasks != [] {
      var n := |tasks| - 1;
      ReadyIs(tasks[..n], todo, completed);
      var before := Ready(tasks[..n], todo, completed);
      assert forall m: nat | m < n :: tasks[..n][m] == tasks[m];
    }
  }

  /** `g` is the dependency graph of `tasks`, said position by position. */
  ghost predicate Describes(g: Graph, tasks: seq<Task>) {
    forall i | 0 <= i < |tasks| :: tasks[i].id in g && g[tasks[i].id] == DepSet(tasks[i])
  }

  lemma GraphDescribes(tasks: seq<Task>)
    requires WellFormed(tasks)
    ensures Describes(GraphOf(tasks), tasks) && Closed(GraphOf(tasks)) && |GraphOf(tasks)| == |tasks|
  {
    GraphClosed(tasks);
    GraphSize(tasks);
    forall i | 0 <= i < |tasks|
      ensures tasks[i].id in GraphOf(tasks) && GraphOf(tasks)[tasks[i].id] == DepSet(tasks[i])
    {
      GraphAt(tasks, i);
    }
  }

  lemma GraphSize(tasks: seq<Task>)
    requires UniqueIds(tasks)
    ensures |GraphOf(tasks)| == |tasks|
  {
    var ids := seq(|tasks|, i requires 0 <= i < |tasks| => tasks[i].id);
    var g := GraphOf(tasks);
    forall x ensures x in ids <==> x in g.Keys {
      if x in ids { var i := IndexIn(ids, x); IdAt(tasks, i); assert x == tasks[i].id; }
      if x in g.Keys { assert ids[Position(tasks, x)] == x; }
    }
    EnumerationLength(ids, g.Keys);
  }

  /** A round lists exactly the tasks of the corresponding frontier. */
  lemma RoundListAt(tasks: seq<Task>, g: Graph, k: nat, n: nat)
    requires Describes(g, tasks) && n < |tasks|
    ensures n in RoundList(tasks, g, k) <==> tasks[n].id in Round(g, k)
  {
    ReadyIs(tasks, g.Keys - Done(g, k), Done(g, k));
  }

  /** The first `k` rounds list exactly the completed tasks. */
  lemma {:induction false} ListingAt(tasks: seq<Task>, g: Graph, k: nat, n: nat)
    requires Describes(g, tasks) && n < |tasks|
    ensures n in Listing(tasks, g, k) <==> tasks[n].id in Done(g, k)
  {
    if k > 0 {
      ListingAt(tasks, g, k - 1, n);
      RoundListAt(tasks, g, k - 1, n);
    }
  }

  /** Position `m` is listed before position `n`: in an earlier round, or in the same round and earlier
      in the plan. */
  ghost predicate RoundBefore(tasks: seq<Task>, g: Graph, m: nat, n: nat)
    requires m < |tasks| && n < |tasks|
  {
    forall a: nat, b: nat | tasks[m].id in Round(g, a) && tasks[n].id in Round(g, b) ::
      a < b || (a == b && m < n)
  }

  lemma OldBeforeNew(tasks: seq<Task>, g: Graph, k: nat, m: nat, n: nat)
    requires Describes(g, tasks) && m < |tasks| && n < |tasks| && tasks[n].id in Round(g, k)
    requires tasks[m].id in Done(g, k) || (tasks[m].id in Round(g, k) && m < n)
    ensures RoundBefore(tasks, g, m, n) && m != n
  {
    forall a: nat, b: nat | tasks[m].id in Round(g, a) && tasks[n].id in Round(g, b)
      ensures a < b || (a == b && m < n)
    {
      RoundUnique(g, tasks[n].id, b, k);
      if tasks[m].id in Done(g, k) {
        var c := DoneRound(g, tasks[m].id, k);
        RoundUnique(g, tasks[m].id, a, c);
      } else {
        RoundUnique(g, tasks[m].id, a, k);
      }
    }
  }

  ghost predicate InRoundOrder(tasks: seq<Task>, g: Graph, l: seq<nat>) {
    && (forall i | 0 <= i < |l| :: l[i] < |tasks|)
    && (forall i, j | 0 <= i < j < |l| :: l[i] != l[j] && RoundBefore(tasks, g, l[i], l[j]))
  }

  /** Positions are listed once each and in round order. */
  lemma {:induction false} ListingOrder(tasks: seq<Task>, g: Graph, k: nat)
    requires Describes(g, tasks)
    ensures InRoundOrder(tasks, g, Listing(tasks, g, k))
  {
    if k > 0 {
      ListingOrder(tasks, g, k - 1);
      var l, m := Listing(tasks, g, k - 1), RoundList(tasks, g, k - 1);
      forall i, j | 0 <= i < |l + m| && |l| <= j < |l + m| && i < j
        ensures (l + m)[i] != (l + m)[j] && RoundBefore(tasks, g, (l + m)[i], (l + m)[j])
      {
        NewListedAfter(tasks, g, k - 1, i, j);
      }
    }
  }

  lemma NewListedAfter(tasks: seq<Task>, g: Graph, k: nat, i: nat, j: nat)
    requires Describes(g, tasks)
    requires i < j && |Listing(tasks, g, k)| <= j < |Listing(tasks, g, k) + RoundList(tasks, g, k)|
    ensures var w := Listing(tasks, g, k) + RoundList(tasks, g, k);
      w[i] != w[j] && RoundBefore(tasks, g, w[i], w[j])
  {
    var l, m := Listing(tasks, g, k), RoundList(tasks, g, k);
    var w := l + m;
    ReadyIs(tasks, g.Keys - Done(g, k), Done(g, k));
    assert w[j] in m;
    RoundListAt(tasks, g, k, w[j]);
    if i < |l| {
      assert w[i] in l;
      ListingAt(tasks, g, k, w[i]);
    } else {
      assert w[i] in m;
      RoundListAt(tasks, g, k, w[i]);
    }
    OldBeforeNew(tasks, g, k, w[i], w[j]);
  }

  /** Position `m` comes before `n` when its longest chain is shorter, ties broken by plan order. */
  ghost predicate ShallowerFirst(tasks: seq<Task>, g: Graph, m: nat, n: nat)
    requires m < |tasks| && n < |tasks|
  {
    forall a: nat, b: nat | LongestChain(g, tasks[m].id, a) && LongestChain(g, tasks[n].id, b) ::
      a < b || (a == b && m < n)
  }

  lemma RoundBeforeIsShallowerFirst(tasks: seq<Task>, g: Graph, m: nat, n: nat)
    requires Describes(g, tasks) && Closed(g) && Acyclic(g) && m < |tasks| && n < |tasks|
    requires RoundBefore(tasks, g, m, n)
    ensures ShallowerFirst(tasks, g, m, n)
  {
    var a := AcyclicRound(g, tasks[m].id);
    var b := AcyclicRound(g, tasks[n].id);
    forall c: nat, d: nat | LongestChain(g, tasks[m].id, c) && LongestChain(g, tasks[n].id, d)
      ensures c < d || (c == d && m < n)
    {
      LongestChainUnique(g, tasks[m].id, a, c);
      LongestChainUnique(g, tasks[n].id, b, d);
    }
  }

  /** A dependency is always in a strictly earlier round. */
  lemma DependencyRound(g: Graph, d: Id, t: Id, a: nat, b: nat)
    requires Closed(g) && d in Round(g, a) && t in Round(g, b) && d in g[t]
    ensures a < b
  {
    var c := DoneRound(g, d, b);
    RoundUnique(g, d, a, c);
  }

  /** `l` is a permutation of the plan's positions, sorted by longest chain with ties in plan order. */
  ghost predicate SortedPermutation(tasks: seq<Task>, g: Graph, l: seq<nat>) {
    && (forall i | 0 <= i < |l| :: l[i] < |tasks|)
    && (forall n: nat | n < |tasks| :: n in l)
    && (forall i, j | 0 <= i < j < |l| :: l[i] != l[j] && ShallowerFirst(tasks, g, l[i], l[j]))
  }

  lemma ListingSorted(tasks: seq<Task>, g: Graph, k: nat)
    requires Describes(g, tasks) && Closed(g) && Acyclic(g) && Done(g, k) == g.Keys
    ensures SortedPermutation(tasks, g, Listing(tasks, g, k))
  {
    var l := Listing(tasks, g, k);
    forall n: nat | n < |tasks| ensures n in l { ListingAt(tasks, g, k, n); }
    ListingOrder(tasks, g, k);
    forall i, j | 0 <= i < j < |l| ensures ShallowerFirst(tasks, g, l[i], l[j]) {
      RoundBeforeIsShallowerFirst(tasks, g, l[i], l[j]);
    }
  }

  lemma SortedEnumerates(tasks: seq<Task>, g: Graph, l: seq<nat>)
    requires UniqueIds(tasks) && g.Keys == IdSet(tasks) && SortedPermutation(tasks, g, l)
    ensures Enumerates(IdsAt(tasks, l), g.Keys) && |l| == |g|
  {
    var ids := IdsAt(tasks, l);
    forall i, j | 0 <= i < j < |ids| ensures ids[i] != ids[j] {
      assert l[i] != l[j];
    }
    forall x ensures x in ids <==> x in g.Keys {
      if x in ids { var i := IndexIn(ids, x); IdAt(tasks, l[i]); }
      if x in g.Keys {
        var n := Position(tasks, x);
        assert n in l;
        var i :| 0 <= i < |l| && l[i] == n;
        assert ids[i] == x;
      }
    }
    EnumerationLength(ids, g.Keys);
  }

  /** Sorting by longest chain puts every dependency before its dependents. */
  lemma SortedIsTopological(tasks: seq<Task>, g: Graph, l: seq<nat>)
    requires UniqueIds(tasks) && g.Keys == IdSet(tasks) && Closed(g) && Acyclic(g) && SortedPermutation(tasks, g, l)
    ensures Topological(g, IdsAt(tasks, l))
  {
    hide Done, Acyclic, IdSet;
    var ids := IdsAt(tasks, l);
    SortedEnumerates(tasks, g, l);
    forall i, d | 0 <= i < |ids| && d in g[ids[i]] ensures d in ids[..i] {
      var j := IndexIn(ids, d);
      var a := AcyclicRound(g, d);
      var b := AcyclicRound(g, ids[i]);
      DependencyRound(g, d, ids[i], a, b);
      assert ids[..i][j] == d;
    }
  }

  /** The returned order of an acyclic plan is a permutation of its tasks, sorted by the length of the
      longest dependency chain with ties in plan order, and lists every dependency before its dependents. */
  lemma ScheduleIsTopological(tasks: seq<Task>)
    requires WellFormed(tasks) && Acyclic(GraphOf(tasks))
    ensures SortedPermutation(tasks, GraphOf(tasks), Schedule(tasks)) && |Schedule(tasks)| == |tasks|
    ensures Topological(GraphOf(tasks), IdsAt(tasks, Schedule(tasks)))
  {
    var g := GraphOf(tasks);
    GraphDescribes(tasks);
    GraphClosed(tasks);
    AcyclicProgress(g, |tasks|);
    ListingSorted(tasks, g, |tasks|);
    SortedEnumerates(tasks, g, Schedule(tasks));
    SortedIsTopological(tasks, g, Schedule(tasks));
  }

  /** A serial plan is returned in its one and only topological order. */
  lemma SerialScheduleIsTheChain(tasks: seq<Task>, o: seq<Id>)
    requires WellFormed(tasks) && Acyclic(GraphOf(tasks)) && HamiltonianChain(GraphOf(tasks), o)
    ensures IdsAt(tasks, Schedule(tasks)) == o
    ensures forall q :: Topological(GraphOf(tasks), q) <==> q == o
  {
    GraphClosed(tasks);
    ScheduleIsTopological(tasks);
    forall q ensures Topological(GraphOf(tasks), q) <==> q == o {
      HamiltonianChainIsOnlyOrder(GraphOf(tasks), o, q);
    }
  }

  // ----- The admission loop -----

  ghost function IdsOf(tasks: seq<Task>, at: seq<nat>): set<Id>
    requires forall i | 0 <= i < |at| :: at[i] < |tasks|
  {
    Elements(IdsAt(tasks, at))
  }

  ghost predicate DistinctRobots(tasks: seq<Task>, c: Checker, at: seq<nat>)
    requires Checked(tasks, c, at)
  {
    forall i, j | 0 <= i < j < |at| :: c(tasks[at[i]]).agent != c(tasks[at[j]]).agent
  }

  /** Why a pass over a frontier stops: two of its tasks share a robot, or one of them fails its check. */
  ghost predicate Refused(tasks: seq<Task>, profile: Profile, c: Checker, frontier: seq<nat>, why: Rejection)
    requires forall i | 0 <= i < |frontier| :: frontier[i] < |tasks|
  {
    match why
    case RobotReused =>
      && profile.PartialOrder?
      && exists i, j :: 0 <= i < j < |frontier| && SharesRobot(tasks, c, frontier[i], frontier[j])
    case InvalidTask(fault) => exists i :: 0 <= i < |frontier| && c(tasks[frontier[i]]) == Bad(fault)
    case RootUnavailable => exists i :: 0 <= i < |frontier| && UnavailableRoot(c, tasks[frontier[i]])
    case _ => false
  }

  /** A sound Task without dependencies whose action is not available right now. */
  ghost predicate UnavailableRoot(c: Checker, task: Task) {
    c(task).Good? && task.dependsOn == [] && !c(task).available
  }

  /** The loop over one frontier, on the tasks' checks; `roots` marks the tasks without dependencies. A refusal
      comes with the position `at` that caused it and, for a reused robot, the earlier position `first`. */
  method PassFrontier(partial: bool, checks: seq<TaskCheck>, roots: seq<bool>)
    returns (why: Option<Rejection>, entries: seq<Entry>, ghost first: nat, ghost at: nat)
    requires |checks| == |roots|
    ensures why.None? ==> |entries| == |checks| && forall i | 0 <= i < |checks| ::
      checks[i].Good? && (roots[i] ==> checks[i].available) && entries[i] == checks[i].entry
    ensures why.None? && partial ==>
      forall i, j | 0 <= i < j < |checks| :: checks[i].agent != checks[j].agent
    ensures why.Some? ==> at < |checks| && match why.value
      case InvalidTask(fault) => checks[at] == Bad(fault)
      case RootUnavailable => checks[at].Good? && roots[at] && !checks[at].available
      case RobotReused =>
        partial && first < at && checks[first].Good? && checks[at].Good? && checks[first].agent == checks[at].agent
      case _ => false
  {
    why, entries, first, at := None, [], 0, 0;
    var agents: set<int> := {};
    ghost var user: map<int, nat> := map[];  // which task of the frontier uses each robot
    for f := 0 to |checks|
      invariant |entries| == f && why.None?
      invariant forall i | 0 <= i < f ::
        checks[i].Good? && (roots[i] ==> checks[i].available) && entries[i] == checks[i].entry
      invariant forall i | 0 <= i < f :: checks[i].agent in agents
      invariant user.Keys == agents && forall a | a in agents :: user[a] < f && checks[user[a]].agent == a
      invariant partial ==> forall i, j | 0 <= i < j < f :: checks[i].agent != checks[j].agent
    {
      var check := checks[f];
      at := f;
      if check.Bad? {
        why := Some(InvalidTask(check.fault));
        return;
      }
      if partial && check.agent in agents {
        why, first := Some(RobotReused), user[check.agent];
        return;
      }
      agents, user := agents + {check.agent}, user[check.agent := f];
      if roots[f] && !check.available {
        why := Some(RootUnavailable);
        return;
      }
      entries := entries + [check.entry];
    }
  }

  /** One pass over a frontier: every Task is checked, and in the partial-order profile no robot is used twice. */
  method AdmitFrontier(tasks: seq<Task>, profile: Profile, c: Checker, frontier: seq<nat>)
    returns (why: Option<Rejection>, entries: seq<Entry>)
    requires forall i | 0 <= i < |frontier| :: frontier[i] < |tasks|
    requires forall i, j | 0 <= i < j < |frontier| :: frontier[i] != frontier[j]
    ensures why.None? ==> Checked(tasks, c, frontier) && entries == EntriesAt(tasks, c, frontier)
    ensures why.None? && profile.PartialOrder? ==> DistinctRobots(tasks, c, frontier)
    ensures why.Some? ==> Refused(tasks, profile, c, frontier, why.value)
  {
    var checks := seq(|frontier|, i requires 0 <= i < |frontier| => c(tasks[frontier[i]]));
    var roots := seq(|frontier|, i requires 0 <= i < |frontier| => tasks[frontier[i]].dependsOn == []);
    ghost var first, at;
    why, entries, first, at := PassFrontier(profile.PartialOrder?, checks, roots);
    if why.None? {
      forall i | 0 <= i < |frontier| ensures Passes(c, tasks[frontier[i]]) {
        assert checks[i].Good? && (roots[i] ==> checks[i].available);
      }
      if profile.PartialOrder? {
        forall i, j | 0 <= i < j < |frontier|
          ensures c(tasks[frontier[i]]).agent != c(tasks[frontier[j]]).agent
        {
          assert checks[i].agent != checks[j].agent;
        }
      }
    } else if why.value.RobotReused? {
      assert SharesRobot(tasks, c, frontier[first], frontier[at]);
    } else {
      assert why.value.InvalidTask? ==> c(tasks[frontier[at]]) == Bad(why.value.fault);
      assert why.value.RootUnavailable? ==> UnavailableRoot(c, tasks[frontier[at]]);
    }
  }

  /** Running the whole round completes exactly the next frontier. */
  lemma RoundIds(tasks: seq<Task>, g: Graph, k: nat)
    requires UniqueIds(tasks) && Describes(g, tasks) && g.Keys == IdSet(tasks)
    ensures IdsOf(tasks, RoundList(tasks, g, k)) == Round(g, k)
    ensures |RoundList(tasks, g, k)| == |Round(g, k)|
  {
    var r := RoundList(tasks, g, k);
    var ids := IdsAt(tasks, r);
    forall t | t in ids ensures t in Round(g, k) {
      var i := IndexIn(ids, t);
      assert r[i] in r;
      RoundListAt(tasks, g, k, r[i]);
    }
    forall t | t in Round(g, k) ensures t in ids { RoundListed(tasks, g, k, t); }
    RoundDistinct(tasks, g, k);
    EnumerationLength(ids, Round(g, k));
  }

  lemma RoundListed(tasks: seq<Task>, g: Graph, k: nat, t: Id)
    requires UniqueIds(tasks) && Describes(g, tasks) && g.Keys == IdSet(tasks) && t in Round(g, k)
    ensures t in IdsAt(tasks, RoundList(tasks, g, k))
  {
    var r := RoundList(tasks, g, k);
    var n := Position(tasks, t);
    RoundListAt(tasks, g, k, n);
    var i :| 0 <= i < |r| && r[i] == n;
    assert IdsAt(tasks, r)[i] == t;
  }

  lemma RoundDistinct(tasks: seq<Task>, g: Graph, k: nat)
    requires UniqueIds(tasks)
    ensures forall i, j | 0 <= i < j < |RoundList(tasks, g, k)| ::
              RoundList(tasks, g, k)[i] != RoundList(tasks, g, k)[j]
    ensures Distinct(IdsAt(tasks, RoundList(tasks, g, k)))
  {
    ReadyIs(tasks, g.Keys - Done(g, k), Done(g, k));
  }

  /** While a serial-shaped plan is unfinished, exactly one task is ready. */
  lemma SerialRound(g: Graph, k: nat)
    requires Closed(g) && SerialShape(g) && Done(g, k) != g.Keys
    ensures |Round(g, k)| == 1
  {
    var o :| HamiltonianChain(g, o);
    if k >= |o| {
      ChainRounds(g, o, |o|);
      assert o[..|o|] == o;
      DoneGrows(g, |o|, k);
    }
    ChainRounds(g, o, k);
  }

  ghost predicate RoundsSingle(g: Graph, k: nat) {
    forall j | 0 <= j < k :: |Round(g, j)| == 1
  }

  lemma SingleRoundsAreSerial(g: Graph, k: nat)
    requires Closed(g) && Done(g, k) == g.Keys && RoundsSingle(g, k)
    ensures exists o :: HamiltonianChain(g, o)
  {
    var o := seq(k, j requires 0 <= j < k => Only(Round(g, j)));
    forall j | 0 <= j < |o| ensures Round(g, j) == {o[j]} { SingletonIs(Round(g, j), o[j]); }
    SingletonRoundsChain(g, o);
    assert HamiltonianChain(g, o);
  }

  /** No robot is used twice within any of the first `k` rounds. */
  ghost predicate RoundsDisjoint(tasks: seq<Task>, c: Checker, g: Graph, k: nat) {
    forall j: nat, m: nat, n: nat | j < k && SharesRobot(tasks, c, m, n) ::
      !(tasks[m].id in Round(g, j) && tasks[n].id in Round(g, j))
  }

  lemma SharedRobotBreaks(tasks: seq<Task>, c: Checker, m: nat, n: nat, k: nat)
    requires WellFormed(tasks) && SharesRobot(tasks, c, m, n)
    requires tasks[m].id in Round(GraphOf(tasks), k) && tasks[n].id in Round(GraphOf(tasks), k)
    ensures !RobotsDisjoint(tasks, c)
  {
    GraphClosed(tasks);
    RoundIsLongestChain(GraphOf(tasks), tasks[m].id, k);
    RoundIsLongestChain(GraphOf(tasks), tasks[n].id, k);
  }

  lemma SameChainSameRound(g: Graph, t: Id, d: nat, k: nat)
    requires Closed(g) && t in Done(g, k) && LongestChain(g, t, d)
    ensures d < k && t in Round(g, d)
  {
    var c := DoneRound(g, t, k);
    RoundIsLongestChain(g, t, c);
    LongestChainUnique(g, t, c, d);
  }

  lemma DisjointRoundsSuffice(tasks: seq<Task>, c: Checker, k: nat)
    requires WellFormed(tasks)
    requires Done(GraphOf(tasks), k) == GraphOf(tasks).Keys
    requires RoundsDisjoint(tasks, c, GraphOf(tasks), k)
    ensures RobotsDisjoint(tasks, c)
  {
    var g := GraphOf(tasks);
    forall m: nat, n: nat, d: nat | SharesRobot(tasks, c, m, n)
      && LongestChain(g, tasks[m].id, d) && LongestChain(g, tasks[n].id, d)
      ensures false
    {
      GraphDescribes(tasks);
      SameChainSameRound(g, tasks[m].id, d, k);
      SameChainSameRound(g, tasks[n].id, d, k);
    }
  }

  lemma {:induction false} NothingReady(tasks: seq<Task>, todo: set<Id>, completed: set<Id>)
    requires todo == {}
    ensures Ready(tasks, todo, completed) == []
  {
    if tasks != [] { NothingReady(tasks[..|tasks| - 1], todo, completed); }
  }

  /** Rounds after completion list nothing more, so the order does not depend on when the loop stops. */
  lemma {:induction false} ListingStable(tasks: seq<Task>, g: Graph, j: nat, k: nat)
    requires j <= k && Done(g, j) == g.Keys
    ensures Listing(tasks, g, k) == Listing(tasks, g, j)
  {
    if j < k {
      hide Done, Ready;
      ListingStable(tasks, g, j, k - 1);
      DoneGrows(g, j, k - 1);
      assert Done(g, k - 1) == g.Keys;
      NothingReady(tasks, g.Keys - Done(g, k - 1), Done(g, k - 1));
    }
  }

  lemma ListingIsSchedule(tasks: seq<Task>, k: nat)
    requires WellFormed(tasks) && Done(GraphOf(tasks), k) == GraphOf(tasks).Keys
    ensures Listing(tasks, GraphOf(tasks), k) == Schedule(tasks)
  {
    var g := GraphOf(tasks);
    GraphDescribes(tasks);
    FinishesIffAcyclic(g);
    AcyclicProgress(g, |tasks|);
    if k <= |tasks| { ListingStable(tasks, g, k, |tasks|); } else { ListingStable(tasks, g, |tasks|, k); }
  }

  lemma CheckedConcat(tasks: seq<Task>, c: Checker, l: seq<nat>, m: seq<nat>)
    requires Checked(tasks, c, l) && Checked(tasks, c, m)
    ensures Checked(tasks, c, l + m)
    ensures EntriesAt(tasks, c, l + m) == EntriesAt(tasks, c, l) + EntriesAt(tasks, c, m)
  {
  }

  lemma DistinctPair(tasks: seq<Task>, c: Checker, r: seq<nat>, m: nat, n: nat)
    requires Checked(tasks, c, r) && DistinctRobots(tasks, c, r) && m in r && n in r
    ensures !SharesRobot(tasks, c, m, n)
  {
    var i :| 0 <= i < |r| && r[i] == m;
    var j :| 0 <= j < |r| && r[j] == n;
  }

  lemma DistinctRoundIsDisjoint(tasks: seq<Task>, c: Checker, g: Graph, k: nat)
    requires Describes(g, tasks) && Checked(tasks, c, RoundList(tasks, g, k))
    requires DistinctRobots(tasks, c, RoundList(tasks, g, k))
    ensures forall m: nat, n: nat | SharesRobot(tasks, c, m, n) ::
              !(tasks[m].id in Round(g, k) && tasks[n].id in Round(g, k))
  {
    forall m: nat, n: nat | SharesRobot(tasks, c, m, n) && tasks[m].id in Round(g, k) && tasks[n].id in Round(g, k)
      ensures false
    {
      RoundListAt(tasks, g, k, m);
      RoundListAt(tasks, g, k, n);
      DistinctPair(tasks, c, RoundList(tasks, g, k), m, n);
    }
  }

  /** The plan passed every round: nothing is left to check. */
  lemma EveryRoundPassed(tasks: seq<Task>, profile: Profile, c: Checker, k: nat)
    requires WellFormed(tasks) && Done(GraphOf(tasks), k) == GraphOf(tasks).Keys
    requires Checked(tasks, c, Listing(tasks, GraphOf(tasks), k))
    requires profile.Serial? ==> RoundsSingle(GraphOf(tasks), k)
    requires profile.PartialOrder? ==> RoundsDisjoint(tasks, c, GraphOf(tasks), k)
    ensures ShapeOk(tasks, profile, c)
  {
    var g := GraphOf(tasks);
    GraphDescribes(tasks);
    FinishesIffAcyclic(g);
    forall n | 0 <= n < |tasks| ensures Passes(c, tasks[n]) {
      ListingAt(tasks, g, k, n);
      var i :| 0 <= i < |Listing(tasks, g, k)| && Listing(tasks, g, k)[i] == n;
    }
    if profile.Serial? { SingleRoundsAreSerial(g, k); }
    if profile.PartialOrder? { DisjointRoundsSuffice(tasks, c, k); }
  }

  lemma NoneReadyMeansCycle(tasks: seq<Task>, k: nat) returns (p: seq<Id>)
    requires WellFormed(tasks) && IdSet(tasks) - Done(GraphOf(tasks), k) != {}
    requires RoundList(tasks, GraphOf(tasks), k) == []
    ensures IsCycle(GraphOf(tasks), p)
  {
    GraphDescribes(tasks);
    GraphClosed(tasks);
    RoundIds(tasks, GraphOf(tasks), k);
    p := StuckHasCycle(GraphOf(tasks), Done(GraphOf(tasks), k));
  }

  lemma BranchMeansNotSerial(tasks: seq<Task>, k: nat)
    requires WellFormed(tasks) && IdSet(tasks) - Done(GraphOf(tasks), k) != {}
    requires |RoundList(tasks, GraphOf(tasks), k)| != 1
    ensures !SerialShape(GraphOf(tasks))
  {
    GraphDescribes(tasks);
    GraphClosed(tasks);
    RoundIds(tasks, GraphOf(tasks), k);
    if SerialShape(GraphOf(tasks)) { SerialRound(GraphOf(tasks), k); }
  }

  lemma ReuseMeansNotDisjoint(tasks: seq<Task>, c: Checker, k: nat, m: nat, n: nat)
    requires WellFormed(tasks) && SharesRobot(tasks, c, m, n)
    requires m in RoundList(tasks, GraphOf(tasks), k) && n in RoundList(tasks, GraphOf(tasks), k)
    ensures !RobotsDisjoint(tasks, c)
  {
    GraphDescribes(tasks);
    RoundListAt(tasks, GraphOf(tasks), k, m);
    RoundListAt(tasks, GraphOf(tasks), k, n);
    SharedRobotBreaks(tasks, c, m, n, k);
  }

  ghost predicate RoundPasses(tasks: seq<Task>, profile: Profile, c: Checker, k: nat) {
    var r := RoundList(tasks, GraphOf(tasks), k);
    && r != []
    && Checked(tasks, c, r)
    && (profile.Serial? ==> |r| == 1)
    && (profile.PartialOrder? ==> DistinctRobots(tasks, c, r))
  }

  ghost predicate RoundsPass(tasks: seq<Task>, profile: Profile, c: Checker, k: nat) {
    k == 0 || (RoundsPass(tasks, profile, c, k - 1) && RoundPasses(tasks, profile, c, k - 1))
  }

  /** The entries collected in the first `k` rounds. */
  ghost function Collected(tasks: seq<Task>, profile: Profile, c: Checker, k: nat): seq<Entry>
    requires RoundsPass(tasks, profile, c, k)
  {
    if k == 0 then []
    else Collected(tasks, profile, c, k - 1) + EntriesAt(tasks, c, RoundList(tasks, GraphOf(tasks), k - 1))
  }

  lemma {:induction false} CollectedListing(tasks: seq<Task>, profile: Profile, c: Checker, k: nat)
    requires RoundsPass(tasks, profile, c, k)
    ensures Checked(tasks, c, Listing(tasks, GraphOf(tasks), k))
    ensures Collected(tasks, profile, c, k) == EntriesAt(tasks, c, Listing(tasks, GraphOf(tasks), k))
  {
    if k > 0 {
      CollectedListing(tasks, profile, c, k - 1);
      CheckedConcat(tasks, c, Listing(tasks, GraphOf(tasks), k - 1), RoundList(tasks, GraphOf(tasks), k - 1));
    }
  }

  lemma PassSingle(tasks: seq<Task>, k: nat)
    requires WellFormed(tasks) && |RoundList(tasks, GraphOf(tasks), k)| == 1
    ensures |Round(GraphOf(tasks), k)| == 1
  {
    GraphDescribes(tasks);
    GraphClosed(tasks);
    RoundIds(tasks, GraphOf(tasks), k);
  }

  lemma {:induction false} RoundsPassSingle(tasks: seq<Task>, c: Checker, k: nat)
    requires WellFormed(tasks) && RoundsPass(tasks, Serial, c, k)
    ensures forall j | 0 <= j < k :: |RoundList(tasks, GraphOf(tasks), j)| == 1
  {
    hide RoundList, GraphOf, WellFormed, Checked, DistinctRobots;
    if k > 0 { RoundsPassSingle(tasks, c, k - 1); }
  }

  lemma {:induction false} RoundsPassDistinct(tasks: seq<Task>, c: Checker, k: nat, j: nat)
    requires RoundsPass(tasks, PartialOrder, c, k) && j < k
    ensures Checked(tasks, c, RoundList(tasks, GraphOf(tasks), j))
    ensures DistinctRobots(tasks, c, RoundList(tasks, GraphOf(tasks), j))
  {
    hide RoundList, GraphOf, Checked, DistinctRobots;
    if j < k - 1 { RoundsPassDistinct(tasks, c, k - 1, j); }
  }

  lemma RoundsPassDisjoint(tasks: seq<Task>, c: Checker, k: nat)
    requires WellFormed(tasks) && RoundsPass(tasks, PartialOrder, c, k)
    ensures RoundsDisjoint(tasks, c, GraphOf(tasks), k)
  {
    forall j: nat, m: nat, n: nat | j < k && SharesRobot(tasks, c, m, n)
      ensures !(tasks[m].id in Round(GraphOf(tasks), j) && tasks[n].id in Round(GraphOf(tasks), j))
    {
      RoundsPassDistinct(tasks, c, k, j);
      GraphDescribes(tasks);
      DistinctRoundIsDisjoint(tasks, c, GraphOf(tasks), j);
    }
  }

  /** The loop's `todo` and `completed` follow the rounds. */
  ghost predicate Follows(tasks: seq<Task>, k: nat, todo: set<Id>, completed: set<Id>) {
    completed == Done(GraphOf(tasks), k) && todo == IdSet(tasks) - completed
  }

  lemma ReadyIsRoundList(tasks: seq<Task>, k: nat, todo: set<Id>, completed: set<Id>)
    requires Follows(tasks, k, todo, completed)
    ensures Ready(tasks, todo, completed) == RoundList(tasks, GraphOf(tasks), k)
  {
    assert GraphOf(tasks).Keys == IdSet(tasks);
  }

  lemma FollowsNext(tasks: seq<Task>, k: nat, todo: set<Id>, completed: set<Id>, ids: set<Id>)
    requires WellFormed(tasks) && Follows(tasks, k, todo, completed)
    requires var r := RoundList(tasks, GraphOf(tasks), k); r != [] && ids == set i | 0 <= i < |r| :: tasks[r[i]].id
    ensures Follows(tasks, k + 1, todo - ids, completed + ids) && todo - ids < todo
  {
    var g := GraphOf(tasks);
    var r := RoundList(tasks, g, k);
    IdsAgree(tasks, r, ids);
    assert ids == Round(g, k) by { GraphDescribes(tasks); GraphClosed(tasks); RoundIds(tasks, g, k); }
    assert tasks[r[0]].id in ids;
    assert g.Keys == IdSet(tasks);
  }

  /** The returned entries are those of the schedule, in its order. */
  ghost predicate IsScheduled(tasks: seq<Task>, c: Checker, ordered: seq<Entry>) {
    Checked(tasks, c, Schedule(tasks)) && ordered == EntriesAt(tasks, c, Schedule(tasks))
  }

  /** A rejection by the loop is never mistaken: the plan really is inadmissible, and for the reason given. */
  ghost predicate Justified(tasks: seq<Task>, profile: Profile, c: Checker, why: Rejection) {
    && !ShapeOk(tasks, profile, c)
    && (why.Cycle? ==> !Acyclic(GraphOf(tasks)))
    && (why.NotSerial? ==> profile.Serial? && !SerialShape(GraphOf(tasks)))
    && (why.RobotReused? ==> profile.PartialOrder? && !RobotsDisjoint(tasks, c))
    && (why.InvalidTask? ==> exists i :: 0 <= i < |tasks| && c(tasks[i]) == Bad(why.fault))
    && (why.RootUnavailable? ==> exists i :: 0 <= i < |tasks| && UnavailableRoot(c, tasks[i]))
    && !(why.MissionMismatch? || why.TaskCount? || why.UnknownProfile? || why.ContextCount? || why.DuplicateIds?
         || why.DependencyList? || why.DependencyTarget?)
  }

  /** A rejection before the loop: the reason given is the first check that fails. */
  ghost predicate ExplainsEarly(q: Request, why: Rejection) {
    var tasks := q.plan.tasks;
    match why
    case MissionMismatch => q.plan.missionId != q.missionId
    case TaskCount => q.plan.missionId == q.missionId && (|tasks| == 0 || |tasks| > q.remainingSteps)
    case UnknownProfile => 1 <= |tasks| <= q.remainingSteps && q.profile.Unsupported?
    case ContextCount => !q.profile.Unsupported? && q.plan.contexts != 1
    case DuplicateIds => q.plan.contexts == 1 && !UniqueIds(tasks)
    case DependencyList => UniqueIds(tasks) && exists i :: 0 <= i < |tasks| && !UniqueList(tasks[i].dependsOn)
    case DependencyTarget => UniqueIds(tasks) && exists i :: 0 <= i < |tasks| && !KnownTargets(tasks, tasks[i])
    case _ => false
  }

  lemma RefusalJustified(tasks: seq<Task>, profile: Profile, c: Checker, k: nat, why: Rejection)
    requires WellFormed(tasks) && Refused(tasks, profile, c, RoundList(tasks, GraphOf(tasks), k), why)
    ensures Justified(tasks, profile, c, why)
  {
    var r := RoundList(tasks, GraphOf(tasks), k);
    match why
    case RobotReused =>
      var i, j :| 0 <= i < j < |r| && SharesRobot(tasks, c, r[i], r[j]);
      ReuseMeansNotDisjoint(tasks, c, k, r[i], r[j]);
    case InvalidTask(fault) =>
      var i :| 0 <= i < |r| && c(tasks[r[i]]) == Bad(fault);
      assert !Passes(c, tasks[r[i]]);
    case RootUnavailable =>
      var i :| 0 <= i < |r| && UnavailableRoot(c, tasks[r[i]]);
      assert !Passes(c, tasks[r[i]]);
  }

  /** One turn of the frontier loop: find the ready tasks, then check the whole frontier. */
  method RunRound(tasks: seq<Task>, profile: Profile, c: Checker, todo: set<Id>, completed: set<Id>, ghost k: nat)
    returns (why: Option<Rejection>, entries: seq<Entry>, ids: set<Id>)
    requires WellFormed(tasks) && !profile.Unsupported? && Follows(tasks, k, todo, completed) && todo != {}
    ensures why.None? ==> RoundPasses(tasks, profile, c, k)
    ensures why.None? ==>
      && entries == EntriesAt(tasks, c, RoundList(tasks, GraphOf(tasks), k))
      && Follows(tasks, k + 1, todo - ids, completed + ids) && todo - ids < todo
    ensures why.Some? ==> Justified(tasks, profile, c, why.value)
  {
    hide Done, GraphOf, EntriesAt, Frontier, Round, Ready;
    var ready := Ready(tasks, todo, completed);
    ReadyIsRoundList(tasks, k, todo, completed);
    if |ready| == 0 {
      ghost var p := NoneReadyMeansCycle(tasks, k);
      return Some(Cycle), [], {};
    }
    if profile.Serial? && |ready| != 1 {
      BranchMeansNotSerial(tasks, k);
      return Some(NotSerial), [], {};
    }
    var frontier := if profile.PartialOrder? then ready else ready[..1];
    assert frontier == ready;
    RoundDistinct(tasks, GraphOf(tasks), k);
    why, entries := AdmitFrontier(tasks, profile, c, frontier);
    if why.Some? {
      RefusalJustified(tasks, profile, c, k, why.value);
      return why, [], {};
    }
    ids := set i | 0 <= i < |frontier| :: tasks[frontier[i]].id;
    FollowsNext(tasks, k, todo, completed, ids);
  }

  /** The frontier loop: round after round, all tasks that are ready, until nothing is left. */
  method OrderTasks(tasks: seq<Task>, profile: Profile, c: Checker) returns (r: Outcome)
    requires WellFormed(tasks) && !profile.Unsupported?
    ensures r.Accepted? ==> ShapeOk(tasks, profile, c) && IsScheduled(tasks, c, r.ordered)
    ensures r.Rejected? ==> Justified(tasks, profile, c, r.why)
  {
    hide RoundPasses, EntriesAt, ShapeOk, IsScheduled, Justified, GraphOf, IdSet, Frontier;
    ghost var k: nat := 0;
    var todo := IdSet(tasks);
    var completed: set<Id> := {};
    var ordered: seq<Entry> := [];
    while todo != {}
      invariant Follows(tasks, k, todo, completed)
      invariant RoundsPass(tasks, profile, c, k) && ordered == Collected(tasks, profile, c, k)
      decreases todo
    {
      var why, entries, ids := RunRound(tasks, profile, c, todo, completed, k);
      if why.Some? {
        return Rejected(why.value);
      }
      todo, completed, ordered := todo - ids, completed + ids, ordered + entries;
      k := k + 1;
    }
    FinishedRounds(tasks, profile, c, k);
    return Accepted(ordered);
  }

  lemma FinishedRounds(tasks: seq<Task>, profile: Profile, c: Checker, k: nat)
    requires WellFormed(tasks) && !profile.Unsupported? && RoundsPass(tasks, profile, c, k)
    requires Follows(tasks, k, {}, Done(GraphOf(tasks), k))
    ensures ShapeOk(tasks, profile, c) && IsScheduled(tasks, c, Collected(tasks, profile, c, k))
  {
    AllDone(tasks, k);
    CollectedListing(tasks, profile, c, k);
    ListingIsSchedule(tasks, k);
    FinishedShape(tasks, profile, c, k);
  }

  lemma AllDone(tasks: seq<Task>, k: nat)
    requires Follows(tasks, k, {}, Done(GraphOf(tasks), k))
    ensures Done(GraphOf(tasks), k) == GraphOf(tasks).Keys
  {
    DoneGrows(GraphOf(tasks), k, k);
    assert GraphOf(tasks).Keys == IdSet(tasks);
  }

  lemma FinishedShape(tasks: seq<Task>, profile: Profile, c: Checker, k: nat)
    requires WellFormed(tasks) && !profile.Unsupported? && RoundsPass(tasks, profile, c, k)
    requires Done(GraphOf(tasks), k) == GraphOf(tasks).Keys
    requires Checked(tasks, c, Listing(tasks, GraphOf(tasks), k))
    ensures ShapeOk(tasks, profile, c)
  {
    if profile.Serial? {
      assert RoundsSingle(GraphOf(tasks), k) by {
        RoundsPassSingle(tasks, c, k);
        forall j | 0 <= j < k ensures |Round(GraphOf(tasks), j)| == 1 { PassSingle(tasks, j); }
      }
    } else {
      RoundsPassDisjoint(tasks, c, k);
    }
    EveryRoundPassed(tasks, profile, c, k);
  }

  lemma IdsAgree(tasks: seq<Task>, at: seq<nat>, ids: set<Id>)
    requires forall i | 0 <= i < |at| :: at[i] < |tasks|
    requires ids == set i | 0 <= i < |at| :: tasks[at[i]].id
    ensures ids == IdsOf(tasks, at)
  {
    var listed := IdsAt(tasks, at);
    forall x ensures x in ids <==> x in listed {
      if x in listed { var i := IndexIn(listed, x); }
      if x in ids { var i :| 0 <= i < |at| && tasks[at[i]].id == x; assert listed[i] == x; }
    }
  }

  /** Admission of one plan. It accepts exactly the admissible plans and returns their schedule. */
  method ValidatePlan(q: Request) returns (r: Outcome)
    ensures r.Accepted? <==> Admissible(q)
    ensures r.Accepted? ==> IsScheduled(q.plan.tasks, CheckerFor(q), r.ordered)
    ensures r.Rejected? && ChecksBeforeLoop(q) ==> Justified(q.plan.tasks, q.profile, CheckerFor(q), r.why)
    ensures r.Rejected? && !ChecksBeforeLoop(q) ==> ExplainsEarly(q, r.why)
  {
    var tasks := q.plan.tasks;
    if q.plan.missionId != q.missionId {
      return Rejected(MissionMismatch);
    }
    if !(1 <= |tasks| <= q.remainingSteps) {
      return Rejected(TaskCount);
    }
    if q.profile.Unsupported? {
      return Rejected(UnknownProfile);
    }
    if q.plan.contexts != 1 {
      return Rejected(ContextCount);
    }
    if !UniqueIds(tasks) {
      return Rejected(DuplicateIds);
    }
    for i := 0 to |tasks|
      invariant forall j | 0 <= j < i :: DependenciesOk(tasks, tasks[j])
    {
      if !UniqueList(tasks[i].dependsOn) {
        return Rejected(DependencyList);
      }
      if !KnownTargets(tasks, tasks[i]) {
        return Rejected(DependencyTarget);
      }
    }
    r := OrderTasks(tasks, q.profile, CheckerFor(q));
  }

  // ----- What an admitted partial-order plan guarantees -----

  /** An admitted plan has a Task, and no more Tasks than steps remain. */
  lemma AdmittedFits(q: Request)
    requires Admissible(q)
    ensures 1 <= |q.plan.tasks| <= q.remainingSteps
  {
  }

  lemma GoodAgentIsKnown(q: Request, task: Task)
    requires CheckerFor(q)(task).Good?
    ensures CheckerFor(q)(task).agent in q.contexts
  {
  }

  lemma {:induction false} DistinctFits(s: seq<int>, pool: set<int>)
    requires forall i | 0 <= i < |s| :: s[i] in pool
    requires forall i, j | 0 <= i < j < |s| :: s[i] != s[j]
    ensures |s| <= |pool|
  {
    if s != [] {
      var n := |s| - 1;
      DistinctFits(s[..n], pool - {s[n]});
    }
  }

  /** A frontier is never wider than the number of robots. */
  lemma FrontierWidth(q: Request, k: nat)
    requires Admissible(q) && q.profile.PartialOrder?
    ensures |Round(GraphOf(q.plan.tasks), k)| <= |q.contexts|
  {
    var tasks, g, c := q.plan.tasks, GraphOf(q.plan.tasks), CheckerFor(q);
    var r := RoundList(tasks, g, k);
    assert |Round(g, k)| == |r| by { GraphDescribes(tasks); GraphClosed(tasks); RoundIds(tasks, g, k); }
    RoundDistinct(tasks, g, k);
    var robots := seq(|r|, i requires 0 <= i < |r| => c(tasks[r[i]]).agent);
    forall i | 0 <= i < |r| ensures robots[i] in q.contexts { GoodAgentIsKnown(q, tasks[r[i]]); }
    forall i, j | 0 <= i < j < |r| ensures robots[i] != robots[j] {
      if robots[i] == robots[j] {
        assert SharesRobot(tasks, c, r[i], r[j]);
        ReuseMeansNotDisjoint(tasks, c, k, r[i], r[j]);
      }
    }
    DistinctFits(robots, q.contexts.Keys);
  }

  lemma {:induction false} DoneWidth(g: Graph, width: nat, k: nat)
    requires forall j | 0 <= j < k :: |Round(g, j)| <= width
    ensures |Done(g, k)| <= width * k
  {
    hide Frontier;
    if k > 0 {
      DoneWidth(g, width, k - 1);
      assert |Round(g, k - 1)| <= width;
      assert width * k == width * (k - 1) + width;
    }
  }

  /** The last round that completes anything ends a chain with one task per round. */
  lemma {:induction false} LastRoundChain(g: Graph, k: nat) returns (p: seq<Id>)
    requires Closed(g) && g != map[] && Done(g, k) == g.Keys
    ensures IsChain(g, p) && |p| > 0 && Done(g, |p|) == g.Keys
  {
    if k > 0 && Done(g, k - 1) == g.Keys {
      p := LastRoundChain(g, k - 1);
    } else {
      var t :| t in g && t !in Done(g, k - 1);
      p := RoundChain(g, t, k - 1);
    }
  }

  /** An admitted partial-order plan has at most (number of robots) x (tasks on a longest chain) tasks. */
  lemma TaskCountBound(q: Request) returns (p: seq<Id>)
    requires Admissible(q) && q.profile.PartialOrder?
    ensures IsChain(GraphOf(q.plan.tasks), p)
    ensures |q.plan.tasks| <= |q.contexts| * |p|
  {
    var tasks, g := q.plan.tasks, GraphOf(q.plan.tasks);
    GraphDescribes(tasks);
    AcyclicProgress(g, |tasks|);
    p := LastRoundChain(g, |tasks|);
    forall j | 0 <= j < |p| ensures |Round(g, j)| <= |q.contexts| { FrontierWidth(q, j); }
    DoneWidth(g, |q.contexts|, |p|);
    assert |g.Keys| == |g|;
  }

  // ----- A plan that is admitted -----

  /** A single sound Task without dependencies has the shape of every profile. */
  lemma SingleTaskShape(task: Task, profile: Profile, c: Checker)
    requires task.dependsOn == [] && Passes(c, task)
    ensures WellFormed([task]) && ShapeOk([task], profile, c)
  {
    var tasks := [task];
    IdAt(tasks, 0);
    GraphAt(tasks, 0);
    assert tasks[..0] == [] && IdSet(tasks) == {task.id};
    var g := GraphOf(tasks);
    assert DepSet(task) == {} && tasks[0] == task && g[task.id] == {};
    assert g.Keys == {task.id};
    forall p ensures !IsCycle(g, p) {
      if IsCycle(g, p) { ChainLink(g, p); }
    }
    assert HamiltonianChain(g, [task.id]);
  }

  lemma ChainLink(g: Graph, p: seq<Id>)
    requires IsChain(g, p) && |p| >= 2
    ensures p[1] in g && p[0] in g[p[1]]
  {
  }

  const EXAMPLE_ACTION := "[open] <a>(1)"

  function ExampleTask(): Task {
    var contract := Contract("coherent", "agent-1-primitive", "v1");
    var parameters := map["env" := Text("env"), "task" := Num(0), "agent_id" := Num(1),
                          "agent_class" := Text("robot dog"), "action" := Text(EXAMPLE_ACTION)];
    Task(Id("t"), [], [Role("task", contract, parameters, [contract], [Resource("space", 1)])], "execution-report")
  }

  function ExampleContexts(): map<int, AgentContext> { map[1 := AgentContext("robot dog", [EXAMPLE_ACTION])] }

  function ExampleRequest(missionId: string, remainingSteps: int, profile: Profile): Request {
    Request(Plan(missionId, 1, [ExampleTask()]), missionId, "env", 0, ExampleContexts(), remainingSteps, profile)
  }

  lemma SpanOne(first: char, next: char, rest: string, p: char -> bool)
    requires p(first) && !p(next)
    ensures Span([first, next] + rest, p) == 1
  {
    var s := [first, next] + rest;
    assert s[1..][0] == next && Span(s[1..], p) == 0;
  }

  lemma ExampleReference()
    ensures AfterReference("<a>(1)") == Some("")
  {
    hide Span;
    var reference := "<a>(1)";
    SpanOne('a', '>', "(1)", IsNameChar);
    SpanOne('1', ')', "", IsDigit);
    assert reference[1..] == ['a', '>'] + "(1)";
    var rest := reference[2..];
    assert rest == ">(1)" && ">(" <= rest && rest[2..] == ['1', ')'] + "";
    var tail := rest[3..];
    assert tail == ")" && ")" <= tail && tail[1..] == "";
  }

  lemma ExampleSyntax()
    ensures PrimitiveSyntax(EXAMPLE_ACTION)
  {
    hide AfterReference, PlacementSyntax;
    ExampleReference();
    var verb := UNARY_VERBS[0];
    assert EXAMPLE_ACTION == verb + "<a>(1)";
    assert EXAMPLE_ACTION[|verb|..] == "<a>(1)";
  }

  lemma ExampleIsSound(missionId: string, remainingSteps: int, profile: Profile)
    ensures Passes(CheckerFor(ExampleRequest(missionId, remainingSteps, profile)), ExampleTask())
  {
    hide PrimitiveSyntax;
    ExampleSyntax();
    var params := ExampleTask().roles[0].parameters;
    assert params.Keys == PARAMETERS;
    assert Decimal(1) == "1" && "agent-" + "1" + "-primitive" == "agent-1-primitive";
  }

  /** In every supported profile and with any steps left, some plan is admitted. */
  lemma ExampleIsAdmissible(missionId: string, remainingSteps: int, profile: Profile)
    requires remainingSteps >= 1 && !profile.Unsupported?
    ensures Admissible(ExampleRequest(missionId, remainingSteps, profile))
  {
    hide WellFormed, ShapeOk, Passes, ExampleTask;
    var q := ExampleRequest(missionId, remainingSteps, profile);
    ExampleIsSound(missionId, remainingSteps, profile);
    assert ExampleTask().dependsOn == [] by { ExampleHasNoDependencies(); }
    SingleTaskShape(ExampleTask(), profile, CheckerFor(q));
  }

  lemma ExampleHasNoDependencies()
    ensures ExampleTask().dependsOn == []
  {
  }
}
