/** What the per-Task checks of plan admission decide, said on the text of an action and on the fields of a plan,
    without the functions that compute it. */
module PrimitiveTasks {
  import opened Dag
  import opened PlanAdmission
  import opened Wrappers

  // ----- The written forms of an action -----

  predicate IsName(s: string) { s != "" && '<' !in s && '>' !in s }

  predicate IsNumber(s: string) { s != "" && forall i | 0 <= i < |s| :: '0' <= s[i] <= '9' }

  function Reference(name: string, number: string): string { "<" + name + ">(" + number + ")" }

  ghost predicate UnaryForm(action: string, verb: string) {
    exists name, number :: IsName(name) && IsNumber(number) && action == verb + Reference(name, number)
  }

  ghost predicate PlacementForm(action: string, verb: string, relation: string) {
    exists name, number, name', number' ::
      && IsName(name) && IsNumber(number) && IsName(name') && IsNumber(number')
      && action == verb + Reference(name, number) + relation + Reference(name', number')
  }

  /** The eight primitives as they are written. */
  ghost predicate Written(action: string) {
    || UnaryForm(action, "[open] ") || UnaryForm(action, "[close] ") || UnaryForm(action, "[grab] ")
    || UnaryForm(action, "[movetowards] ") || UnaryForm(action, "[land_on] ") || UnaryForm(action, "[takeoff_from] ")
    || PlacementForm(action, "[putinto] ", " into ") || PlacementForm(action, "[puton] ", " on ")
  }

  // ----- Reading one reference -----

  lemma {:induction false} SpanIs(s: string, p: char -> bool)
    ensures forall i | 0 <= i < Span(s, p) :: p(s[i])
    ensures Span(s, p) < |s| ==> !p(s[Span(s, p)])
  {
    if s != [] && p(s[0]) {
      SpanIs(s[1..], p);
      forall i | 0 <= i < Span(s, p) ensures p(s[i]) {
        if i > 0 { assert s[i] == s[1..][i - 1]; }
      }
    }
  }

  lemma {:induction false} SpanOf(x: string, y: string, p: char -> bool)
    requires (forall i | 0 <= i < |x| :: p(x[i])) && (y == "" || !p(y[0]))
    ensures Span(x + y, p) == |x|
  {
    if x == "" {
      assert x + y == y;
    } else {
      SpanOf(x[1..], y, p);
      assert (x + y)[1..] == x[1..] + y;
    }
  }

  /** A written reference is read to its end. */
  lemma ReferenceIsRead(name: string, number: string, rest: string)
    requires IsName(name) && IsNumber(number)
    ensures AfterReference(Reference(name, number) + rest) == Some(rest)
  {
    hide Span;
    var s := Reference(name, number) + rest;
    var behind := ">(" + number + ")" + rest;
    assert s[1..] == name + behind;
    SpanOf(name, behind, IsNameChar);
    assert s[1 + |name|..] == behind && ">(" <= behind;
    assert behind[2..] == number + (")" + rest);
    SpanOf(number, ")" + rest, IsDigit);
    assert behind[2 + |number|..] == ")" + rest;
    assert (")" + rest)[1..] == rest;
  }

  lemma ReadName(s: string) returns (name: string, behind: string)
    requires AfterReference(s).Some?
    ensures IsName(name) && s == "<" + name + behind && ">(" <= behind
    ensures var d := Span(behind[2..], IsDigit);
      d > 0 && ")" <= behind[2 + d..] && AfterReference(s).value == behind[2 + d..][1..]
  {
    hide Span;
    var n := Span(s[1..], IsNameChar);
    SpanIs(s[1..], IsNameChar);
    name, behind := s[1..][..n], s[1 + n..];
    NameOf(s[1..], n);
  }

  lemma ReadNumber(behind: string) returns (number: string)
    requires ">(" <= behind
    requires var d := Span(behind[2..], IsDigit); d > 0 && ")" <= behind[2 + d..]
    ensures IsNumber(number) && behind == ">(" + number + ")" + behind[2 + Span(behind[2..], IsDigit)..][1..]
  {
    hide Span;
    var d := Span(behind[2..], IsDigit);
    SpanIs(behind[2..], IsDigit);
    number := behind[2..][..d];
    var tail := behind[2 + d..];
    assert tail == ")" + tail[1..];
    assert behind == ">(" + number + tail;
  }

  /** Whatever is read as a reference is written as one. */
  lemma ReadIsReference(s: string, rest: string) returns (name: string, number: string)
    requires AfterReference(s) == Some(rest)
    ensures IsName(name) && IsNumber(number) && s == Reference(name, number) + rest
  {
    hide Span, AfterReference, IsName, IsNumber;
    var behind;
    name, behind := ReadName(s);
    number := ReadNumber(behind);
    assert "<" + name + (">(" + number + ")" + rest) == Reference(name, number) + rest;
  }

  lemma NameOf(s: string, n: nat)
    requires 0 < n <= |s| && forall i | 0 <= i < n :: IsNameChar(s[i])
    ensures IsName(s[..n])
  {
  }

  // ----- The grammar -----

  lemma UnaryIff(action: string, verb: string)
    ensures UnaryForm(action, verb) <==> verb <= action && AfterReference(action[|verb|..]) == Some("")
  {
    hide AfterReference, Reference;
    if verb <= action && AfterReference(action[|verb|..]) == Some("") {
      var name, number := ReadIsReference(action[|verb|..], "");
      assert action == verb + Reference(name, number);
    }
    if UnaryForm(action, verb) {
      var name, number :| IsName(name) && IsNumber(number) && action == verb + Reference(name, number);
      ReferenceIsRead(name, number, "");
      assert action[|verb|..] == Reference(name, number) + "";
    }
  }

  lemma PlacementIff(action: string, verb: string, relation: string)
    ensures PlacementForm(action, verb, relation) <==> PlacementSyntax(action, verb, relation)
  {
    hide AfterReference, Reference, IsName, IsNumber;
    if PlacementSyntax(action, verb, relation) {
      var behind := AfterReference(action[|verb|..]).value;
      var name, number := ReadIsReference(action[|verb|..], behind);
      var name', number' := ReadIsReference(behind[|relation|..], "");
      assert behind == relation + Reference(name', number');
      assert action == verb + Reference(name, number) + relation + Reference(name', number');
    }
    if PlacementForm(action, verb, relation) {
      var name, number, name', number' :|
        && IsName(name) && IsNumber(number) && IsName(name') && IsNumber(number')
        && action == verb + Reference(name, number) + relation + Reference(name', number');
      PlacementIsRead(action, verb, relation, name, number, name', number');
    }
  }

  lemma PlacementIsRead(
    action: string, verb: string, relation: string, name: string, number: string, name': string, number': string)
    requires IsName(name) && IsNumber(number) && IsName(name') && IsNumber(number')
    requires action == verb + Reference(name, number) + relation + Reference(name', number')
    ensures PlacementSyntax(action, verb, relation)
  {
    hide AfterReference, Reference, IsName, IsNumber;
    var behind := relation + Reference(name', number');
    assert action[|verb|..] == Reference(name, number) + behind;
    ReferenceIsRead(name, number, behind);
    assert behind[|relation|..] == Reference(name', number') + "";
    ReferenceIsRead(name', number', "");
  }

  /** The syntax check accepts exactly the written forms. */
  lemma SyntaxIff(action: string)
    ensures PrimitiveSyntax(action) <==> Written(action)
  {
    hide AfterReference, PlacementSyntax, UnaryForm, PlacementForm;
    forall i | 0 <= i < |UNARY_VERBS|
      ensures UnaryForm(action, UNARY_VERBS[i]) <==>
              UNARY_VERBS[i] <= action && AfterReference(action[|UNARY_VERBS[i]|..]) == Some("")
    {
      UnaryIff(action, UNARY_VERBS[i]);
    }
    assert UNARY_VERBS[0] == "[open] " && UNARY_VERBS[1] == "[close] " && UNARY_VERBS[2] == "[grab] ";
    assert UNARY_VERBS[3] == "[movetowards] " && UNARY_VERBS[4] == "[land_on] ";
    assert UNARY_VERBS[5] == "[takeoff_from] " && |UNARY_VERBS| == 6;
    PlacementIff(action, "[putinto] ", " into ");
    PlacementIff(action, "[puton] ", " on ");
  }

  // ----- One Task -----

  ghost function DigitsValue(s: string): int {
    if s == "" then 0 else 10 * DigitsValue(s[..|s| - 1]) + (s[|s| - 1] as int - '0' as int)
  }

  /** The number in a contract's name is the agent's, in plain decimal. */
  lemma {:induction false} DecimalIs(n: nat)
    ensures IsNumber(Decimal(n)) && DigitsValue(Decimal(n)) == n
    ensures Decimal(n)[0] == '0' ==> n == 0
  {
    if n < 10 {
      assert Decimal(n)[..0] == "";
    } else {
      DecimalIs(n / 10);
      DecimalIs(n % 10);
      var front, last := Decimal(n / 10), Decimal(n % 10);
      assert |last| == 1 && last[..0] == "";
      assert (front + last)[..|front|] == front && (front + last)[|front|] == last[0];
    }
  }

  lemma DecimalSign(n: int)
    ensures Decimal(n) != "" && (Decimal(n)[0] == '-' <==> n < 0)
    ensures n < 0 ==> Decimal(n)[1..] == Decimal(-n)
  {
    DecimalIs(if n < 0 then -n else n);
  }

  lemma DecimalInjective(m: int, n: int)
    requires Decimal(m) == Decimal(n)
    ensures m == n
  {
    hide Decimal;
    DecimalSign(m);
    DecimalSign(n);
    DecimalIs(if m < 0 then -m else m);
    DecimalIs(if n < 0 then -n else n);
  }

  function AgentContract(agent: int): Contract {
    Contract("coherent", "agent-" + Decimal(agent) + "-primitive", "v1")
  }

  /** Different agents have different contracts. */
  lemma ContractNamesAgent(m: int, n: int)
    requires AgentContract(m) == AgentContract(n)
    ensures m == n
  {
    hide Decimal;
    var prefix, suffix := "agent-", "-primitive";
    var a, b := prefix + Decimal(m) + suffix, prefix + Decimal(n) + suffix;
    assert Decimal(m) == a[|prefix|..|a| - |suffix|] && Decimal(n) == b[|prefix|..|b| - |suffix|];
    DecimalInjective(m, n);
  }

  ghost predicate Has(p: map<string, Value>, key: string, value: Value) { key in p && p[key] == value }

  /** A sound Task: one Role at task scope whose parameters name an agent of the request, that agent's class, the
      request's environment and task, and a written action; whose operation and single capability are the contract of
      that agent; with one space unit and satisfaction by its execution report. */
  ghost predicate SoundFor(q: Request, task: Task, agent: int, action: string) {
    && |task.roles| == 1
    && var role := task.roles[0];
    && role.resourceScope == "task"
    && role.parameters.Keys == {"env", "task", "agent_id", "agent_class", "action"}
    && agent in q.contexts
    && Has(role.parameters, "agent_id", Num(agent)) && Has(role.parameters, "action", Text(action))
    && Has(role.parameters, "env", Text(q.env)) && Has(role.parameters, "task", Num(q.taskIndex))
    && Has(role.parameters, "agent_class", Text(q.contexts[agent].agentClass))
    && role.operation == AgentContract(agent) && role.capabilities == [AgentContract(agent)]
    && role.resources == [Resource("space", 1)]
    && task.satisfaction == "execution-report"
    && Written(action)
  }

  /** The check of a Task passes exactly when it is sound, and then reports its agent, whether its action is
      available to that agent now, and an entry with the Task's own id, dependencies and parameters. */
  lemma CheckIs(q: Request, task: Task)
    ensures CheckTask(q, task).Good? <==> exists agent, action :: SoundFor(q, task, agent, action)
    ensures forall agent, action | SoundFor(q, task, agent, action) ::
      CheckTask(q, task) == Good(agent, action in q.contexts[agent].availableActions,
                                 Entry(task.id, task.dependsOn, task.roles[0].parameters))
  {
    hide PrimitiveSyntax, Written;
    forall agent, action | SoundFor(q, task, agent, action)
      ensures CheckTask(q, task) == Good(agent, action in q.contexts[agent].availableActions,
                                         Entry(task.id, task.dependsOn, task.roles[0].parameters))
    {
      SyntaxIff(action);
    }
    if CheckTask(q, task).Good? {
      var p := task.roles[0].parameters;
      SyntaxIff(p["action"].s);
      assert SoundFor(q, task, p["agent_id"].n, p["action"].s);
    }
  }

  /** The fault reported for a Task is one of its fields. */
  lemma FaultIsReal(q: Request, task: Task)
    requires TaskFaultOf(q, task).Some?
    ensures match TaskFaultOf(q, task).value
      case RoleCount => |task.roles| != 1
      case ResourceScope => task.roles[0].resourceScope != "task"
      case ParameterSet => task.roles[0].parameters.Keys != {"env", "task", "agent_id", "agent_class", "action"}
      case UnknownAgent => forall agent | agent in q.contexts :: !Has(task.roles[0].parameters, "agent_id", Num(agent))
      case Environment =>
        !Has(task.roles[0].parameters, "env", Text(q.env)) || !task.roles[0].parameters["task"].Num?
      case TaskOrClass =>
        || !Has(task.roles[0].parameters, "task", Num(q.taskIndex))
        || forall agent | agent in q.contexts && Has(task.roles[0].parameters, "agent_id", Num(agent)) ::
             !Has(task.roles[0].parameters, "agent_class", Text(q.contexts[agent].agentClass))
      case OperationRoute =>
        forall agent | Has(task.roles[0].parameters, "agent_id", Num(agent)) ::
          task.roles[0].operation != AgentContract(agent)
      case Capability => task.roles[0].capabilities != [task.roles[0].operation]
      case Resources => task.roles[0].resources != [Resource("space", 1)]
      case Satisfaction => task.satisfaction != "execution-report"
      case Syntax => forall action | Written(action) :: !Has(task.roles[0].parameters, "action", Text(action))
  {
    hide PrimitiveSyntax, Written, Decimal;
    if TaskFaultOf(q, task).value.Syntax? {
      forall action | Written(action) ensures !Has(task.roles[0].parameters, "action", Text(action)) {
        SyntaxIff(action);
      }
    }
  }

  // ----- The dependency lists -----

  ghost predicate IsTaskId(tasks: seq<Task>, id: Id) { exists i :: 0 <= i < |tasks| && tasks[i].id == id }

  lemma {:induction false} IdSetIs(tasks: seq<Task>, id: Id)
    ensures id in IdSet(tasks) <==> IsTaskId(tasks, id)
  {
    if tasks != [] {
      var front := tasks[..|tasks| - 1];
      IdSetIs(front, id);
      assert forall i | 0 <= i < |front| :: front[i] == tasks[i];
      if IsTaskId(front, id) {
        var i :| 0 <= i < |front| && front[i].id == id;
        assert tasks[i].id == id;
      }
    }
  }

  /** No dependency is listed twice, and each is the id of another Task. */
  ghost predicate DependsOnOthers(tasks: seq<Task>, task: Task) {
    && (forall a, b | 0 <= a < b < |task.dependsOn| :: task.dependsOn[a] != task.dependsOn[b])
    && (forall d | d in task.dependsOn :: d != task.id && IsTaskId(tasks, d))
  }

  lemma DependenciesIff(tasks: seq<Task>, task: Task)
    ensures DependenciesOk(tasks, task) <==> DependsOnOthers(tasks, task)
  {
    forall d: Id ensures d in IdSet(tasks) <==> IsTaskId(tasks, d) { IdSetIs(tasks, d); }
    hide IdSet, IsTaskId;
  }

  /** A plan is well formed exactly when no two Tasks have the same id and each depends on others, on each at most
      once. */
  lemma WellFormedIff(tasks: seq<Task>)
    ensures WellFormed(tasks) <==>
      && (forall i, j | 0 <= i < j < |tasks| :: tasks[i].id != tasks[j].id)
      && (forall i | 0 <= i < |tasks| :: DependsOnOthers(tasks, tasks[i]))
  {
    forall i | 0 <= i < |tasks| ensures DependenciesOk(tasks, tasks[i]) <==> DependsOnOthers(tasks, tasks[i]) {
      DependenciesIff(tasks, tasks[i]);
    }
    hide DependenciesOk, DependsOnOthers;
  }

  // ----- An admitted plan -----

  /** Every Task of an admitted plan is sound, and one without dependencies can be done right now. */
  lemma AdmittedTasksAreSound(q: Request, i: nat) returns (agent: int, action: string)
    requires Admissible(q) && i < |q.plan.tasks|
    ensures SoundFor(q, q.plan.tasks[i], agent, action)
    ensures q.plan.tasks[i].dependsOn == [] ==> action in q.contexts[agent].availableActions
  {
    hide CheckTask, SoundFor;
    var task := q.plan.tasks[i];
    assert Passes(CheckerFor(q), task);
    CheckIs(q, task);
    agent, action :| SoundFor(q, task, agent, action);
  }

  /** The returned list has one entry per Task: its own id, dependencies and parameters, in an order in which every
      dependency comes first. */
  lemma ReturnedEntries(q: Request, ordered: seq<Entry>)
    requires Admissible(q) && IsScheduled(q.plan.tasks, CheckerFor(q), ordered)
    ensures |ordered| == |q.plan.tasks|
    ensures Topological(GraphOf(q.plan.tasks), IdsAt(q.plan.tasks, Schedule(q.plan.tasks)))
    ensures forall i | 0 <= i < |ordered| ::
      var task := q.plan.tasks[Schedule(q.plan.tasks)[i]];
      |task.roles| == 1 && ordered[i] == Entry(task.id, task.dependsOn, task.roles[0].parameters)
  {
    var tasks := q.plan.tasks;
    ScheduleIsTopological(tasks);
    hide Schedule, CheckTask, SoundFor, GraphOf, Topological;
    forall i | 0 <= i < |ordered|
      ensures var task := tasks[Schedule(tasks)[i]];
        |task.roles| == 1 && ordered[i] == Entry(task.id, task.dependsOn, task.roles[0].parameters)
    {
      EntryOf(q, Schedule(tasks)[i]);
    }
  }

  lemma EntryOf(q: Request, i: nat)
    requires Admissible(q) && i < |q.plan.tasks|
    ensures var task := q.plan.tasks[i];
      && |task.roles| == 1 && CheckerFor(q)(task).Good?
      && CheckerFor(q)(task).entry == Entry(task.id, task.dependsOn, task.roles[0].parameters)
  {
    hide CheckTask, Admissible, Written;
    var agent, action := AdmittedTasksAreSound(q, i);
    CheckIs(q, q.plan.tasks[i]);
  }
}
