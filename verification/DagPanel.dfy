/** The console's task graph view: one pass over the listed tasks assigns each task a column.
    The column is meant to be the length of the task's longest dependency chain; the listing order decides
    whether it is. */
module DagPanel {
  import opened Dag
  import opened PlanAdmission

  /** One more than the largest column already assigned to a dependency; an unseen dependency counts as 0. */
  function Column(depth: map<Id, nat>, deps: seq<Id>): nat {
    if deps == [] then 0
    else
      var n := |deps| - 1;
      var rest := Column(depth, deps[..n]);
      var here := (if deps[n] in depth then depth[deps[n]] else 0) + 1;
      if rest < here then here else rest
  }

  /** The columns after the listed tasks have been visited in order. */
  function Depths(tasks: seq<Task>): map<Id, nat> {
    if tasks == [] then map[]
    else
      var n := |tasks| - 1;
      var depth := Depths(tasks[..n]);
      depth[tasks[n].id := Column(depth, tasks[n].dependsOn)]
  }

  /** The drawing loop fills the depth map, then groups the tasks into columns in listing order. */
  method Layers(tasks: seq<Task>) returns (depth: map<Id, nat>, columns: map<nat, seq<nat>>)
    ensures depth == Depths(tasks)
    ensures forall i | 0 <= i < |tasks| :: tasks[i].id in depth
    ensures forall d, i: nat | i < |tasks| :: d in columns && i in columns[d] <==> depth[tasks[i].id] == d
    ensures forall d | d in columns ::
      && columns[d] != []
      && (forall i | 0 <= i < |columns[d]| :: columns[d][i] < |tasks|)
      && (forall i, j | 0 <= i < j < |columns[d]| :: columns[d][i] < columns[d][j])
  {
    depth := map[];
    for n := 0 to |tasks|
      invariant depth == Depths(tasks[..n])
      invariant forall i | 0 <= i < n :: tasks[i].id in depth
    {
      depth := depth[tasks[n].id := Column(depth, tasks[n].dependsOn)];
      assert tasks[..n + 1][..n] == tasks[..n];
    }
    assert tasks[..|tasks|] == tasks;
    columns := map[];
    for n := 0 to |tasks|
      invariant forall d | d in columns ::
        && columns[d] != []
        && (forall i | 0 <= i < |columns[d]| :: columns[d][i] < n)
        && (forall i, j | 0 <= i < j < |columns[d]| :: columns[d][i] < columns[d][j])
      invariant forall d, i: nat | i < n :: d in columns && i in columns[d] <==> depth[tasks[i].id] == d
    {
      var d := depth[tasks[n].id];
      columns := columns[d := (if d in columns then columns[d] else []) + [n]];
    }
  }

  // ----- What one visit computes -----

  lemma {:induction false} ColumnCovers(depth: map<Id, nat>, deps: seq<Id>, d: Id)
    requires d in deps
    ensures Column(depth, deps) >= (if d in depth then depth[d] else 0) + 1
  {
    var n := |deps| - 1;
    if deps[n] != d { ColumnCovers(depth, deps[..n], d); }
  }

  lemma {:induction false} ColumnAttained(depth: map<Id, nat>, deps: seq<Id>) returns (d: Id)
    requires deps != []
    ensures d in deps && Column(depth, deps) == (if d in depth then depth[d] else 0) + 1
  {
    var n := |deps| - 1;
    var here := (if deps[n] in depth then depth[deps[n]] else 0) + 1;
    if deps[..n] == [] || Column(depth, deps[..n]) < here {
      d := deps[n];
    } else {
      d := ColumnAttained(depth, deps[..n]);
    }
  }

  lemma {:induction false} DepthsKeys(tasks: seq<Task>)
    ensures Depths(tasks).Keys == IdSet(tasks)
  {
    if tasks != [] { DepthsKeys(tasks[..|tasks| - 1]); }
  }

  /** A task keeps the column it was given when it was visited. */
  lemma {:induction false} DepthAt(tasks: seq<Task>, i: nat, n: nat)
    requires UniqueIds(tasks) && i < n <= |tasks|
    ensures tasks[i].id in Depths(tasks[..n])
    ensures Depths(tasks[..n])[tasks[i].id] == Column(Depths(tasks[..i]), tasks[i].dependsOn)
  {
    assert tasks[..n][..n - 1] == tasks[..n - 1];
    if i < n - 1 { DepthAt(tasks, i, n - 1); }
  }

  // ----- Longest chains, one dependency at a time -----

  /** Every dependency's longest chain is strictly shorter. */
  lemma DependencyShallower(g: Graph, d: Id, t: Id, j: nat, k: nat)
    requires Closed(g) && Acyclic(g) && t in g && d in g[t] && LongestChain(g, d, j) && LongestChain(g, t, k)
    ensures j < k
  {
    var p :| ChainTo(g, p, d) && |p| == j + 1;
    assert ChainTo(g, p + [t], t);
  }

  /** A task with a longest chain of `k + 1` edges has a dependency with one of `k`. */
  lemma DeepestDependency(g: Graph, t: Id, k: nat) returns (d: Id)
    requires Closed(g) && Acyclic(g) && LongestChain(g, t, k + 1)
    ensures d in g[t] && LongestChain(g, d, k)
  {
    var p :| ChainTo(g, p, t) && |p| == k + 2;
    d := p[k];
    assert ChainTo(g, p[..k + 1], d);
    forall q | ChainTo(g, q, d) ensures |q| <= k + 1 { assert ChainTo(g, q + [t], t); }
  }

  lemma HasLongestChain(g: Graph, t: Id) returns (k: nat)
    requires Closed(g) && Acyclic(g) && t in g
    ensures LongestChain(g, t, k)
  {
    k := AcyclicRound(g, t);
  }

  // ----- When the single pass is exact -----

  ghost predicate Listed(g: Graph, tasks: seq<Task>) {
    Describes(g, tasks) && UniqueIds(tasks) && g.Keys == IdSet(tasks) && Closed(g) && Acyclic(g)
  }

  /** Every task is drawn in the column of its longest dependency chain. */
  ghost predicate ExactColumns(g: Graph, tasks: seq<Task>) {
    forall i | 0 <= i < |tasks| ::
      tasks[i].id in Depths(tasks) && LongestChain(g, tasks[i].id, Depths(tasks)[tasks[i].id])
  }

  /** Every task at depth two or more has one of its deepest dependencies listed before it. */
  ghost predicate DeepestListedFirst(g: Graph, tasks: seq<Task>) {
    forall i, k: nat | 0 <= i < |tasks| && k >= 2 && LongestChain(g, tasks[i].id, k) ::
      exists j :: 0 <= j < i && tasks[j].id in tasks[i].dependsOn && LongestChain(g, tasks[j].id, k - 1)
  }

  /** Every dependency of every task is listed before it. */
  ghost predicate DependencyOrder(tasks: seq<Task>) {
    forall i, d | 0 <= i < |tasks| && d in tasks[i].dependsOn :: d in IdSet(tasks[..i])
  }

  /** Which column the visit of task `i` assigns, given the columns of the tasks before it. */
  lemma VisitExact(g: Graph, tasks: seq<Task>, i: nat, k: nat)
    requires Listed(g, tasks) && i < |tasks| && LongestChain(g, tasks[i].id, k)
    requires VisitsExact(g, tasks, i)
    ensures Column(Depths(tasks[..i]), tasks[i].dependsOn) <= k
    ensures k <= 1 ==> Column(Depths(tasks[..i]), tasks[i].dependsOn) == k
  {
    var deps, depth := tasks[i].dependsOn, Depths(tasks[..i]);
    if deps == [] {
      if k > 0 { var d := DeepestDependency(g, tasks[i].id, k - 1); }
    } else {
      var d := ColumnAttained(depth, deps);
      assert d in g[tasks[i].id];
      var j := HasLongestChain(g, d);
      DependencyShallower(g, d, tasks[i].id, j, k);
      if d in depth {
        SeenDepth(g, tasks, i, d, j);
      }
    }
  }

  /** A dependency that was already visited carries its exact column. */
  lemma SeenDepth(g: Graph, tasks: seq<Task>, i: nat, d: Id, k: nat)
    requires UniqueIds(tasks) && i <= |tasks| && d in Depths(tasks[..i]) && LongestChain(g, d, k)
    requires VisitsExact(g, tasks, i)
    ensures Depths(tasks[..i])[d] == k
  {
    DepthsKeys(tasks[..i]);
    var j := Position(tasks[..i], d);
    DepthAt(tasks, j, i);
    LongestChainUnique(g, d, k, Depths(tasks[..i])[d]);
  }

  /** The visits before `n` all assigned exact columns. */
  ghost predicate VisitsExact(g: Graph, tasks: seq<Task>, n: nat)
    requires n <= |tasks|
  {
    forall j | 0 <= j < n :: LongestChain(g, tasks[j].id, Column(Depths(tasks[..j]), tasks[j].dependsOn))
  }

  lemma NextVisitExact(g: Graph, tasks: seq<Task>, i: nat)
    requires Listed(g, tasks) && DeepestListedFirst(g, tasks) && i < |tasks| && VisitsExact(g, tasks, i)
    ensures LongestChain(g, tasks[i].id, Column(Depths(tasks[..i]), tasks[i].dependsOn))
  {
    var k := HasLongestChain(g, tasks[i].id);
    VisitExact(g, tasks, i, k);
    if k >= 2 {
      var j :| 0 <= j < i && tasks[j].id in tasks[i].dependsOn && LongestChain(g, tasks[j].id, k - 1);
      DepthAt(tasks, j, i);
      SeenDepth(g, tasks, i, tasks[j].id, k - 1);
      ColumnCovers(Depths(tasks[..i]), tasks[i].dependsOn, tasks[j].id);
    }
  }

  lemma {:induction false} FirstVisitsExact(g: Graph, tasks: seq<Task>, n: nat)
    requires Listed(g, tasks) && DeepestListedFirst(g, tasks) && n <= |tasks|
    ensures VisitsExact(g, tasks, n)
  {
    hide LongestChain, Depths, Column, DeepestListedFirst, Listed;
    if n > 0 {
      FirstVisitsExact(g, tasks, n - 1);
      NextVisitExact(g, tasks, n - 1);
    }
  }

  lemma ExactNeedsListing(g: Graph, tasks: seq<Task>, i: nat, k: nat) returns (j: nat)
    requires Listed(g, tasks) && ExactColumns(g, tasks)
    requires i < |tasks| && k >= 2 && LongestChain(g, tasks[i].id, k)
    ensures j < i && tasks[j].id in tasks[i].dependsOn && LongestChain(g, tasks[j].id, k - 1)
  {
    assert tasks[..|tasks|] == tasks;
    DepthAt(tasks, i, |tasks|);
    LongestChainUnique(g, tasks[i].id, k, Depths(tasks)[tasks[i].id]);
    var d := ColumnAttained(Depths(tasks[..i]), tasks[i].dependsOn);
    DepthsKeys(tasks[..i]);
    j := Position(tasks[..i], d);
    DepthAt(tasks, j, i);
    DepthAt(tasks, j, |tasks|);
  }

  /** The drawn columns are the longest chains exactly when deepest dependencies are listed first. */
  lemma ColumnsExactIff(g: Graph, tasks: seq<Task>)
    requires Listed(g, tasks)
    ensures ExactColumns(g, tasks) <==> DeepestListedFirst(g, tasks)
  {
    if DeepestListedFirst(g, tasks) {
      FirstVisitsExact(g, tasks, |tasks|);
      assert tasks[..|tasks|] == tasks;
      forall i | 0 <= i < |tasks|
        ensures tasks[i].id in Depths(tasks) && LongestChain(g, tasks[i].id, Depths(tasks)[tasks[i].id])
      {
        DepthAt(tasks, i, |tasks|);
      }
    }
    if ExactColumns(g, tasks) {
      forall i, k: nat | 0 <= i < |tasks| && k >= 2 && LongestChain(g, tasks[i].id, k)
        ensures exists j :: 0 <= j < i && tasks[j].id in tasks[i].dependsOn && LongestChain(g, tasks[j].id, k - 1)
      {
        var j := ExactNeedsListing(g, tasks, i, k);
      }
    }
  }

  /** In dependency order every column is exact and every edge points to a strictly later column. */
  lemma DependencyOrderDrawsRightwards(g: Graph, tasks: seq<Task>)
    requires Listed(g, tasks) && DependencyOrder(tasks)
    ensures ExactColumns(g, tasks)
    ensures forall i, d | 0 <= i < |tasks| && d in tasks[i].dependsOn ::
              d in Depths(tasks) && tasks[i].id in Depths(tasks) && Depths(tasks)[d] < Depths(tasks)[tasks[i].id]
  {
    forall i, k: nat | 0 <= i < |tasks| && k >= 2 && LongestChain(g, tasks[i].id, k)
      ensures exists j :: 0 <= j < i && tasks[j].id in tasks[i].dependsOn && LongestChain(g, tasks[j].id, k - 1)
    {
      var d := DeepestDependency(g, tasks[i].id, k - 1);
      var j := Position(tasks[..i], d);
      assert tasks[j].id == d;
    }
    ColumnsExactIff(g, tasks);
    forall i, d | 0 <= i < |tasks| && d in tasks[i].dependsOn
      ensures d in Depths(tasks) && tasks[i].id in Depths(tasks) && Depths(tasks)[d] < Depths(tasks)[tasks[i].id]
    {
      var j := Position(tasks[..i], d);
      assert tasks[j].id == d;
      DependencyShallower(g, d, tasks[i].id, Depths(tasks)[d], Depths(tasks)[tasks[i].id]);
    }
  }

  function ListedAt(tasks: seq<Task>, at: seq<nat>): seq<Task>
    requires forall i | 0 <= i < |at| :: at[i] < |tasks|
  {
    seq(|at|, i requires 0 <= i < |at| => tasks[at[i]])
  }

  /** Listed in the order admission returns them, the tasks of any acyclic plan are drawn exactly: the column,
      the longest chain and the admission frontier of a task are the same number. */
  lemma ScheduledPlanDrawnExactly(tasks: seq<Task>)
    requires WellFormed(tasks) && Acyclic(GraphOf(tasks))
    ensures ExactColumns(GraphOf(tasks), ListedAt(tasks, Schedule(tasks)))
    ensures forall i | 0 <= i < |tasks| ::
              && tasks[i].id in Depths(ListedAt(tasks, Schedule(tasks)))
              && tasks[i].id in Round(GraphOf(tasks), Depths(ListedAt(tasks, Schedule(tasks)))[tasks[i].id])
  {
    hide Listing, Done, LongestChain, Describes, Closed, Acyclic, Topological, GraphOf, IdSet, WellFormed;
    var g, listed := GraphOf(tasks), ListedAt(tasks, Schedule(tasks));
    ScheduleListed(tasks);
    DependencyOrderDrawsRightwards(g, listed);
    forall n | 0 <= n < |tasks|
      ensures tasks[n].id in Depths(listed) && tasks[n].id in Round(g, Depths(listed)[tasks[n].id])
    {
      ScheduleIsTopological(tasks);
      assert n in Schedule(tasks);
      var i :| 0 <= i < |Schedule(tasks)| && Schedule(tasks)[i] == n;
      assert listed[i] == tasks[n];
      ExactRound(g, listed, i);
    }
  }

  lemma ExactRound(g: Graph, listed: seq<Task>, i: nat)
    requires Listed(g, listed) && ExactColumns(g, listed) && i < |listed|
    ensures listed[i].id in Round(g, Depths(listed)[listed[i].id])
  {
    var k := AcyclicRound(g, listed[i].id);
    LongestChainUnique(g, listed[i].id, k, Depths(listed)[listed[i].id]);
  }

  lemma ScheduleListed(tasks: seq<Task>)
    requires WellFormed(tasks) && Acyclic(GraphOf(tasks))
    ensures Listed(GraphOf(tasks), ListedAt(tasks, Schedule(tasks)))
    ensures DependencyOrder(ListedAt(tasks, Schedule(tasks)))
  {
    hide Listing, Done, LongestChain, Acyclic, ShallowerFirst, GraphOf, IdSet;
    var g, l := GraphOf(tasks), Schedule(tasks);
    var listed, ids := ListedAt(tasks, l), IdsAt(tasks, l);
    ScheduleIsTopological(tasks);
    SameIds(tasks, listed, l);
    GraphDescribes(tasks);
    GraphClosed(tasks);
    forall i, d | 0 <= i < |listed| && d in listed[i].dependsOn ensures d in IdSet(listed[..i]) {
      assert d in g[ids[i]];
      var j := IndexIn(ids[..i], d);
      IdAt(listed[..i], j);
    }
  }

  lemma SameIds(tasks: seq<Task>, listed: seq<Task>, l: seq<nat>)
    requires WellFormed(tasks) && (forall i | 0 <= i < |l| :: l[i] < |tasks|)
    requires (forall n: nat | n < |tasks| :: n in l) && (forall i, j | 0 <= i < j < |l| :: l[i] != l[j])
    requires listed == ListedAt(tasks, l)
    ensures UniqueIds(listed) && IdSet(listed) == IdSet(tasks)
  {
    forall x ensures x in IdSet(listed) <==> x in IdSet(tasks) {
      if x in IdSet(listed) { var i := Position(listed, x); IdAt(tasks, l[i]); }
      if x in IdSet(tasks) {
        var n := Position(tasks, x);
        assert n in l;
        var i :| 0 <= i < |l| && l[i] == n;
        IdAt(listed, i);
      }
    }
  }

  /** The console draws the plan's own listing: last-first, the deepest task lands in the wrong column. */
  lemma PlanListingMisdraws(a: Id, b: Id, c: Id)
    requires a != b && b != c && a != c
    ensures var tasks := [Task(c, [b], [], ""), Task(b, [a], [], ""), Task(a, [], [], "")];
      && WellFormed(tasks)
      && ChainTo(GraphOf(tasks), [a, b, c], c)
      && c in Depths(tasks) && Depths(tasks)[c] == 1
  {
    var tasks := [Task(c, [b], [], ""), Task(b, [a], [], ""), Task(a, [], [], "")];
    IdAt(tasks, 0); IdAt(tasks, 1); IdAt(tasks, 2);
    GraphAt(tasks, 0); GraphAt(tasks, 1); GraphAt(tasks, 2);
    var chain := [a, b, c];
    assert tasks[..2] == [Task(c, [b], [], ""), Task(b, [a], [], "")];
    assert tasks[..2][..1] == [Task(c, [b], [], "")];
    assert tasks[..2][..1][..0] == [];
    assert Column(map[], [b]) == 1 by { assert [b][..0] == []; }
    assert Depths(tasks[..2][..1]) == map[c := 1];
    assert Column(map[c := 1], [a]) == 1 by { assert [a][..0] == []; }
  }
}
