/** Dependency graphs of a MissionPlan: chains, cycles, and the frontiers that plan admission peels off.
    A chain is the independent notion ("each task directly depends on the one before it"); the frontiers
    are what the admission loop computes. The lemmas tie the two together. */
module Dag {
  import opened Wrappers

  /** The identifier of one Task of a plan. */
  datatype Id = Id(name: string)

  /** Every task with the set of tasks it directly depends on. */
  type Graph = map<Id, set<Id>>

  ghost predicate Closed(g: Graph) {
    forall t | t in g :: g[t] <= g.Keys
  }

  // ----- Chains and cycles -----

  ghost function Elements(o: seq<Id>): set<Id> {
    set x | x in o
  }

  /** Each element is a task that directly depends on the element before it. */
  ghost predicate IsChain(g: Graph, p: seq<Id>) {
    && (forall i | 0 <= i < |p| :: p[i] in g)
    && (forall i, j | 0 <= i && j == i + 1 < |p| :: p[i] in g[p[j]])
  }

  lemma ChainSlice(g: Graph, p: seq<Id>, lo: nat, hi: nat)
    requires IsChain(g, p) && lo <= hi <= |p|
    ensures IsChain(g, p[lo..hi])
  {
    var s := p[lo..hi];
    forall i, j | 0 <= i && j == i + 1 < |s| ensures s[i] in g[s[j]] {
      assert s[i] == p[lo + i] && s[j] == p[lo + j];
    }
  }

  ghost predicate ChainTo(g: Graph, p: seq<Id>, t: Id) {
    |p| > 0 && IsChain(g, p) && p[|p| - 1] == t
  }

  ghost predicate IsCycle(g: Graph, p: seq<Id>) {
    |p| >= 2 && IsChain(g, p) && p[0] == p[|p| - 1]
  }

  ghost predicate Acyclic(g: Graph) {
    forall p :: !IsCycle(g, p)
  }

  /** `a` is a direct or transitive dependency of `b`. */
  ghost predicate Precedes(g: Graph, a: Id, b: Id) {
    exists p :: |p| >= 2 && ChainTo(g, p, b) && p[0] == a
  }

  /** The longest chain ending in `t` has exactly `k` dependency edges. */
  ghost predicate LongestChain(g: Graph, t: Id, k: nat) {
    && (exists p :: ChainTo(g, p, t) && |p| == k + 1)
    && (forall p | ChainTo(g, p, t) :: |p| <= k + 1)
  }

  lemma LongestChainUnique(g: Graph, t: Id, j: nat, k: nat)
    requires LongestChain(g, t, j) && LongestChain(g, t, k)
    ensures j == k
  {
    var p :| ChainTo(g, p, t) && |p| == j + 1;
    var q :| ChainTo(g, q, t) && |q| == k + 1;
  }

  // ----- Frontiers -----

  /** The tasks that become ready once exactly `done` has completed. */
  ghost function Frontier(g: Graph, done: set<Id>): set<Id> {
    set t | t in g && t !in done && g[t] <= done
  }

  /** The tasks completed after `k` whole frontiers. */
  ghost function Done(g: Graph, k: nat): set<Id> {
    if k == 0 then {} else Done(g, k - 1) + Frontier(g, Done(g, k - 1))
  }

  ghost function Round(g: Graph, k: nat): set<Id> {
    Frontier(g, Done(g, k))
  }

  lemma {:induction false} DoneGrows(g: Graph, j: nat, k: nat)
    requires j <= k
    ensures Done(g, j) <= Done(g, k) <= g.Keys
    decreases k
  {
    if k > 0 {
      if j < k { DoneGrows(g, j, k - 1); } else { DoneGrows(g, k - 1, k - 1); }
    }
  }

  /** Every completed task was in exactly one earlier round. */
  lemma {:induction false} DoneRound(g: Graph, t: Id, k: nat) returns (j: nat)
    requires t in Done(g, k)
    ensures j < k && t in Round(g, j)
  {
    if t in Done(g, k - 1) { j := DoneRound(g, t, k - 1); } else { j := k - 1; }
  }

  /** A task completed within `k` rounds ends no chain of more than `k` tasks. */
  lemma {:induction false} ChainBound(g: Graph, p: seq<Id>, t: Id, k: nat)
    requires t in Done(g, k) && ChainTo(g, p, t)
    ensures |p| <= k
    decreases k
  {
    if t in Done(g, k - 1) {
      ChainBound(g, p, t, k - 1);
    } else if |p| > 1 {
      ChainBound(g, p[..|p| - 1], p[|p| - 2], k - 1);
    }
  }

  /** A task of round `k` really waited for a chain of `k` dependencies. */
  lemma {:induction false} RoundChain(g: Graph, t: Id, k: nat) returns (p: seq<Id>)
    requires Closed(g) && t in Round(g, k)
    ensures ChainTo(g, p, t) && |p| == k + 1
    decreases k
  {
    if k == 0 {
      p := [t];
    } else {
      var d :| d in g[t] && d in Round(g, k - 1);
      var q := RoundChain(g, d, k - 1);
      p := q + [t];
    }
  }

  /** The frontier index of a task is the length of its longest dependency chain. */
  lemma RoundIsLongestChain(g: Graph, t: Id, k: nat)
    requires Closed(g) && t in Round(g, k)
    ensures LongestChain(g, t, k)
  {
    var p := RoundChain(g, t, k);
    forall q | ChainTo(g, q, t) ensures |q| <= k + 1 {
      assert t in Done(g, k + 1);
      ChainBound(g, q, t, k + 1);
    }
  }

  lemma RoundUnique(g: Graph, t: Id, j: nat, k: nat)
    requires t in Round(g, j) && t in Round(g, k)
    ensures j == k
  {
    if j < k {
      assert t in Done(g, j + 1);
      DoneGrows(g, j + 1, k);
    } else if k < j {
      assert t in Done(g, k + 1);
      DoneGrows(g, k + 1, j);
    }
  }

  /** Tasks admitted into one frontier are incomparable under the transitive dependency relation. */
  lemma RoundIncomparable(g: Graph, a: Id, b: Id, k: nat)
    requires Closed(g) && a in Round(g, k) && b in Round(g, k)
    ensures !Precedes(g, a, b)
  {
    if Precedes(g, a, b) {
      var q :| |q| >= 2 && ChainTo(g, q, b) && q[0] == a;
      var p := RoundChain(g, a, k);
      var whole := p + q[1..];
      assert ChainTo(g, whole, b);
      RoundIsLongestChain(g, b, k);
    }
  }

  // ----- Cycles -----

  /** A walk longer than the set it stays in repeats an element. */
  lemma {:induction false} Pigeonhole(p: seq<Id>, s: set<Id>) returns (i: nat, j: nat)
    requires |p| > |s| && forall x | x in p :: x in s
    ensures i < j < |p| && p[i] == p[j]
  {
    assert p[|p| - 1] in s;
    var init, last := p[..|p| - 1], p[|p| - 1];
    if k :| 0 <= k < |init| && init[k] == last {
      i, j := k, |p| - 1;
    } else {
      assert forall x | x in init :: x in s - {last};
      i, j := Pigeonhole(init, s - {last});
    }
  }

  /** Every unfinished task still waits for an unfinished dependency. */
  ghost predicate Stuck(g: Graph, todo: set<Id>) {
    todo <= g.Keys && forall u | u in todo :: g[u] * todo != {}
  }

  /** Walking backwards along unfinished dependencies never gets stuck. */
  lemma {:induction false} BackwardWalk(g: Graph, todo: set<Id>, t: Id, n: nat) returns (p: seq<Id>)
    requires Stuck(g, todo) && t in todo
    ensures |p| == n + 1 && ChainTo(g, p, t) && forall x | x in p :: x in todo
    decreases n
  {
    if n == 0 {
      p := [t];
    } else {
      var d :| d in g[t] * todo;
      var q := BackwardWalk(g, todo, d, n - 1);
      p := q + [t];
    }
  }

  lemma UnfinishedIsStuck(g: Graph, done: set<Id>)
    requires Closed(g) && Frontier(g, done) == {}
    ensures Stuck(g, g.Keys - done)
  {
    forall u | u in g.Keys - done ensures g[u] * (g.Keys - done) != {} {
      assert u !in Frontier(g, done);
      var d :| d in g[u] && d !in done;
      assert d in g[u] * (g.Keys - done);
    }
  }

  /** When tasks remain but none is ready, the remaining tasks really contain a cycle. */
  lemma StuckHasCycle(g: Graph, done: set<Id>) returns (p: seq<Id>)
    requires Closed(g) && Frontier(g, done) == {} && g.Keys - done != {}
    ensures IsCycle(g, p) && Elements(p) <= g.Keys - done
  {
    UnfinishedIsStuck(g, done);
    var t :| t in g.Keys - done;
    p := WalkRepeats(g, g.Keys - done, t);
  }

  lemma WalkRepeats(g: Graph, todo: set<Id>, t: Id) returns (p: seq<Id>)
    requires Stuck(g, todo) && t in todo
    ensures IsCycle(g, p) && Elements(p) <= todo
  {
    var walk := BackwardWalk(g, todo, t, |todo|);
    var i, j := Pigeonhole(walk, todo);
    p := walk[i..j + 1];
    ChainSlice(g, walk, i, j + 1);
    forall x | x in p ensures x in todo {
      var m := IndexIn(p, x);
      assert walk[i + m] in walk;
    }
  }

  /** No task of a cycle ever completes, however many rounds are run. */
  lemma {:induction false} CycleNeverDone(g: Graph, p: seq<Id>, i: nat, k: nat)
    requires IsCycle(g, p) && i < |p|
    ensures p[i] !in Done(g, k)
    decreases k
  {
    if k > 0 {
      var before := if i == 0 then |p| - 2 else i - 1;
      assert p[before] in g[p[i]];
      CycleNeverDone(g, p, before, k - 1);
      CycleNeverDone(g, p, i, k - 1);
    }
  }

  /** The frontier loop can finish exactly when the graph is acyclic. */
  lemma FinishesIffAcyclic(g: Graph)
    requires Closed(g)
    ensures Acyclic(g) <==> exists k: nat :: Done(g, k) == g.Keys
  {
    if k: nat :| Done(g, k) == g.Keys {
      forall p ensures !IsCycle(g, p) {
        if IsCycle(g, p) { CycleNeverDone(g, p, 0, k); assert false; }
      }
    }
    if Acyclic(g) {
      AcyclicProgress(g, |g|);
    }
  }

  /** In an acyclic graph a round always completes something while anything is unfinished. */
  lemma RoundAdds(g: Graph, k: nat)
    requires Closed(g) && Acyclic(g) && k > 0
    ensures if Done(g, k - 1) == g.Keys then Done(g, k) == g.Keys else |Done(g, k)| > |Done(g, k - 1)|
  {
    DoneGrows(g, k - 1, k);
    if Done(g, k - 1) != g.Keys {
      if Round(g, k - 1) == {} {
        var p := StuckHasCycle(g, Done(g, k - 1));
      } else {
        var t :| t in Round(g, k - 1);
        ProperSubsetSize(Done(g, k - 1), Done(g, k));
      }
    }
  }

  lemma {:induction false} AcyclicGrows(g: Graph, k: nat)
    requires Closed(g) && Acyclic(g)
    ensures Done(g, k) == g.Keys || |Done(g, k)| >= k
    decreases k
  {
    hide Done;
    if k > 0 {
      AcyclicGrows(g, k - 1);
      RoundAdds(g, k);
    }
  }

  /** An acyclic graph is finished after as many rounds as it has tasks, at the latest. */
  lemma AcyclicProgress(g: Graph, k: nat)
    requires Closed(g) && Acyclic(g) && k >= |g|
    ensures Done(g, k) == g.Keys
  {
    AcyclicGrows(g, k);
    DoneGrows(g, k, k);
    if Done(g, k) != g.Keys {
      assert |g.Keys| == |g|;
      ProperSubsetSize(Done(g, k), g.Keys);
    }
  }

  /** Every task of an acyclic graph has a longest chain, and it is its frontier index. */
  lemma AcyclicRound(g: Graph, t: Id) returns (k: nat)
    requires Closed(g) && Acyclic(g) && t in g
    ensures t in Round(g, k) && LongestChain(g, t, k)
  {
    AcyclicProgress(g, |g|);
    k := DoneRound(g, t, |g|);
    RoundIsLongestChain(g, t, k);
  }

  // ----- Topological orders and Hamiltonian chains -----

  ghost predicate Distinct(o: seq<Id>) {
    forall i, j | 0 <= i < j < |o| :: o[i] != o[j]
  }

  ghost predicate Enumerates(o: seq<Id>, s: set<Id>) {
    Distinct(o) && (forall x :: x in o <==> x in s)
  }

  /** `o` lists every task once and every dependency strictly before its dependents. */
  ghost predicate Topological(g: Graph, o: seq<Id>) {
    && Enumerates(o, g.Keys)
    && (forall i, d | 0 <= i < |o| && d in g[o[i]] :: d in o[..i])
  }

  /** `o` lists every task once and each task directly depends on its immediate predecessor. */
  ghost predicate HamiltonianChain(g: Graph, o: seq<Id>) {
    Enumerates(o, g.Keys) && IsChain(g, o)
  }

  ghost predicate SerialShape(g: Graph) {
    Acyclic(g) && exists o :: HamiltonianChain(g, o)
  }

  lemma {:induction false} IndexIn(o: seq<Id>, x: Id) returns (i: nat)
    requires x in o
    ensures i < |o| && o[i] == x
  {
    i :| 0 <= i < |o| && o[i] == x;
  }

  /** A dependency on a later link closes a cycle. */
  lemma BackEdgeCloses(g: Graph, o: seq<Id>, i: nat, j: nat)
    requires IsChain(g, o) && i <= j < |o| && o[j] in g[o[i]]
    ensures IsCycle(g, [o[j]] + o[i..j + 1])
  {
    ChainSlice(g, o, i, j + 1);
  }

  /** In an acyclic Hamiltonian chain a task depends only on earlier ones. */
  lemma ChainDependsBackwards(g: Graph, o: seq<Id>, i: nat)
    requires Closed(g) && Acyclic(g) && HamiltonianChain(g, o) && i < |o|
    ensures g[o[i]] <= Elements(o[..i])
  {
    forall d | d in g[o[i]] ensures d in o[..i] {
      var j := IndexIn(o, d);
      if j >= i { BackEdgeCloses(g, o, i, j); }
      assert o[..i][j] == d;
    }
  }

  /** Once the first `k` links are complete, the next link is the only ready task. */
  lemma NextLinkOnly(g: Graph, o: seq<Id>, k: nat)
    requires Closed(g) && Acyclic(g) && HamiltonianChain(g, o) && k < |o|
    ensures Frontier(g, Elements(o[..k])) == {o[k]}
  {
    ChainDependsBackwards(g, o, k);
    forall t | t in Frontier(g, Elements(o[..k])) ensures t == o[k] {
      var j := IndexIn(o, t);
      if j > k {
        assert o[j - 1] in g[o[j]];
        var i := IndexIn(o[..k], o[j - 1]);
      }
    }
    assert o[k] !in o[..k];
  }

  lemma ElementsNext(o: seq<Id>, k: nat)
    requires 0 < k <= |o|
    ensures Elements(o[..k]) == Elements(o[..k - 1]) + {o[k - 1]}
  {
    assert o[..k] == o[..k - 1] + [o[k - 1]];
  }

  /** Peeling an acyclic Hamiltonian chain finds exactly the next link, round after round. */
  lemma {:induction false} ChainRounds(g: Graph, o: seq<Id>, k: nat)
    requires Closed(g) && Acyclic(g) && HamiltonianChain(g, o) && k <= |o|
    ensures Done(g, k) == Elements(o[..k])
    ensures k < |o| ==> Round(g, k) == {o[k]}
    decreases k
  {
    if k > 0 {
      ChainRounds(g, o, k - 1);
      ElementsNext(o, k);
    }
    if k < |o| {
      NextLinkOnly(g, o, k);
    }
  }

  /** Conversely, rounds of exactly one task each spell out a Hamiltonian chain. */
  lemma SingletonRoundsChain(g: Graph, o: seq<Id>)
    requires Closed(g) && forall k | 0 <= k < |o| :: Round(g, k) == {o[k]}
    ensures Enumerates(o, Done(g, |o|)) && IsChain(g, o)
  {
    SingletonRoundsDone(g, o, |o|);
    assert o[..|o|] == o;
    forall i, j | 0 <= i < j < |o| ensures o[i] != o[j] {
      if o[i] == o[j] { RoundUnique(g, o[i], i, j); }
    }
    forall i, j | 0 <= i && j == i + 1 < |o| ensures o[i] in g[o[j]] {
      WaitedForPreviousRound(g, o[j], j);
    }
  }

  lemma {:induction false} SingletonRoundsDone(g: Graph, o: seq<Id>, n: nat)
    requires n <= |o| && forall k | 0 <= k < |o| :: Round(g, k) == {o[k]}
    ensures Done(g, n) == Elements(o[..n])
  {
    if n > 0 {
      SingletonRoundsDone(g, o, n - 1);
      assert Round(g, n - 1) == {o[n - 1]};
      ElementsNext(o, n);
    }
  }

  ghost function Only(s: set<Id>): Id
    requires |s| == 1
  {
    var x :| x in s; x
  }

  /** A task of a later round directly depends on some task of the round before. */
  lemma WaitedForPreviousRound(g: Graph, t: Id, k: nat)
    requires Closed(g) && 0 < k && t in Round(g, k)
    ensures g[t] * Round(g, k - 1) != {}
  {
    var d :| d in g[t] && d in Round(g, k - 1);
    assert d in g[t] * Round(g, k - 1);
  }

  /** A plan is a single dependency chain exactly when every round offers one ready task. */
  lemma SerialShapeIffSingletonRounds(g: Graph)
    requires Closed(g)
    ensures SerialShape(g) <==> Done(g, |g|) == g.Keys && forall k | 0 <= k < |g| :: |Round(g, k)| == 1
  {
    if SerialShape(g) {
      var o :| HamiltonianChain(g, o);
      EnumerationLength(o, g.Keys);
      AcyclicProgress(g, |g|);
      forall k | 0 <= k < |g| ensures |Round(g, k)| == 1 { ChainRounds(g, o, k); }
    }
    if Done(g, |g|) == g.Keys && forall k | 0 <= k < |g| :: |Round(g, k)| == 1 {
      FinishesIffAcyclic(g);
      var o := seq(|g|, k requires 0 <= k < |g| => Only(Round(g, k)));
      forall k | 0 <= k < |o| ensures Round(g, k) == {o[k]} { SingletonIs(Round(g, k), o[k]); }
      SingletonRoundsChain(g, o);
      assert HamiltonianChain(g, o);
    }
  }

  lemma {:induction false} EnumerationLength(o: seq<Id>, s: set<Id>)
    requires Enumerates(o, s)
    ensures |o| == |s|
  {
    if o == [] {
      assert s == {};
    } else {
      var last := o[|o| - 1];
      forall x ensures x in o[..|o| - 1] <==> x in s - {last} {
        if x in s - {last} { var i :| 0 <= i < |o| && o[i] == x; assert o[..|o| - 1][i] == x; }
      }
      EnumerationLength(o[..|o| - 1], s - {last});
    }
  }

  /** The chain is a topological order, and the only one. */
  lemma HamiltonianChainIsOnlyOrder(g: Graph, o: seq<Id>, q: seq<Id>)
    requires Closed(g) && Acyclic(g) && HamiltonianChain(g, o)
    ensures Topological(g, q) <==> q == o
  {
    if q == o {
      forall i, d | 0 <= i < |o| && d in g[o[i]] ensures d in o[..i] {
        ChainDependsBackwards(g, o, i);
      }
    }
    if Topological(g, q) {
      EnumerationLength(o, g.Keys);
      EnumerationLength(q, g.Keys);
      SameOrder(g, o, q, |o|);
    }
  }

  /** Any topological order must list the links of the chain in the same places. */
  lemma {:induction false} SameOrder(g: Graph, o: seq<Id>, q: seq<Id>, n: nat)
    requires HamiltonianChain(g, o) && Topological(g, q)
    requires n <= |o| == |q|
    ensures forall m | 0 <= m < n :: q[m] == o[m]
  {
    if n > 0 {
      SameOrder(g, o, q, n - 1);
      assert q[n - 1] in o;
      var j := IndexIn(o, q[n - 1]);
      if j >= n {
        // The link before it must precede it in q, so it would sit in the common prefix.
        assert o[j - 1] in g[q[n - 1]];
        var m := IndexIn(q[..n - 1], o[j - 1]);
      }
    }
  }
}
