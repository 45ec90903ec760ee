/** The gateway's own check of a decomposed task (`TaskDAG::validate_acyclic`): a depth-first search
    with a visited set and a stack set, and how its verdict relates to the dashboard's layout. */
module DagValidation {
  import opened Sequences
  import opened DagGraph
  import opened LongestWalks

  /** Some walk from `n` meets a node twice. */
  ghost predicate ReachesCycle(edges: seq<Edge>, n: NodeId) {
    exists p :: Walk(edges, p) && p[0] == n && !Distinct(p)
  }

  // ----- adjacency -----------------------------------------------------------------------------

  /** Every node with an outgoing edge is listed, with its targets in edge order. */
  ghost predicate ListsTargets(adj: map<NodeId, seq<NodeId>>, edges: seq<Edge>) {
    forall n :: if n in adj then adj[n] == Succs(edges, n) else Succs(edges, n) == []
  }

  lemma AddTarget(adj: map<NodeId, seq<NodeId>>, edges: seq<Edge>, e: Edge)
    requires ListsTargets(adj, edges)
    ensures ListsTargets(adj[e.from := (if e.from in adj then adj[e.from] else []) + [e.to]], edges + [e])
  {
    forall n { SuccsAppend(edges, e, n); }
  }

  method BuildTargets(nodes: seq<NodeId>, edges: seq<Edge>) returns (adj: map<NodeId, seq<NodeId>>)
    ensures ListsTargets(adj, edges)
  {
    adj := map n | n in nodes :: [];
    for i := 0 to |edges|
      invariant ListsTargets(adj, edges[..i])
    {
      var e := edges[i];
      AddTarget(adj, edges[..i], e);
      assert edges[..i + 1] == edges[..i] + [e];
      adj := adj[e.from := (if e.from in adj then adj[e.from] else []) + [e.to]];
    }
    assert edges[..|edges|] == edges;
  }

  // ----- the search ----------------------------------------------------------------------------

  /** A finishing order: successors finish first. */
  ghost predicate PostOrdered(edges: seq<Edge>, finished: seq<NodeId>) {
    && Distinct(finished)
    && forall i, s :: 0 <= i < |finished| && Edge(finished[i], s) in edges ==> s in finished[..i]
  }

  /** Walks among finished nodes meet no node twice. */
  lemma {:induction false} FinishedWalkDistinct(edges: seq<Edge>, finished: seq<NodeId>, p: seq<NodeId>)
    requires PostOrdered(edges, finished) && Walk(edges, p) && p[0] in finished
    ensures Distinct(p) && forall i :: 0 <= i < |p| ==> p[i] in finished
  {
    if |p| > 1 {
      var k :| 0 <= k < |finished| && finished[k] == p[0];
      var earlier, tail := finished[..k], p[1..];
      assert Joined(edges, p, 0);
      forall i: nat | i + 1 < |tail| ensures Joined(edges, tail, i) {
        assert Joined(edges, p, i + 1);
      }
      assert PostOrdered(edges, earlier) by {
        forall i, s | 0 <= i < |earlier| && Edge(earlier[i], s) in edges ensures s in earlier[..i] {
          assert earlier[..i] == finished[..i];
        }
      }
      FinishedWalkDistinct(edges, earlier, tail);
      forall i | 0 < i < |p| ensures p[i] != p[0] && p[i] in finished {
        assert p[i] == tail[i - 1];
      }
      forall i, j | 0 <= i < j < |p| ensures p[i] != p[j] {
        if i > 0 { assert tail[i - 1] != tail[j - 1]; }
      }
    }
  }

  class CycleSearch {
    ghost const edges: seq<Edge>
    ghost const universe: set<NodeId>
    const adj: map<NodeId, seq<NodeId>>
    var visited: set<NodeId>
    var inStack: set<NodeId>
    ghost var finished: seq<NodeId>

    ghost predicate ValidGraph()
    {
      ListsTargets(adj, edges) && forall e :: e in edges ==> e.to in universe
    }

    /** `path` is the walk from the current root that the recursion is on. */
    ghost predicate Valid(path: seq<NodeId>)
      reads this
    {
      && ValidGraph()
      && visited <= universe && inStack <= visited
      && (path == [] || Walk(edges, path)) && Elements(path) == inStack
      && Elements(finished) == visited - inStack && PostOrdered(edges, finished)
    }

    constructor (nodes: seq<NodeId>, edges: seq<Edge>)
      ensures Valid([]) && this.edges == edges && Elements(nodes) <= universe
    {
      var targets := BuildTargets(nodes, edges);
      this.edges := edges;
      adj := targets;
      visited, inStack, finished := {}, {}, [];
      universe := Elements(nodes) + set e | e in edges :: e.to;
    }

    lemma HereIsWalk(path: seq<NodeId>, node: NodeId)
      requires path == [] || Walk(edges, path)
      requires path != [] ==> Edge(path[|path| - 1], node) in edges
      ensures Walk(edges, path + [node])
    {
      if path != [] { WalkAppend(edges, path, node); }
    }

    lemma RepeatOnPath(path: seq<NodeId>, node: NodeId)
      requires Walk(edges, path + [node]) && node in path
      ensures ReachesCycle(edges, (path + [node])[0])
    {
      var here := path + [node];
      var i :| 0 <= i < |path| && path[i] == node;
      assert here[i] == here[|path|];
    }

    lemma FinishNode(node: NodeId)
      requires ValidGraph() && PostOrdered(edges, finished) && node !in Elements(finished)
      requires node in adj ==> forall j :: 0 <= j < |adj[node]| ==> adj[node][j] in Elements(finished)
      ensures PostOrdered(edges, finished + [node])
    {
      var longer := finished + [node];
      forall i, s | 0 <= i < |longer| && Edge(longer[i], s) in edges ensures s in longer[..i] {
        assert longer[..i] == finished[..i];
        if i == |finished| {
          SuccsMembers(edges, node, s);
          assert node in adj;
          assert finished[..i] == finished;
        }
      }
    }

    method Dfs(node: NodeId, ghost path: seq<NodeId>) returns (cycle: bool)
      requires Valid(path) && node in universe
      requires path != [] ==> Edge(path[|path| - 1], node) in edges
      modifies this
      ensures !cycle ==> Valid(path) && inStack == old(inStack) && old(visited) <= visited && node in visited - inStack
      ensures cycle ==> ReachesCycle(edges, (path + [node])[0])
      decreases universe - visited
    {
      ghost var here := path + [node];
      HereIsWalk(path, node);
      if node in inStack {
        RepeatOnPath(path, node);
        return true;
      }
      if node in visited {
        return false;
      }
      visited, inStack := visited + {node}, inStack + {node};
      ElementsAppend(path, node);
      if node in adj {
        var neighbors := adj[node];
        for i := 0 to |neighbors|
          invariant Valid(here) && inStack == old(inStack) + {node} && old(visited) + {node} <= visited
          invariant forall j :: 0 <= j < i ==> neighbors[j] in visited - inStack
        {
          SuccsMembers(edges, node, neighbors[i]);
          var found := Dfs(neighbors[i], here);
          if found {
            assert (here + [neighbors[i]])[0] == here[0];
            return true;
          }
        }
      }
      FinishNode(node);
      inStack := inStack - {node};
      ElementsAppend(finished, node);
      finished := finished + [node];
      cycle := false;
    }
  }

  datatype Verdict = Acyclic | CycleFrom(node: NodeId)

  /** Position `i` is the first one whose node reaches a cycle. */
  ghost predicate FirstToCycle(nodes: seq<NodeId>, edges: seq<Edge>, i: nat) {
    && i < |nodes| && ReachesCycle(edges, nodes[i])
    && forall j :: 0 <= j < i ==> !ReachesCycle(edges, nodes[j])
  }

  /** Rejected are exactly the graphs in which some declared node reaches a cycle, and the first such
      node is named. */
  ghost predicate IsVerdict(nodes: seq<NodeId>, edges: seq<Edge>, verdict: Verdict) {
    && (verdict.Acyclic? <==> forall n :: n in nodes ==> !ReachesCycle(edges, n))
    && (verdict.CycleFrom? ==> exists i: nat :: FirstToCycle(nodes, edges, i) && nodes[i] == verdict.node)
  }

  /** `validate_acyclic`. */
  method ValidateAcyclic(nodes: seq<NodeId>, edges: seq<Edge>) returns (verdict: Verdict)
    ensures IsVerdict(nodes, edges, verdict)
  {
    var search := new CycleSearch(nodes, edges);
    for i := 0 to |nodes|
      invariant search.Valid([]) && search.edges == edges && fresh(search)
      invariant Elements(nodes) <= search.universe
      invariant forall j :: 0 <= j < i ==> !ReachesCycle(edges, nodes[j])
    {
      assert nodes[i] in Elements(nodes);
      var cycle := search.Dfs(nodes[i], []);
      if cycle {
        assert FirstToCycle(nodes, edges, i);
        return CycleFrom(nodes[i]);
      }
      assert nodes[i] in Elements(search.finished);
      forall p | Walk(edges, p) && p[0] == nodes[i] ensures Distinct(p) {
        FinishedWalkDistinct(edges, search.finished, p);
      }
    }
    verdict := Acyclic;
  }

  // ----- validation against layout -------------------------------------------------------------

  lemma WalkInside(ids: set<NodeId>, edges: seq<Edge>, p: seq<NodeId>)
    requires Walk(Inside(ids, edges), p)
    ensures Walk(edges, p)
    ensures |p| > 1 ==> p[0] in ids
  {
    forall i: nat | i + 1 < |p| ensures Joined(edges, p, i) {
      assert Joined(Inside(ids, edges), p, i);
      InsideMembers(ids, edges, Edge(p[i], p[i + 1]));
    }
    if |p| > 1 {
      assert Joined(Inside(ids, edges), p, 0);
      InsideMembers(ids, edges, Edge(p[0], p[1]));
    }
  }

  /** A graph the gateway accepts is drawn without any node falling back to the leftmost column. */
  lemma AcceptedHasNoStuckNode(nodes: seq<NodeId>, edges: seq<Edge>, n: NodeId)
    requires forall m :: m in nodes ==> !ReachesCycle(edges, m)
    ensures !Stuck(Inside(Elements(nodes), edges), n)
  {
    var g := Inside(Elements(nodes), edges);
    forall p | WalkTo(g, p, n) ensures Distinct(p) {
      WalkInside(Elements(nodes), edges, p);
      if |p| > 1 {
        assert p[0] in nodes && !ReachesCycle(edges, p[0]);
      }
    }
  }

  // ----- the exact difference ------------------------------------------------------------------

  /** A walk from a declared node meets an undeclared node at positions `i` and `j`. */
  ghost predicate MeetsUndeclaredTwice(nodes: seq<NodeId>, edges: seq<Edge>, p: seq<NodeId>, i: nat, j: nat) {
    && Walk(edges, p) && p[0] in nodes
    && i < j < |p| && p[i] == p[j] && p[i] !in nodes
  }

  ghost predicate UndeclaredCycle(nodes: seq<NodeId>, edges: seq<Edge>) {
    exists p, i, j :: MeetsUndeclaredTwice(nodes, edges, p, i, j)
  }

  lemma WalkPart(edges: seq<Edge>, p: seq<NodeId>, i: nat, j: nat)
    requires Walk(edges, p) && i < j <= |p|
    ensures Walk(edges, p[i..j])
  {
    var q := p[i..j];
    forall k: nat | k + 1 < |q| ensures Joined(edges, q, k) {
      assert Joined(edges, p, i + k);
    }
  }

  lemma WalkConcat(edges: seq<Edge>, p: seq<NodeId>, q: seq<NodeId>)
    requires Walk(edges, p) && Walk(edges, q) && Edge(p[|p| - 1], q[0]) in edges
    ensures Walk(edges, p + q)
  {
    var r := p + q;
    forall k: nat | k + 1 < |r| ensures Joined(edges, r, k) {
      if k + 1 < |p| {
        assert Joined(edges, p, k);
      } else if k >= |p| {
        assert Joined(edges, q, k - |p|);
      }
    }
  }

  /** Running the stretch between two visits of a node once more meets what lies in between again. */
  lemma RunAgain(edges: seq<Edge>, p: seq<NodeId>, i: nat, j: nat, k: nat) returns (q: seq<NodeId>)
    requires Walk(edges, p) && i < k < j < |p| && p[i] == p[j]
    ensures Walk(edges, q) && q[0] == p[0] && k < j + (k - i) < |q|
    ensures q[k] == q[j + (k - i)] == p[k]
  {
    var once, again := p[0..j + 1], p[i + 1..k + 1];
    WalkPart(edges, p, 0, j + 1);
    WalkPart(edges, p, i + 1, k + 1);
    assert Joined(edges, p, i);
    WalkConcat(edges, once, again);
    q := once + again;
  }

  lemma WalkAmongDeclared(nodes: seq<NodeId>, edges: seq<Edge>, p: seq<NodeId>)
    requires Walk(edges, p) && forall i :: 0 <= i < |p| ==> p[i] in nodes
    ensures Walk(Inside(Elements(nodes), edges), p)
  {
    forall i: nat | i + 1 < |p| ensures Joined(Inside(Elements(nodes), edges), p, i) {
      assert Joined(edges, p, i);
      InsideMembers(Elements(nodes), edges, Edge(p[i], p[i + 1]));
    }
  }

  /** A repeated node on a walk from a declared node is either declared and stuck for the layout, or lies
      on a stretch that can be run again to meet an undeclared node twice. */
  lemma RepeatIsStuckOrUndeclared(nodes: seq<NodeId>, edges: seq<Edge>, p: seq<NodeId>, i: nat, j: nat)
    requires Walk(edges, p) && p[0] in nodes && i < j < |p| && p[i] == p[j]
    ensures UndeclaredCycle(nodes, edges) || (p[j] in nodes && Stuck(Inside(Elements(nodes), edges), p[j]))
  {
    var stretch := p[i..j + 1];
    WalkPart(edges, p, i, j + 1);
    if forall k :: 0 <= k < |stretch| ==> stretch[k] in nodes {
      WalkAmongDeclared(nodes, edges, stretch);
      assert stretch[0] == stretch[j - i];
      assert WalkTo(Inside(Elements(nodes), edges), stretch, p[j]);
      assert p[j] in nodes by { assert stretch[j - i] in nodes; }
    } else {
      var k :| 0 <= k < |stretch| && stretch[k] !in nodes;
      if k == 0 || k == j - i {
        assert MeetsUndeclaredTwice(nodes, edges, p, i, j);
      } else {
        var q := RunAgain(edges, p, i, j, i + k);
        assert MeetsUndeclaredTwice(nodes, edges, q, i + k, j + k);
      }
    }
  }

  /** For every edge list: the gateway accepts a graph if and only if the layout leaves no node stuck and
      no walk from a declared node meets an undeclared node twice. */
  lemma AcceptedIffNothingStuckOrUndeclared(nodes: seq<NodeId>, edges: seq<Edge>)
    ensures IsVerdict(nodes, edges, Acyclic)
            <==> (forall n :: n in nodes ==> !Stuck(Inside(Elements(nodes), edges), n))
                 && !UndeclaredCycle(nodes, edges)
  {
    var g := Inside(Elements(nodes), edges);
    if forall n :: n in nodes ==> !ReachesCycle(edges, n) {
      forall n | n in nodes ensures !Stuck(g, n) {
        AcceptedHasNoStuckNode(nodes, edges, n);
      }
      forall p, i, j ensures !MeetsUndeclaredTwice(nodes, edges, p, i, j) {
        if MeetsUndeclaredTwice(nodes, edges, p, i, j) {
          assert ReachesCycle(edges, p[0]);
        }
      }
    }
    if (forall n :: n in nodes ==> !Stuck(g, n)) && !UndeclaredCycle(nodes, edges) {
      forall p | Walk(edges, p) && p[0] in nodes ensures Distinct(p) {
        forall i, j | 0 <= i < j < |p| ensures p[i] != p[j] {
          if p[i] == p[j] { RepeatIsStuckOrUndeclared(nodes, edges, p, i, j); }
        }
      }
    }
  }

  /** When every edge joins declared nodes, the gateway accepts the graph if and only if the layout leaves
      no node stuck. */
  lemma AcceptedIffNothingStuck(nodes: seq<NodeId>, edges: seq<Edge>)
    requires forall e :: e in edges ==> e.from in nodes && e.to in nodes
    ensures IsVerdict(nodes, edges, Acyclic)
            <==> forall n :: n in nodes ==> !Stuck(Inside(Elements(nodes), edges), n)
  {
    AcceptedIffNothingStuckOrUndeclared(nodes, edges);
    forall p, i: nat, j: nat ensures !MeetsUndeclaredTwice(nodes, edges, p, i, j) {
      if Walk(edges, p) && i < j < |p| { assert Joined(edges, p, j - 1); }
    }
  }

  /** The last condition is met by graphs the gateway receives: this one it rejects, while the layout, which
      ignores such edges, leaves nothing stuck. */
  lemma UndeclaredNodeSeparatesThem()
    ensures var nodes, edges := ["a"], [Edge("a", "ghost"), Edge("ghost", "a")];
            && IsVerdict(nodes, edges, CycleFrom("a"))
            && !Stuck(Inside(Elements(nodes), edges), "a") && UndeclaredCycle(nodes, edges)
  {
    var nodes, edges := ["a"], [Edge("a", "ghost"), Edge("ghost", "a")];
    var p := ["a", "ghost", "a", "ghost"];
    assert MeetsUndeclaredTwice(nodes, edges, p, 1, 3);
    assert FirstToCycle(nodes, edges, 0);
    assert nodes[0] in nodes;
    var g := Inside(Elements(nodes), edges);
    forall q | WalkTo(g, q, "a") ensures Distinct(q) {
      if |q| > 1 {
        assert Joined(g, q, 0);
        InsideMembers(Elements(nodes), edges, Edge(q[0], q[1]));
      }
    }
  }

  // ----- the node that is named ----------------------------------------------------------------

  /** A walk of at least one edge leads from `n` back to `n`. */
  ghost predicate OnCycle(edges: seq<Edge>, n: NodeId) {
    exists p :: WalkTo(edges, p, n) && p[0] == n && |p| > 1
  }

  lemma {:induction false} SomeOrder(ids: set<NodeId>) returns (order: seq<NodeId>)
    ensures Elements(order) == ids
  {
    if ids == {} {
      order := [];
    } else {
      var n :| n in ids;
      var rest := SomeOrder(ids - {n});
      order := rest + [n];
      ElementsAppend(rest, n);
    }
  }

  lemma NamedReachesCycle(nodes: seq<NodeId>, edges: seq<Edge>, n: NodeId)
    requires IsVerdict(nodes, edges, CycleFrom(n))
    ensures n in Elements(nodes) && ReachesCycle(edges, n)
  {
    var i: nat :| FirstToCycle(nodes, edges, i) && nodes[i] == n;
    assert nodes[i] in nodes;
  }

  /** Declared first, any node that reaches a cycle is the one that is named. */
  lemma CanBeNamed(ids: set<NodeId>, edges: seq<Edge>, n: NodeId) returns (nodes: seq<NodeId>)
    requires n in ids && ReachesCycle(edges, n)
    ensures Elements(nodes) == ids && IsVerdict(nodes, edges, CycleFrom(n))
  {
    var rest := SomeOrder(ids);
    nodes := [n] + rest;
    assert forall m :: m in nodes <==> m == n || m in rest;
    assert forall m :: m in rest <==> m in Elements(rest);
    assert FirstToCycle(nodes, edges, 0);
    assert nodes[0] in nodes;
  }

  /** The rejection message claims that the cycle involves the named node.  However the declared nodes are
      ordered that is right, if and only if every declared node that reaches a cycle lies on one. */
  lemma NamedNodeAlwaysOnCycleIff(ids: set<NodeId>, edges: seq<Edge>)
    ensures (forall nodes, n :: Elements(nodes) == ids && IsVerdict(nodes, edges, CycleFrom(n)) ==> OnCycle(edges, n))
            <==> (forall n :: n in ids && ReachesCycle(edges, n) ==> OnCycle(edges, n))
  {
    if forall nodes, n :: Elements(nodes) == ids && IsVerdict(nodes, edges, CycleFrom(n)) ==> OnCycle(edges, n) {
      forall n | n in ids && ReachesCycle(edges, n) ensures OnCycle(edges, n) {
        var nodes := CanBeNamed(ids, edges, n);
      }
    }
    if forall n :: n in ids && ReachesCycle(edges, n) ==> OnCycle(edges, n) {
      forall nodes, n | Elements(nodes) == ids && IsVerdict(nodes, edges, CycleFrom(n)) ensures OnCycle(edges, n) {
        NamedReachesCycle(nodes, edges, n);
      }
    }
  }

  /** A rejection whose message is wrong: `a` is named but lies on no cycle. */
  lemma NamedNodeMayBeOffTheCycle()
    ensures var edges := [Edge("a", "b"), Edge("b", "b")];
            IsVerdict(["a", "b"], edges, CycleFrom("a")) && !OnCycle(edges, "a")
  {
    var nodes, edges := ["a", "b"], [Edge("a", "b"), Edge("b", "b")];
    var p := ["a", "b", "b"];
    assert Walk(edges, p) && p[0] == "a" && p[1] == p[2];
    assert FirstToCycle(nodes, edges, 0);
    assert nodes[0] in nodes;
    forall q | Walk(edges, q) && |q| > 1 ensures q[|q| - 1] == "b" {
      assert Joined(edges, q, |q| - 2);
    }
  }
}
