/** Directed graphs given as edge lists: parallel edges, self-loops and undeclared endpoints may
    all occur.  A walk is a non-empty sequence of nodes joined by edges. */
module DagGraph {
  import opened Sequences

  type NodeId = string
  datatype Edge = Edge(from: NodeId, to: NodeId)

  /** An edge leads from position `i` of `p` to the next one. */
  ghost predicate Joined(edges: seq<Edge>, p: seq<NodeId>, i: nat)
    requires i + 1 < |p|
  {
    Edge(p[i], p[i + 1]) in edges
  }

  ghost predicate Walk(edges: seq<Edge>, p: seq<NodeId>) {
    p != [] && forall i: nat :: i + 1 < |p| ==> Joined(edges, p, i)
  }

  ghost predicate WalkTo(edges: seq<Edge>, p: seq<NodeId>, n: NodeId) {
    Walk(edges, p) && p[|p| - 1] == n
  }

  /** `n` lies on or below a cycle: some walk into it meets a node twice. */
  ghost predicate Stuck(edges: seq<Edge>, n: NodeId) {
    exists p :: WalkTo(edges, p, n) && !Distinct(p)
  }

  /** The longest walk into `n` has exactly `k` edges. */
  ghost predicate LongestTo(edges: seq<Edge>, n: NodeId, k: nat) {
    && (exists p :: WalkTo(edges, p, n) && |p| == k + 1)
    && (forall p :: WalkTo(edges, p, n) ==> |p| <= k + 1)
  }

  lemma LongestUnique(edges: seq<Edge>, n: NodeId, j: nat, k: nat)
    requires LongestTo(edges, n, j) && LongestTo(edges, n, k)
    ensures j == k
  {
    var p :| WalkTo(edges, p, n) && |p| == j + 1;
    var q :| WalkTo(edges, q, n) && |q| == k + 1;
  }

  /** The edges both of whose endpoints are declared. */
  function Inside(ids: set<NodeId>, edges: seq<Edge>): seq<Edge> {
    if edges == [] then []
    else
      var e := edges[|edges| - 1];
      Inside(ids, edges[..|edges| - 1]) + if e.from in ids && e.to in ids then [e] else []
  }

  lemma {:induction false} InsideMembers(ids: set<NodeId>, edges: seq<Edge>, e: Edge)
    ensures e in Inside(ids, edges) <==> e in edges && e.from in ids && e.to in ids
  {
    if edges != [] {
      InsideMembers(ids, edges[..|edges| - 1], e);
      assert edges == edges[..|edges| - 1] + [edges[|edges| - 1]];
    }
  }

  /** Sources of the edges into `n`, one per edge, in edge order. */
  function Preds(edges: seq<Edge>, n: NodeId): seq<NodeId> {
    if edges == [] then []
    else
      var e := edges[|edges| - 1];
      Preds(edges[..|edges| - 1], n) + if e.to == n then [e.from] else []
  }

  /** Targets of the edges out of `n`, one per edge, in edge order. */
  function Succs(edges: seq<Edge>, n: NodeId): seq<NodeId> {
    if edges == [] then []
    else
      var e := edges[|edges| - 1];
      Succs(edges[..|edges| - 1], n) + if e.from == n then [e.to] else []
  }

  lemma {:induction false} PredsMembers(edges: seq<Edge>, n: NodeId, p: NodeId)
    ensures p in Preds(edges, n) <==> Edge(p, n) in edges
  {
    if edges != [] {
      PredsMembers(edges[..|edges| - 1], n, p);
      assert edges == edges[..|edges| - 1] + [edges[|edges| - 1]];
    }
  }

  lemma {:induction false} SuccsMembers(edges: seq<Edge>, n: NodeId, s: NodeId)
    ensures s in Succs(edges, n) <==> Edge(n, s) in edges
  {
    if edges != [] {
      SuccsMembers(edges[..|edges| - 1], n, s);
      assert edges == edges[..|edges| - 1] + [edges[|edges| - 1]];
    }
  }

  /** How often `n` occurs in `s`. */
  ghost function Occurrences(s: seq<NodeId>, n: NodeId): nat {
    if s == [] then 0
    else Occurrences(s[..|s| - 1], n) + if s[|s| - 1] == n then 1 else 0
  }

  lemma OccurrencesAppend(s: seq<NodeId>, x: NodeId, n: NodeId)
    ensures Occurrences(s + [x], n) == Occurrences(s, n) + if x == n then 1 else 0
  {
    assert (s + [x])[..|s|] == s;
  }

  /** Both adjacency lists count a pair of nodes the same number of times. */
  lemma {:induction false} ParallelEdgesAgree(edges: seq<Edge>, a: NodeId, b: NodeId)
    ensures Occurrences(Preds(edges, b), a) == Occurrences(Succs(edges, a), b)
  {
    if edges != [] {
      var init, e := edges[..|edges| - 1], edges[|edges| - 1];
      ParallelEdgesAgree(init, a, b);
      OccurrencesAppend(Preds(init, b), e.from, a);
      OccurrencesAppend(Succs(init, a), e.to, b);
      assert Preds(init, b) + [] == Preds(init, b) && Succs(init, a) + [] == Succs(init, a);
    }
  }

  lemma PredsAppend(edges: seq<Edge>, e: Edge, n: NodeId)
    ensures Preds(edges + [e], n) == if e.to == n then Preds(edges, n) + [e.from] else Preds(edges, n)
  {
    assert (edges + [e])[..|edges|] == edges;
  }

  lemma SuccsAppend(edges: seq<Edge>, e: Edge, n: NodeId)
    ensures Succs(edges + [e], n) == if e.from == n then Succs(edges, n) + [e.to] else Succs(edges, n)
  {
    assert (edges + [e])[..|edges|] == edges;
  }
}
