/** What Kahn's pass means: layers are longest-walk lengths, and the nodes it never reaches are
    exactly those on or below a cycle. */
module LongestWalks {
  import opened Sequences
  import opened DagGraph
  import opened KahnLayers

  /** Edges into a layered node come from layered nodes further left. */
  ghost predicate LeftToRight(g: seq<Edge>, layer: map<NodeId, nat>) {
    forall e :: e in g && e.to in layer ==> e.from in layer && layer[e.from] < layer[e.to]
  }

  lemma KahnLeftToRight(ids: set<NodeId>, g: seq<Edge>, processed: seq<NodeId>, layer: map<NodeId, nat>)
    requires KahnResult(ids, g, processed, layer)
    ensures LeftToRight(g, layer)
  {
    forall e | e in g && e.to in layer ensures e.from in layer && layer[e.from] < layer[e.to] {
      assert e.to in Elements(processed);
      PredsMembers(g, e.to, e.from);
      assert IsLayer(g, layer, e.to);
    }
  }

  lemma WalkInit(g: seq<Edge>, p: seq<NodeId>)
    requires Walk(g, p) && |p| > 1
    ensures Walk(g, p[..|p| - 1])
  {
    var init := p[..|p| - 1];
    forall i: nat | i + 1 < |init| ensures Joined(g, init, i) {
      assert Joined(g, p, i);
    }
  }

  /** Along a walk into a layered node every node is layered and layers strictly increase. */
  lemma {:induction false} WalkClimbs(g: seq<Edge>, layer: map<NodeId, nat>, p: seq<NodeId>)
    requires LeftToRight(g, layer)
    requires Walk(g, p) && p[|p| - 1] in layer
    ensures forall i :: 0 <= i < |p| ==> p[i] in layer && layer[p[i]] + (|p| - 1 - i) <= layer[p[|p| - 1]]
  {
    if |p| > 1 {
      var n, m, init := p[|p| - 1], p[|p| - 2], p[..|p| - 1];
      assert Joined(g, p, |p| - 2);
      WalkInit(g, p);
      WalkClimbs(g, layer, init);
      forall i | 0 <= i < |p|
        ensures p[i] in layer && layer[p[i]] + (|p| - 1 - i) <= layer[n]
      {
        if i < |p| - 1 {
          assert init[i] in layer;
        }
      }
    }
  }

  lemma WalkAppend(g: seq<Edge>, p: seq<NodeId>, n: NodeId)
    requires Walk(g, p) && Edge(p[|p| - 1], n) in g
    ensures Walk(g, p + [n])
  {
    var q := p + [n];
    forall i: nat | i + 1 < |q| ensures Joined(g, q, i) {
      if i + 1 < |p| { assert Joined(g, p, i); }
    }
  }

  lemma {:induction false} LongestWalkExists(ids: set<NodeId>, g: seq<Edge>, processed: seq<NodeId>,
                                             layer: map<NodeId, nat>, n: NodeId)
    returns (p: seq<NodeId>)
    requires KahnResult(ids, g, processed, layer) && n in layer
    ensures WalkTo(g, p, n) && |p| == layer[n] + 1
    decreases layer[n]
  {
    assert n in Elements(processed);
    assert IsLayer(g, layer, n);
    if Preds(g, n) == [] {
      p := [n];
    } else {
      var m :| m in Preds(g, n) && m in layer && layer[n] == layer[m] + 1;
      PredsMembers(g, n, m);
      var q := LongestWalkExists(ids, g, processed, layer, m);
      p := q + [n];
      WalkAppend(g, q, n);
    }
  }

  lemma {:induction false} LayeredWalkDistinct(g: seq<Edge>, layer: map<NodeId, nat>, p: seq<NodeId>)
    requires LeftToRight(g, layer)
    requires Walk(g, p) && p[|p| - 1] in layer
    ensures Distinct(p)
  {
    if |p| > 1 {
      WalkClimbs(g, layer, p);
      WalkInit(g, p);
      LayeredWalkDistinct(g, layer, p[..|p| - 1]);
    }
  }

  lemma WalkPrepend(g: seq<Edge>, m: NodeId, p: seq<NodeId>)
    requires Walk(g, p) && Edge(m, p[0]) in g
    ensures Walk(g, [m] + p)
  {
    var q := [m] + p;
    forall i: nat | i + 1 < |q| ensures Joined(g, q, i) {
      if i > 0 { assert Joined(g, p, i - 1); }
    }
  }

  /** The layer of a processed node is the length of the longest walk into it. */
  lemma LayerIsLongest(ids: set<NodeId>, g: seq<Edge>, processed: seq<NodeId>, layer: map<NodeId, nat>,
                       n: NodeId)
    requires KahnResult(ids, g, processed, layer) && n in processed
    ensures n in layer && LongestTo(g, n, layer[n])
  {
    assert n in Elements(processed);
    var longest := LongestWalkExists(ids, g, processed, layer, n);
    KahnLeftToRight(ids, g, processed, layer);
    forall p | WalkTo(g, p, n) ensures |p| <= layer[n] + 1 {
      WalkClimbs(g, layer, p);
      assert layer[p[0]] + (|p| - 1 - 0) <= layer[n];
    }
  }

  /** A node without incoming edges, a disconnected one in particular, is processed, as a source. */
  lemma SourceIsProcessed(ids: set<NodeId>, g: seq<Edge>, processed: seq<NodeId>, layer: map<NodeId, nat>, n: NodeId)
    requires KahnResult(ids, g, processed, layer) && n in ids && forall e :: e in g ==> e.to != n
    ensures n in processed && n in layer && layer[n] == 0
  {
    forall p ensures p !in Preds(g, n) {
      PredsMembers(g, n, p);
      assert Edge(p, n) in g ==> Edge(p, n).to != n;
    }
    assert n in Elements(processed);
    assert IsLayer(g, layer, n);
  }

  ghost predicate HasPredIn(g: seq<Edge>, rest: set<NodeId>, n: NodeId) {
    exists m :: m in rest && Edge(m, n) in g
  }

  /** Inside a set where every node has a predecessor one can walk backwards for ever. */
  lemma {:induction false} WalkBack(g: seq<Edge>, rest: set<NodeId>, n: NodeId, k: nat)
    returns (p: seq<NodeId>)
    requires n in rest && forall x {:trigger HasPredIn(g, rest, x)} :: x in rest ==> HasPredIn(g, rest, x)
    ensures WalkTo(g, p, n) && |p| == k + 1
    ensures forall i :: 0 <= i < |p| ==> p[i] in rest
  {
    if k == 0 {
      p := [n];
    } else {
      var q := WalkBack(g, rest, n, k - 1);
      assert HasPredIn(g, rest, q[0]);
      var m :| m in rest && Edge(m, q[0]) in g;
      p := [m] + q;
      WalkPrepend(g, m, q);
    }
  }

  /** A node Kahn's pass never reaches has a predecessor it never reaches. */
  lemma UnreachedPred(ids: set<NodeId>, g: seq<Edge>, processed: seq<NodeId>, layer: map<NodeId, nat>, n: NodeId)
    requires KahnResult(ids, g, processed, layer)
    requires forall e :: e in g ==> e.from in ids && e.to in ids
    requires n in ids && n !in processed
    ensures HasPredIn(g, ids - Elements(processed), n)
  {
    var m :| m in Preds(g, n) && m !in processed;
    PredsMembers(g, n, m);
    assert Edge(m, n).from in ids;
    assert m in ids - Elements(processed);
  }

  /** Kahn's pass leaves a node out exactly when it lies on or below a cycle. */
  lemma UnprocessedIffStuck(ids: set<NodeId>, g: seq<Edge>, processed: seq<NodeId>, layer: map<NodeId, nat>,
                            n: NodeId)
    requires KahnResult(ids, g, processed, layer) && n in ids
    requires forall e :: e in g ==> e.from in ids && e.to in ids
    ensures n !in processed <==> Stuck(g, n)
  {
    if n in processed {
      assert n in Elements(processed);
      KahnLeftToRight(ids, g, processed, layer);
      forall p | WalkTo(g, p, n) ensures Distinct(p) {
        LayeredWalkDistinct(g, layer, p);
      }
    } else {
      var rest := ids - Elements(processed);
      forall x {:trigger HasPredIn(g, rest, x)} | x in rest ensures HasPredIn(g, rest, x) {
        UnreachedPred(ids, g, processed, layer, x);
      }
      var p := WalkBack(g, rest, n, |ids|);
      Pigeonhole(p, ids);
    }
  }
}
