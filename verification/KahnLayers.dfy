/** The worklist pass of `_dag_hierarchical_layout`: adjacency lists, in-degrees, Kahn's queue and
    the layer numbers, with the proof that layers are longest-walk lengths and that the nodes left
    over are exactly those on or below a cycle. */
module KahnLayers {
  import opened Sequences
  import opened DagGraph

  type Adjacency = map<NodeId, seq<NodeId>>

  // ----- adjacency lists -----------------------------------------------------------------------

  ghost predicate ListsEdges(ids: set<NodeId>, g: seq<Edge>, inEdges: Adjacency, outEdges: Adjacency) {
    && inEdges.Keys == ids && outEdges.Keys == ids
    && forall n :: n in ids ==> inEdges[n] == Preds(g, n) && outEdges[n] == Succs(g, n)
  }

  ghost predicate IsAdjacency(ids: set<NodeId>, g: seq<Edge>, inEdges: Adjacency, outEdges: Adjacency) {
    && ListsEdges(ids, g, inEdges, outEdges)
    && forall e :: e in g ==> e.from in ids && e.to in ids
  }

  lemma AddEdge(ids: set<NodeId>, g: seq<Edge>, inEdges: Adjacency, outEdges: Adjacency, e: Edge)
    requires ListsEdges(ids, g, inEdges, outEdges) && e.from in ids && e.to in ids
    ensures ListsEdges(ids, g + [e], inEdges[e.to := inEdges[e.to] + [e.from]],
                       outEdges[e.from := outEdges[e.from] + [e.to]])
  {
    var inEdges' := inEdges[e.to := inEdges[e.to] + [e.from]];
    var outEdges' := outEdges[e.from := outEdges[e.from] + [e.to]];
    var g' := g + [e];
    forall n | n in ids
      ensures inEdges'[n] == Preds(g', n) && outEdges'[n] == Succs(g', n)
    {
      PredsAppend(g, e, n);
      SuccsAppend(g, e, n);
    }
  }

  lemma InsideDeclared(ids: set<NodeId>, edges: seq<Edge>)
    ensures forall e :: e in Inside(ids, edges) ==> e.from in ids && e.to in ids
  {
    forall e | e in Inside(ids, edges) ensures e.from in ids && e.to in ids {
      InsideMembers(ids, edges, e);
    }
  }

  method BuildAdjacency(ids: set<NodeId>, edges: seq<Edge>) returns (inEdges: Adjacency, outEdges: Adjacency)
    ensures IsAdjacency(ids, Inside(ids, edges), inEdges, outEdges)
  {
    inEdges, outEdges := map n | n in ids :: [], map n | n in ids :: [];
    for i := 0 to |edges|
      invariant ListsEdges(ids, Inside(ids, edges[..i]), inEdges, outEdges)
    {
      var e := edges[i];
      ghost var g := Inside(ids, edges[..i]);
      assert edges[..i + 1][..i] == edges[..i];
      if e.from in ids && e.to in ids {
        AddEdge(ids, g, inEdges, outEdges, e);
        outEdges := outEdges[e.from := outEdges[e.from] + [e.to]];
        inEdges := inEdges[e.to := inEdges[e.to] + [e.from]];
        assert Inside(ids, edges[..i + 1]) == g + [e];
      } else {
        assert Inside(ids, edges[..i + 1]) == g;
      }
    }
    assert edges[..|edges|] == edges;
    InsideDeclared(ids, edges);
  }

  // ----- in-degrees ----------------------------------------------------------------------------

  /** Number of entries of `s` that are not yet done. */
  ghost function CountOutside(s: seq<NodeId>, done: set<NodeId>): nat {
    if s == [] then 0
    else CountOutside(s[..|s| - 1], done) + if s[|s| - 1] in done then 0 else 1
  }

  lemma {:induction false} CountOutsideZero(s: seq<NodeId>, done: set<NodeId>)
    ensures CountOutside(s, done) == 0 <==> forall p :: p in s ==> p in done
  {
    if s != [] {
      CountOutsideZero(s[..|s| - 1], done);
      assert s == s[..|s| - 1] + [s[|s| - 1]];
    }
  }

  lemma {:induction false} CountOutsideAll(s: seq<NodeId>)
    ensures CountOutside(s, {}) == |s|
  {
    if s != [] { CountOutsideAll(s[..|s| - 1]); }
  }

  /** Finishing `x` takes every occurrence of `x` off the count. */
  lemma {:induction false} CountOutsideFinish(s: seq<NodeId>, done: set<NodeId>, x: NodeId)
    requires x !in done
    ensures CountOutside(s, done) == CountOutside(s, done + {x}) + Occurrences(s, x)
  {
    if s != [] {
      CountOutsideFinish(s[..|s| - 1], done, x);
    }
  }

  lemma {:induction false} OccurrencesGrow(s: seq<NodeId>, j: nat, n: NodeId)
    requires j <= |s|
    ensures Occurrences(s[..j], n) <= Occurrences(s, n)
  {
    if j < |s| {
      assert s[..|s| - 1][..j] == s[..j];
      OccurrencesGrow(s[..|s| - 1], j, n);
    } else {
      assert s[..j] == s;
    }
  }

  // ----- what the pass computes ----------------------------------------------------------------

  /** Every predecessor of a listed node is listed before it. */
  ghost predicate TopoOrdered(g: seq<Edge>, order: seq<NodeId>) {
    forall i, p :: 0 <= i < |order| && p in Preds(g, order[i]) ==> p in order[..i]
  }

  ghost predicate IsLayer(g: seq<Edge>, layer: map<NodeId, nat>, n: NodeId)
    requires n in layer
  {
    && (Preds(g, n) == [] ==> layer[n] == 0)
    && (Preds(g, n) != [] ==> exists p :: p in Preds(g, n) && p in layer && layer[n] == layer[p] + 1)
    && (forall p :: p in Preds(g, n) ==> p in layer && layer[p] + 1 <= layer[n])
  }

  ghost predicate KahnResult(ids: set<NodeId>, g: seq<Edge>, processed: seq<NodeId>, layer: map<NodeId, nat>) {
    && Distinct(processed) && Elements(processed) <= ids && layer.Keys == Elements(processed)
    && TopoOrdered(g, processed)
    && (forall n :: n in processed ==> IsLayer(g, layer, n))
    && (forall n :: n in ids && (forall p :: p in Preds(g, n) ==> p in processed) ==> n in processed)
  }

  /** `layer.get(p, 0)`. */
  function LayerOr0(layer: map<NodeId, nat>, p: NodeId): nat {
    if p in layer then layer[p] else 0
  }

  /** `l` is one more than the deepest of `preds`, or 0 without predecessors. */
  ghost predicate OneDeeper(preds: seq<NodeId>, layer: map<NodeId, nat>, l: nat) {
    && (preds == [] ==> l == 0)
    && (preds != [] ==> exists p :: p in preds && l == LayerOr0(layer, p) + 1)
    && (forall p :: p in preds ==> LayerOr0(layer, p) + 1 <= l)
  }

  /** `max(layer.get(p, 0) for p in preds) + 1`, or 0 without predecessors. */
  method LayerFromPreds(preds: seq<NodeId>, layer: map<NodeId, nat>) returns (l: nat)
    ensures OneDeeper(preds, layer, l)
  {
    l := 0;
    for i := 0 to |preds|
      invariant i == 0 ==> l == 0
      invariant forall p :: p in preds[..i] ==> LayerOr0(layer, p) + 1 <= l
      invariant i > 0 ==> exists p :: p in preds && l == LayerOr0(layer, p) + 1
    {
      var candidate := LayerOr0(layer, preds[i]) + 1;
      if l < candidate { l := candidate; }
      assert preds[..i + 1] == preds[..i] + [preds[i]];
      assert preds[i] in preds;
    }
    assert preds[..|preds|] == preds;
  }

  /** In-degrees count the predecessors still outside `done`. */
  ghost predicate Degrees(ids: set<NodeId>, inEdges: Adjacency, inDegree: map<NodeId, int>, done: set<NodeId>) {
    && inDegree.Keys == ids && ids <= inEdges.Keys
    && forall n :: n in ids ==> inDegree[n] == CountOutside(inEdges[n], done)
  }

  /** The same in the middle of the inner loop: `targets[j..]` is still to be taken off. */
  ghost predicate Releasing(ids: set<NodeId>, inEdges: Adjacency, inDegree: map<NodeId, int>, done: set<NodeId>,
                            targets: seq<NodeId>, j: nat)
    requires j <= |targets|
  {
    && inDegree.Keys == ids && ids <= inEdges.Keys
    && forall n :: n in ids ==>
         inDegree[n] + Occurrences(targets[..j], n) == CountOutside(inEdges[n], done) + Occurrences(targets, n)
  }

  /** A node has been enqueued exactly when its in-degree has reached zero, and only once. */
  ghost predicate Enqueued(ids: set<NodeId>, inDegree: map<NodeId, int>, listed: seq<NodeId>) {
    && inDegree.Keys == ids && Distinct(listed)
    && forall n :: n in listed <==> n in ids && inDegree[n] == 0
  }

  lemma StartNode(ids: set<NodeId>, g: seq<Edge>, inEdges: Adjacency, outEdges: Adjacency,
                  inDegree: map<NodeId, int>, done: set<NodeId>, node: NodeId)
    requires IsAdjacency(ids, g, inEdges, outEdges) && Degrees(ids, inEdges, inDegree, done)
    requires node in ids && node !in done
    ensures Releasing(ids, inEdges, inDegree, done + {node}, outEdges[node], 0)
  {
    forall n | n in ids
      ensures inDegree[n] == CountOutside(inEdges[n], done + {node}) + Occurrences(outEdges[node], n)
    {
      CountOutsideFinish(inEdges[n], done, node);
      ParallelEdgesAgree(g, node, n);
    }
  }

  /** One decrement. */
  lemma ReleaseOne(ids: set<NodeId>, inEdges: Adjacency, inDegree: map<NodeId, int>, done: set<NodeId>,
                   targets: seq<NodeId>, j: nat)
    requires j < |targets| && targets[j] in ids
    requires Releasing(ids, inEdges, inDegree, done, targets, j)
    ensures inDegree[targets[j]] > 0
    ensures Releasing(ids, inEdges, inDegree[targets[j] := inDegree[targets[j]] - 1], done, targets, j + 1)
  {
    assert targets[..j + 1][..j] == targets[..j];
    OccurrencesGrow(targets, j + 1, targets[j]);
  }

  /** The node just decremented joins the queue if it has reached zero. */
  lemma EnqueueReleased(ids: set<NodeId>, inDegree: map<NodeId, int>, processed: seq<NodeId>, queue: seq<NodeId>,
                        n: NodeId)
    requires Enqueued(ids, inDegree, processed + queue) && n in ids && inDegree[n] > 0
    ensures Enqueued(ids, inDegree[n := inDegree[n] - 1], processed + if inDegree[n] == 1 then queue + [n] else queue)
  {
    var listed, longer := processed + queue, processed + (queue + [n]);
    assert n !in listed;
    assert longer == listed + [n];
    assert forall m :: m in longer <==> m in listed || m == n;
  }

  /** One turn of the inner loop. */
  method ReleaseEdge(ids: set<NodeId>, inEdges: Adjacency, targets: seq<NodeId>, j: nat, inDegree: map<NodeId, int>,
                     queue: seq<NodeId>, ghost processed: seq<NodeId>)
    returns (inDegree': map<NodeId, int>, queue': seq<NodeId>)
    requires j < |targets| && targets[j] in ids
    requires Releasing(ids, inEdges, inDegree, Elements(processed), targets, j)
    requires Enqueued(ids, inDegree, processed + queue)
    ensures Releasing(ids, inEdges, inDegree', Elements(processed), targets, j + 1)
    ensures Enqueued(ids, inDegree', processed + queue')
  {
    var succ := targets[j];
    ReleaseOne(ids, inEdges, inDegree, Elements(processed), targets, j);
    EnqueueReleased(ids, inDegree, processed, queue, succ);
    inDegree' := inDegree[succ := inDegree[succ] - 1];
    queue' := if inDegree'[succ] == 0 then queue + [succ] else queue;
  }

  lemma Released(ids: set<NodeId>, inEdges: Adjacency, inDegree: map<NodeId, int>, done: set<NodeId>,
                 targets: seq<NodeId>)
    requires Releasing(ids, inEdges, inDegree, done, targets, |targets|)
    ensures Degrees(ids, inEdges, inDegree, done)
  {
    assert targets[..|targets|] == targets;
  }

  /** The inner loop: one decrement per outgoing edge; a node whose in-degree reaches zero joins the
      queue. */
  method Release(ids: set<NodeId>, inEdges: Adjacency, targets: seq<NodeId>, inDegree: map<NodeId, int>,
                 queue: seq<NodeId>, ghost processed: seq<NodeId>)
    returns (inDegree': map<NodeId, int>, queue': seq<NodeId>)
    requires forall s :: s in targets ==> s in ids
    requires Releasing(ids, inEdges, inDegree, Elements(processed), targets, 0)
    requires Enqueued(ids, inDegree, processed + queue)
    ensures Degrees(ids, inEdges, inDegree', Elements(processed))
    ensures Enqueued(ids, inDegree', processed + queue')
  {
    inDegree', queue' := inDegree, queue;
    for j := 0 to |targets|
      invariant Releasing(ids, inEdges, inDegree', Elements(processed), targets, j)
      invariant Enqueued(ids, inDegree', processed + queue')
    {
      inDegree', queue' := ReleaseEdge(ids, inEdges, targets, j, inDegree', queue', processed);
    }
    Released(ids, inEdges, inDegree', Elements(processed), targets);
  }

  ghost predicate AllLayered(g: seq<Edge>, nodes: seq<NodeId>, layer: map<NodeId, nat>) {
    forall n :: n in nodes ==> n in layer && IsLayer(g, layer, n)
  }

  /** What is known of the nodes already taken off the queue. */
  ghost predicate Settled(g: seq<Edge>, processed: seq<NodeId>, layer: map<NodeId, nat>) {
    TopoOrdered(g, processed) && layer.Keys == Elements(processed) && AllLayered(g, processed, layer)
  }

  lemma StartQueue(ids: set<NodeId>, inEdges: Adjacency, inDegree: map<NodeId, int>, queue: seq<NodeId>)
    requires inDegree.Keys == ids == inEdges.Keys && forall n :: n in ids ==> inDegree[n] == |inEdges[n]|
    requires Distinct(queue) && Elements(queue) == set n | n in ids && inDegree[n] == 0
    ensures Degrees(ids, inEdges, inDegree, Elements([]))
    ensures Enqueued(ids, inDegree, [] + queue)
  {
    assert Elements<NodeId>([]) == {};
    forall n | n in ids ensures inDegree[n] == CountOutside(inEdges[n], {}) {
      CountOutsideAll(inEdges[n]);
    }
    assert [] + queue == queue;
    forall n ensures n in queue <==> n in Elements(queue) {}
  }

  lemma FreshFront(processed: seq<NodeId>, queue: seq<NodeId>)
    requires queue != [] && Distinct(processed + queue)
    ensures queue[0] in processed + queue && queue[0] !in processed
  {
    assert (processed + queue)[|processed|] == queue[0];
    forall i | 0 <= i < |processed| ensures processed[i] != queue[0] {
      assert (processed + queue)[i] == processed[i];
    }
  }

  lemma EnqueuedBound(ids: set<NodeId>, inDegree: map<NodeId, int>, listed: seq<NodeId>)
    requires Enqueued(ids, inDegree, listed)
    ensures |listed| <= |ids|
  {
    if |listed| > |ids| {
      Pigeonhole(listed, ids);
    }
  }

  lemma FrontOfQueue(ids: set<NodeId>, inDegree: map<NodeId, int>, processed: seq<NodeId>, queue: seq<NodeId>)
    requires queue != [] && Enqueued(ids, inDegree, processed + queue)
    ensures queue[0] in ids && inDegree[queue[0]] == 0 && queue[0] !in processed && |processed| < |ids|
    ensures Enqueued(ids, inDegree, (processed + [queue[0]]) + queue[1..])
  {
    FreshFront(processed, queue);
    EnqueuedBound(ids, inDegree, processed + queue);
    assert processed + queue == (processed + [queue[0]]) + queue[1..];
  }

  lemma NoneLeftOutside(ids: set<NodeId>, g: seq<Edge>, inEdges: Adjacency, inDegree: map<NodeId, int>,
                        processed: seq<NodeId>, n: NodeId)
    requires Degrees(ids, inEdges, inDegree, Elements(processed)) && n in ids && inEdges[n] == Preds(g, n)
    ensures inDegree[n] == 0 <==> forall p :: p in Preds(g, n) ==> p in processed
  {
    CountOutsideZero(inEdges[n], Elements(processed));
    assert forall p :: p in processed <==> p in Elements(processed);
  }

  lemma LayerNew(g: seq<Edge>, layer: map<NodeId, nat>, node: NodeId, l: nat)
    requires node !in layer && forall p :: p in Preds(g, node) ==> p in layer
    requires OneDeeper(Preds(g, node), layer, l)
    ensures IsLayer(g, layer[node := l], node)
  {
    var layer' := layer[node := l];
    if Preds(g, node) != [] {
      var p :| p in Preds(g, node) && l == LayerOr0(layer, p) + 1;
      assert layer'[node] == layer'[p] + 1;
    }
    forall p | p in Preds(g, node) ensures p in layer' && layer'[p] + 1 <= layer'[node] {
      assert LayerOr0(layer, p) + 1 <= l;
    }
  }

  lemma LayerKept(g: seq<Edge>, layer: map<NodeId, nat>, node: NodeId, l: nat, n: NodeId)
    requires node !in layer && n in layer && IsLayer(g, layer, n)
    ensures IsLayer(g, layer[node := l], n)
  {
    var layer' := layer[node := l];
    if Preds(g, n) != [] {
      var p :| p in Preds(g, n) && p in layer && layer[n] == layer[p] + 1;
      assert layer'[n] == layer'[p] + 1;
    }
  }

  lemma LayersExtend(g: seq<Edge>, processed: seq<NodeId>, layer: map<NodeId, nat>, node: NodeId, l: nat)
    requires AllLayered(g, processed, layer) && node !in layer
    requires forall p :: p in Preds(g, node) ==> p in processed
    requires OneDeeper(Preds(g, node), layer, l)
    ensures AllLayered(g, processed + [node], layer[node := l])
  {
    LayerNew(g, layer, node, l);
    forall n | n in processed + [node] ensures IsLayer(g, layer[node := l], n) {
      if n != node { LayerKept(g, layer, node, l, n); }
    }
  }

  lemma ExtendOrder(g: seq<Edge>, order: seq<NodeId>, n: NodeId)
    requires TopoOrdered(g, order)
    requires forall p :: p in Preds(g, n) ==> p in order
    ensures TopoOrdered(g, order + [n])
  {
    var longer := order + [n];
    forall i, p | 0 <= i < |longer| && p in Preds(g, longer[i])
      ensures p in longer[..i]
    {
      assert longer[..i] == order[..i];
      assert order[..|order|] == order;
    }
  }

  lemma Settle(g: seq<Edge>, processed: seq<NodeId>, layer: map<NodeId, nat>, node: NodeId, l: nat)
    requires Settled(g, processed, layer) && node !in processed
    requires forall p :: p in Preds(g, node) ==> p in processed
    requires OneDeeper(Preds(g, node), layer, l)
    ensures Settled(g, processed + [node], layer[node := l])
  {
    ExtendOrder(g, processed, node);
    ElementsAppend(processed, node);
    assert node !in layer by { assert node !in Elements(processed); }
    LayersExtend(g, processed, layer, node, l);
  }

  lemma SuccsInside(ids: set<NodeId>, g: seq<Edge>, inEdges: Adjacency, outEdges: Adjacency, node: NodeId)
    requires IsAdjacency(ids, g, inEdges, outEdges) && node in ids
    ensures forall s :: s in outEdges[node] ==> s in ids
  {
    forall s | s in outEdges[node] ensures s in ids {
      SuccsMembers(g, node, s);
    }
  }

  lemma Exhausted(ids: set<NodeId>, g: seq<Edge>, inEdges: Adjacency, outEdges: Adjacency,
                  inDegree: map<NodeId, int>, processed: seq<NodeId>, layer: map<NodeId, nat>)
    requires IsAdjacency(ids, g, inEdges, outEdges) && Settled(g, processed, layer)
    requires Degrees(ids, inEdges, inDegree, Elements(processed)) && Enqueued(ids, inDegree, processed + [])
    ensures KahnResult(ids, g, processed, layer)
  {
    assert processed + [] == processed;
    assert Elements(processed) <= ids;
    forall n | n in ids && forall p :: p in Preds(g, n) ==> p in processed
      ensures n in processed
    {
      NoneLeftOutside(ids, g, inEdges, inDegree, processed, n);
    }
  }

  /** Taking a node off the queue: its predecessors are all done, and its outgoing edges are to be
      released. */
  lemma TakeFront(ids: set<NodeId>, g: seq<Edge>, inEdges: Adjacency, outEdges: Adjacency,
                  inDegree: map<NodeId, int>, processed: seq<NodeId>, queue: seq<NodeId>)
    requires IsAdjacency(ids, g, inEdges, outEdges) && queue != []
    requires Degrees(ids, inEdges, inDegree, Elements(processed))
    requires Enqueued(ids, inDegree, processed + queue)
    ensures queue[0] in ids && queue[0] !in processed && |processed| < |ids|
    ensures inEdges[queue[0]] == Preds(g, queue[0])
    ensures forall p :: p in Preds(g, queue[0]) ==> p in processed && p in Elements(processed)
    ensures Enqueued(ids, inDegree, (processed + [queue[0]]) + queue[1..])
    ensures forall s :: s in outEdges[queue[0]] ==> s in ids
    ensures Releasing(ids, inEdges, inDegree, Elements(processed + [queue[0]]), outEdges[queue[0]], 0)
  {
    var node := queue[0];
    FrontOfQueue(ids, inDegree, processed, queue);
    NoneLeftOutside(ids, g, inEdges, inDegree, processed, node);
    SuccsInside(ids, g, inEdges, outEdges, node);
    StartNode(ids, g, inEdges, outEdges, inDegree, Elements(processed), node);
    ElementsAppend(processed, node);
  }

  method AssignLayers(ids: set<NodeId>, inEdges: Adjacency, outEdges: Adjacency, ghost g: seq<Edge>)
    returns (processed: seq<NodeId>, layer: map<NodeId, nat>)
    requires IsAdjacency(ids, g, inEdges, outEdges)
    ensures KahnResult(ids, g, processed, layer)
  {
    var inDegree: map<NodeId, int> := map n | n in ids :: |inEdges[n]|;
    var queue := Enumerate(set n | n in ids && inDegree[n] == 0);
    processed, layer := [], map[];
    StartQueue(ids, inEdges, inDegree, queue);
    while queue != []
      invariant Degrees(ids, inEdges, inDegree, Elements(processed))
      invariant Enqueued(ids, inDegree, processed + queue)
      invariant Settled(g, processed, layer)
      decreases |ids| - |processed|
    {
      var node := queue[0];
      ghost var before := processed;
      TakeFront(ids, g, inEdges, outEdges, inDegree, processed, queue);
      queue, processed := queue[1..], processed + [node];
      var l := LayerFromPreds(inEdges[node], layer);
      Settle(g, before, layer, node, l);
      layer := layer[node := l];
      inDegree, queue := Release(ids, inEdges, outEdges[node], inDegree, queue, processed);
    }
    Exhausted(ids, g, inEdges, outEdges, inDegree, processed, layer);
  }
}
