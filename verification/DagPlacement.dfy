/** The drawing half of `_dag_hierarchical_layout`: grouping by layer, barycenter order inside a
    layer, and slots. */
module DagPlacement {
  import opened Sequences
  import opened DagGraph
  import opened KahnLayers
  import opened Reals

  type Heights = map<NodeId, real>

  // ----- barycenters ---------------------------------------------------------------------------

  function SumHeights(preds: seq<NodeId>, nodeY: Heights): real {
    if preds == [] then 0.0
    else
      var p := preds[|preds| - 1];
      SumHeights(preds[..|preds| - 1], nodeY) + if p in nodeY then nodeY[p] else 0.5
  }

  /** Mean height of the predecessors; an unplaced predecessor counts 0.5, a source has 0. */
  function Barycenter(preds: seq<NodeId>, nodeY: Heights): real {
    if preds == [] then 0.0 else SumHeights(preds, nodeY) / (|preds| as real)
  }

  lemma {:induction false} SumHeightsFrame(preds: seq<NodeId>, small: Heights, big: Heights)
    requires forall p :: p in preds ==> p in small && p in big && small[p] == big[p]
    ensures SumHeights(preds, small) == SumHeights(preds, big)
  {
    if preds != [] {
      assert preds[|preds| - 1] in preds;
      SumHeightsFrame(preds[..|preds| - 1], small, big);
    }
  }

  lemma {:induction false} SumHeightsUnplaced(preds: seq<NodeId>)
    ensures SumHeights(preds, map[]) == 0.5 * (|preds| as real)
  {
    if preds != [] { SumHeightsUnplaced(preds[..|preds| - 1]); }
  }

  lemma MeanOfHalves(m: real)
    requires m > 0.0
    ensures 0.5 * m / m == 0.5
  {
  }

  lemma {:induction false} SumHeightsConcat(a: seq<NodeId>, b: seq<NodeId>, nodeY: Heights)
    ensures SumHeights(a + b, nodeY) == SumHeights(a, nodeY) + SumHeights(b, nodeY)
  {
    if b == [] {
      assert a + b == a;
    } else {
      assert (a + b)[..|a + b| - 1] == a + b[..|b| - 1];
      SumHeightsConcat(a, b[..|b| - 1], nodeY);
    }
  }

  lemma CountTimesMean(preds: seq<NodeId>, nodeY: Heights)
    ensures |preds| as real * Barycenter(preds, nodeY) == SumHeights(preds, nodeY)
  {
    if preds != [] {
      assert SumHeights(preds, nodeY) / (|preds| as real) * (|preds| as real) == SumHeights(preds, nodeY);
    }
  }

  /** The barycenter is a mean: of one placed predecessor it is that predecessor's height ... */
  lemma MeanOfOne(p: NodeId, nodeY: Heights)
    requires p in nodeY
    ensures Barycenter([p], nodeY) == nodeY[p]
  {
    assert [p][..0] == [];
    assert SumHeights([p], nodeY) == nodeY[p];
  }

  /** ... and two lists enter that of their concatenation by their lengths. */
  lemma MeanOfConcat(a: seq<NodeId>, b: seq<NodeId>, nodeY: Heights)
    ensures |a + b| as real * Barycenter(a + b, nodeY)
            == |a| as real * Barycenter(a, nodeY) + |b| as real * Barycenter(b, nodeY)
  {
    CountTimesMean(a, nodeY);
    CountTimesMean(b, nodeY);
    CountTimesMean(a + b, nodeY);
    SumHeightsConcat(a, b, nodeY);
  }

  lemma OneMoreTimes(n: nat, x: real)
    ensures (n + 1) as real * x == n as real * x + x
  {
  }

  lemma {:induction false} SumHeightsBetween(preds: seq<NodeId>, nodeY: Heights, low: real, high: real)
    requires forall p :: p in preds ==> p in nodeY && low <= nodeY[p] <= high
    ensures |preds| as real * low <= SumHeights(preds, nodeY) <= |preds| as real * high
  {
    if preds != [] {
      assert preds[|preds| - 1] in preds;
      OneMoreTimes(|preds| - 1, low);
      OneMoreTimes(|preds| - 1, high);
      SumHeightsBetween(preds[..|preds| - 1], nodeY, low, high);
    }
  }

  lemma CancelCount(x: real, y: real, m: real)
    requires m > 0.0 && m * x <= m * y
    ensures x <= y
  {
    assert (y - x) * m == m * y - m * x;
    NonNegativeFactor(y - x, m);
  }

  lemma MeanBetween(preds: seq<NodeId>, nodeY: Heights, low: real, high: real)
    requires preds != [] && forall p :: p in preds ==> p in nodeY && low <= nodeY[p] <= high
    ensures low <= Barycenter(preds, nodeY) <= high
  {
    SumHeightsBetween(preds, nodeY, low, high);
    CountTimesMean(preds, nodeY);
    CancelCount(low, Barycenter(preds, nodeY), |preds| as real);
    CancelCount(Barycenter(preds, nodeY), high, |preds| as real);
  }

  /** The predecessor that is drawn highest. */
  lemma {:induction false} Highest(preds: seq<NodeId>, nodeY: Heights) returns (h: NodeId)
    requires preds != [] && forall p :: p in preds ==> p in nodeY
    ensures h in preds && forall p :: p in preds ==> nodeY[p] <= nodeY[h]
  {
    var init, last := preds[..|preds| - 1], preds[|preds| - 1];
    h := last;
    if init != [] {
      var r := Highest(init, nodeY);
      if nodeY[last] < nodeY[r] { h := r; }
    }
    assert forall p :: p in preds ==> p in init || p == last;
  }

  lemma {:induction false} Lowest(preds: seq<NodeId>, nodeY: Heights) returns (l: NodeId)
    requires preds != [] && forall p :: p in preds ==> p in nodeY
    ensures l in preds && forall p :: p in preds ==> nodeY[l] <= nodeY[p]
  {
    var init, last := preds[..|preds| - 1], preds[|preds| - 1];
    l := last;
    if init != [] {
      var r := Lowest(init, nodeY);
      if nodeY[r] < nodeY[last] { l := r; }
    }
    assert forall p :: p in preds ==> p in init || p == last;
  }

  /** If every predecessor in one list is drawn lower than every one in the other, so is the mean. */
  lemma LowerMean(a: seq<NodeId>, b: seq<NodeId>, nodeY: Heights)
    requires a != [] && b != []
    requires forall p :: p in a || p in b ==> p in nodeY
    requires forall p, q :: p in a && q in b ==> nodeY[p] < nodeY[q]
    ensures Barycenter(a, nodeY) < Barycenter(b, nodeY)
  {
    var top := Highest(a, nodeY);
    var low := Lowest(b, nodeY);
    var floor := Lowest(a, nodeY);
    var ceiling := Highest(b, nodeY);
    MeanBetween(a, nodeY, nodeY[floor], nodeY[top]);
    MeanBetween(b, nodeY, nodeY[low], nodeY[ceiling]);
  }

  // ----- grouping ------------------------------------------------------------------------------

  function InLayer(order: seq<NodeId>, layer: map<NodeId, nat>, k: nat): seq<NodeId> {
    if order == [] then []
    else
      var n := order[|order| - 1];
      InLayer(order[..|order| - 1], layer, k) + if n in layer && layer[n] == k then [n] else []
  }

  lemma {:induction false} InLayerMembers(order: seq<NodeId>, layer: map<NodeId, nat>, k: nat)
    requires Distinct(order)
    ensures Distinct(InLayer(order, layer, k))
    ensures forall n :: n in InLayer(order, layer, k) <==> n in order && n in layer && layer[n] == k
  {
    if order != [] {
      var init, last := order[..|order| - 1], order[|order| - 1];
      InLayerMembers(init, layer, k);
      assert forall n :: n in order <==> n in init || n == last;
      assert last !in init;
    }
  }

  /** Exactly the layers that have nodes are there, each with its nodes in order. */
  ghost predicate Groups(layers: map<nat, seq<NodeId>>, order: seq<NodeId>, layer: map<NodeId, nat>) {
    forall k :: && (k in layers <==> InLayer(order, layer, k) != [])
                && (k in layers ==> layers[k] == InLayer(order, layer, k))
  }

  lemma GroupOne(layers: map<nat, seq<NodeId>>, order: seq<NodeId>, layer: map<NodeId, nat>, n: NodeId)
    requires Groups(layers, order, layer) && n in layer
    ensures Groups(layers[layer[n] := (if layer[n] in layers then layers[layer[n]] else []) + [n]], order + [n], layer)
  {
    assert (order + [n])[..|order|] == order;
  }

  method GroupByLayer(order: seq<NodeId>, layer: map<NodeId, nat>) returns (layers: map<nat, seq<NodeId>>)
    requires Elements(order) <= layer.Keys
    ensures Groups(layers, order, layer)
  {
    layers := map[];
    for i := 0 to |order|
      invariant Groups(layers, order[..i], layer)
    {
      assert order[i] in Elements(order);
      assert order[..i + 1] == order[..i] + [order[i]];
      GroupOne(layers, order[..i], layer, order[i]);
      var n, l := order[i], layer[order[i]];
      if l !in layers {
        layers := layers[l := []];
      }
      layers := layers[l := layers[l] + [n]];
    }
    assert order[..|order|] == order;
  }

  // ----- placement -----------------------------------------------------------------------------

  /** The middle of slot `i` when the unit interval is cut into `n` equal slots. */
  function Slot(i: nat, n: nat): real {
    (i as real + 0.5) / ((if n > 1 then n else 1) as real)
  }

  lemma DivideMonotone(a: real, b: real, m: real)
    requires a < b && 0.0 < m
    ensures a / m < b / m
  {
    var x, y := a / m, b / m;
    assert x * m == a && y * m == b;
    assert (y - x) * m == b - a;
    PositiveFactor(y - x, m);
  }

  lemma SlotBounds(i: nat, n: nat)
    requires i < n
    ensures 0.0 < Slot(i, n) < 1.0
  {
    var m := n as real;
    DivideMonotone(0.0, i as real + 0.5, m);
    DivideMonotone(i as real + 0.5, m, m);
    assert m / m == 1.0;
  }

  lemma SlotIncreases(i: nat, j: nat, n: nat)
    requires i < j < n
    ensures Slot(i, n) < Slot(j, n)
  {
    DivideMonotone(i as real + 0.5, j as real + 0.5, n as real);
  }

  ghost predicate PredsFurtherLeft(ids: set<NodeId>, g: seq<Edge>, stuck: set<NodeId>, layer: map<NodeId, nat>)
    requires layer.Keys == ids
  {
    forall n, p :: n in ids && n !in stuck && p in Preds(g, n) ==> p in ids && layer[p] < layer[n]
  }

  /** What the layering pass hands to the placement. */
  ghost predicate Layered(ids: set<NodeId>, g: seq<Edge>, inEdges: Adjacency, stuck: set<NodeId>,
                          order: seq<NodeId>, layer: map<NodeId, nat>)
  {
    && Distinct(order) && Elements(order) == ids && layer.Keys == ids && stuck <= ids
    && inEdges.Keys == ids && (forall n :: n in ids ==> inEdges[n] == Preds(g, n))
    && PredsFurtherLeft(ids, g, stuck, layer)
    && (forall n :: n in stuck ==> layer[n] == 0 && Preds(g, n) != [])
  }

  /** The key that orders a layer: 0.5 for a node on or below a cycle, else the barycenter. */
  ghost function Rank(g: seq<Edge>, stuck: set<NodeId>, nodeY: Heights, n: NodeId): real {
    if n in stuck then 0.5 else Barycenter(Preds(g, n), nodeY)
  }

  /** The closure handed to `sorted`. */
  function SortKey(inEdges: Adjacency, nodeY: Heights): NodeId -> real {
    n => Barycenter(if n in inEdges then inEdges[n] else [], nodeY)
  }

  /** No height changes once it is given. */
  ghost predicate Extends(nodeY: Heights, nodeY': Heights) {
    forall m :: m in nodeY ==> m in nodeY' && nodeY'[m] == nodeY[m]
  }

  ghost predicate RowPlaced(row: seq<NodeId>, members: seq<NodeId>, nodeY: Heights) {
    && Distinct(row) && Elements(row) == Elements(members)
    && forall i :: 0 <= i < |row| ==> row[i] in nodeY && nodeY[row[i]] == Slot(i, |row|)
  }

  ghost predicate RowOrdered(g: seq<Edge>, stuck: set<NodeId>, row: seq<NodeId>, nodeY: Heights) {
    forall i, j :: 0 <= i < j < |row| ==> Rank(g, stuck, nodeY, row[i]) <= Rank(g, stuck, nodeY, row[j])
  }

  method PlaceRow(row: seq<NodeId>, nodeY: Heights) returns (nodeY': Heights)
    requires Distinct(row)
    ensures nodeY'.Keys == nodeY.Keys + Elements(row)
    ensures forall i :: 0 <= i < |row| ==> row[i] in nodeY' && nodeY'[row[i]] == Slot(i, |row|)
    ensures forall n :: n in nodeY && n !in row ==> nodeY'[n] == nodeY[n]
  {
    nodeY' := nodeY;
    for i := 0 to |row|
      invariant nodeY'.Keys == nodeY.Keys + Elements(row[..i])
      invariant forall j :: 0 <= j < i ==> row[j] in nodeY' && nodeY'[row[j]] == Slot(j, |row|)
      invariant forall n :: n in nodeY && n !in row ==> nodeY'[n] == nodeY[n]
    {
      nodeY' := nodeY'[row[i] := (i as real + 0.5) / ((if |row| > 1 then |row| else 1) as real)];
      assert row[..i + 1] == row[..i] + [row[i]];
      ElementsAppend(row[..i], row[i]);
    }
    assert row[..|row|] == row;
  }

  /** The smallest of a non-empty set of layer numbers. */
  method Smallest(s: set<nat>) returns (k: nat)
    requires s != {}
    ensures k in s && forall j :: j in s ==> k <= j
  {
    k :| k in s;
    var rest := s - {k};
    while rest != {}
      invariant rest <= s && k in s && forall j :: j in s ==> j in rest || k <= j
      decreases rest
    {
      var j :| j in rest;
      if j < k { k := j; }
      rest := rest - {j};
    }
  }

  /** The finished layers are the leftmost ones. */
  ghost predicate LeftmostDone(all: set<nat>, done: set<nat>, remaining: set<nat>) {
    && remaining <= all && done == all - remaining
    && forall j, k :: j in done && k in remaining ==> j < k
  }

  ghost predicate PlacedNodes(ids: set<NodeId>, layer: map<NodeId, nat>, remaining: set<nat>, nodeY: Heights)
    requires layer.Keys == ids
  {
    forall n :: n in nodeY <==> n in ids && layer[n] !in remaining
  }

  ghost predicate RowsDone(g: seq<Edge>, stuck: set<NodeId>, layers: map<nat, seq<NodeId>>, nodeY: Heights,
                           rows: map<nat, seq<NodeId>>)
  {
    forall k :: k in rows ==>
      k in layers && RowPlaced(rows[k], layers[k], nodeY) && RowOrdered(g, stuck, rows[k], nodeY)
  }

  /** State of the placement loop: the layers outside `remaining` are done, left to right. */
  ghost predicate Placed(ids: set<NodeId>, g: seq<Edge>, stuck: set<NodeId>, layer: map<NodeId, nat>,
                         layers: map<nat, seq<NodeId>>, remaining: set<nat>, nodeY: Heights,
                         rows: map<nat, seq<NodeId>>)
    requires layer.Keys == ids
  {
    && LeftmostDone(layers.Keys, rows.Keys, remaining)
    && PlacedNodes(ids, layer, remaining, nodeY)
    && RowsDone(g, stuck, layers, nodeY, rows)
  }

  lemma OneLayerFurther(all: set<nat>, done: set<nat>, remaining: set<nat>, k: nat)
    requires LeftmostDone(all, done, remaining) && k in remaining && forall j :: j in remaining ==> k <= j
    ensures LeftmostDone(all, done + {k}, remaining - {k})
  {
  }

  /** Layers as grouped from the node order. */
  ghost predicate Grouped(ids: set<NodeId>, layer: map<NodeId, nat>, layers: map<nat, seq<NodeId>>)
    requires layer.Keys == ids
  {
    && (forall n :: n in ids ==> layer[n] in layers)
    && (forall k, n :: k in layers && n in layers[k] ==> n in ids && layer[n] == k)
    && (forall n :: n in ids && layer[n] in layers ==> n in layers[layer[n]])
    && (forall k :: k in layers ==> Distinct(layers[k]))
  }

  lemma GroupedFromOrder(ids: set<NodeId>, order: seq<NodeId>, layer: map<NodeId, nat>,
                         layers: map<nat, seq<NodeId>>)
    requires Distinct(order) && Elements(order) == ids == layer.Keys && Groups(layers, order, layer)
    ensures Grouped(ids, layer, layers)
  {
    assert forall n :: n in order <==> n in Elements(order);
    forall k
      ensures k in layers ==> Distinct(layers[k])
      ensures forall n :: n in ids && layer[n] == k <==> k in layers && n in layers[k]
    {
      InLayerMembers(order, layer, k);
    }
  }

  lemma RankFrame(g: seq<Edge>, stuck: set<NodeId>, small: Heights, big: Heights, n: NodeId)
    requires n !in stuck ==> forall p :: p in Preds(g, n) ==> p in small && p in big && small[p] == big[p]
    ensures Rank(g, stuck, small, n) == Rank(g, stuck, big, n)
  {
    if n !in stuck { SumHeightsFrame(Preds(g, n), small, big); }
  }

  /** When a layer is reached, the predecessors of its processed nodes are all placed already. */
  lemma PredsPlaced(ids: set<NodeId>, g: seq<Edge>, stuck: set<NodeId>, layer: map<NodeId, nat>,
                    remaining: set<nat>, nodeY: Heights, k: nat)
    requires layer.Keys == ids && PredsFurtherLeft(ids, g, stuck, layer)
    requires PlacedNodes(ids, layer, remaining, nodeY)
    requires forall j :: j in remaining ==> k <= j
    ensures forall n, p :: n in ids && layer[n] == k && n !in stuck && p in Preds(g, n) ==> p in nodeY
  {
    forall n, p | n in ids && layer[n] == k && n !in stuck && p in Preds(g, n) ensures p in nodeY {
      assert layer[p] < k;
    }
  }

  /** The layer of the stuck nodes comes first, before anything is placed. */
  lemma NothingPlacedYet(ids: set<NodeId>, layer: map<NodeId, nat>, layers: map<nat, seq<NodeId>>,
                         remaining: set<nat>, nodeY: Heights, rows: map<nat, seq<NodeId>>)
    requires layer.Keys == ids && Grouped(ids, layer, layers)
    requires LeftmostDone(layers.Keys, rows.Keys, remaining)
    requires PlacedNodes(ids, layer, remaining, nodeY) && 0 in remaining
    ensures nodeY == map[]
  {
    forall m ensures m !in nodeY {
      var l: int := if m in ids then layer[m] else 0;
      assert m in ids ==> l in layers;
      assert l in rows ==> l < 0;
    }
    assert nodeY.Keys == {};
  }

  lemma MeanOfUnplaced(preds: seq<NodeId>)
    requires preds != []
    ensures Barycenter(preds, map[]) == 0.5
  {
    SumHeightsUnplaced(preds);
    MeanOfHalves(|preds| as real);
  }

  /** At the moment a layer is sorted, its sort key is already the final rank.  The 0.5 default is never met
      by a processed node, whose predecessors are all placed; for a node on or below a cycle it is met by
      every predecessor. */
  lemma KeyIsRank(ids: set<NodeId>, g: seq<Edge>, inEdges: Adjacency, stuck: set<NodeId>, order: seq<NodeId>,
                  layer: map<NodeId, nat>, layers: map<nat, seq<NodeId>>, remaining: set<nat>,
                  nodeY: Heights, rows: map<nat, seq<NodeId>>, n: NodeId, nodeY': Heights)
    requires Layered(ids, g, inEdges, stuck, order, layer) && Grouped(ids, layer, layers)
    requires Placed(ids, g, stuck, layer, layers, remaining, nodeY, rows)
    requires n in ids && layer[n] in remaining && forall j :: j in remaining ==> layer[n] <= j
    requires Extends(nodeY, nodeY')
    ensures SortKey(inEdges, nodeY)(n) == Rank(g, stuck, nodeY', n)
    ensures n !in stuck ==> forall p :: p in Preds(g, n) ==> p in nodeY
    ensures n in stuck ==> Preds(g, n) != [] && forall p :: p in Preds(g, n) ==> p !in nodeY
  {
    if n in stuck {
      NothingPlacedYet(ids, layer, layers, remaining, nodeY, rows);
      MeanOfUnplaced(Preds(g, n));
    } else {
      PredsPlaced(ids, g, stuck, layer, remaining, nodeY, layer[n]);
      RankFrame(g, stuck, nodeY, nodeY', n);
    }
  }

  lemma OldRowKept(g: seq<Edge>, stuck: set<NodeId>, nodeY: Heights, nodeY': Heights, row: seq<NodeId>)
    requires RowOrdered(g, stuck, row, nodeY)
    requires forall n, p :: n in row && n !in stuck && p in Preds(g, n) ==> p in nodeY
    requires Extends(nodeY, nodeY')
    ensures RowOrdered(g, stuck, row, nodeY')
  {
    forall n | n in row ensures Rank(g, stuck, nodeY, n) == Rank(g, stuck, nodeY', n) {
      RankFrame(g, stuck, nodeY, nodeY', n);
    }
    forall i, j | 0 <= i < j < |row|
      ensures Rank(g, stuck, nodeY', row[i]) <= Rank(g, stuck, nodeY', row[j])
    {
      assert row[i] in row && row[j] in row;
    }
  }

  lemma RowMembers(ids: set<NodeId>, layer: map<NodeId, nat>, layers: map<nat, seq<NodeId>>, k: nat,
                   row: seq<NodeId>)
    requires layer.Keys == ids && Grouped(ids, layer, layers) && k in layers
    requires Elements(row) == Elements(layers[k])
    ensures forall n :: n in row <==> n in ids && layer[n] == k
  {
    forall n ensures n in row <==> n in ids && layer[n] == k {
      assert n in row <==> n in Elements(layers[k]);
    }
  }

  lemma OrderedByRank(g: seq<Edge>, stuck: set<NodeId>, row: seq<NodeId>, nodeY: Heights, key: NodeId -> real)
    requires OrderedBy(row, key) && forall n :: n in row ==> key(n) == Rank(g, stuck, nodeY, n)
    ensures RowOrdered(g, stuck, row, nodeY)
  {
    forall i, j | 0 <= i < j < |row| ensures Rank(g, stuck, nodeY, row[i]) <= Rank(g, stuck, nodeY, row[j]) {
      assert row[i] in row && row[j] in row;
      assert key(row[i]) <= key(row[j]);
    }
  }

  lemma RowSorted(ids: set<NodeId>, g: seq<Edge>, inEdges: Adjacency, stuck: set<NodeId>, order: seq<NodeId>,
                  layer: map<NodeId, nat>, layers: map<nat, seq<NodeId>>, remaining: set<nat>,
                  nodeY: Heights, rows: map<nat, seq<NodeId>>, k: nat, row: seq<NodeId>, nodeY': Heights)
    requires Layered(ids, g, inEdges, stuck, order, layer) && Grouped(ids, layer, layers)
    requires Placed(ids, g, stuck, layer, layers, remaining, nodeY, rows)
    requires k in remaining && forall j :: j in remaining ==> k <= j
    requires forall n :: n in row ==> n in ids && layer[n] == k
    requires OrderedBy(row, SortKey(inEdges, nodeY)) && Extends(nodeY, nodeY')
    ensures RowOrdered(g, stuck, row, nodeY')
  {
    forall n | n in row ensures SortKey(inEdges, nodeY)(n) == Rank(g, stuck, nodeY', n) {
      KeyIsRank(ids, g, inEdges, stuck, order, layer, layers, remaining, nodeY, rows, n, nodeY');
    }
    OrderedByRank(g, stuck, row, nodeY', SortKey(inEdges, nodeY));
  }

  lemma NodesPlaced(ids: set<NodeId>, layer: map<NodeId, nat>, remaining: set<nat>, nodeY: Heights, k: nat,
                    row: seq<NodeId>, nodeY': Heights)
    requires layer.Keys == ids && PlacedNodes(ids, layer, remaining, nodeY) && k in remaining
    requires forall n :: n in row <==> n in ids && layer[n] == k
    requires nodeY'.Keys == nodeY.Keys + Elements(row)
    requires forall n :: n in nodeY && n !in row ==> nodeY'[n] == nodeY[n]
    ensures PlacedNodes(ids, layer, remaining - {k}, nodeY')
    ensures Extends(nodeY, nodeY')
  {
    assert forall n :: n in row <==> n in Elements(row);
    forall m | m in nodeY ensures m in nodeY' && nodeY'[m] == nodeY[m] {
      assert layer[m] !in remaining;
    }
  }

  lemma RowsExtend(g: seq<Edge>, stuck: set<NodeId>, layers: map<nat, seq<NodeId>>, nodeY: Heights,
                   rows: map<nat, seq<NodeId>>, k: nat, row: seq<NodeId>)
    requires RowsDone(g, stuck, layers, nodeY, rows) && k in layers
    requires RowPlaced(row, layers[k], nodeY) && RowOrdered(g, stuck, row, nodeY)
    ensures RowsDone(g, stuck, layers, nodeY, rows[k := row])
  {
  }

  lemma RowsKept(ids: set<NodeId>, g: seq<Edge>, stuck: set<NodeId>, layer: map<NodeId, nat>,
                 layers: map<nat, seq<NodeId>>, remaining: set<nat>, nodeY: Heights,
                 rows: map<nat, seq<NodeId>>, nodeY': Heights)
    requires layer.Keys == ids && PredsFurtherLeft(ids, g, stuck, layer) && Grouped(ids, layer, layers)
    requires Placed(ids, g, stuck, layer, layers, remaining, nodeY, rows)
    requires Extends(nodeY, nodeY')
    ensures RowsDone(g, stuck, layers, nodeY', rows)
  {
    forall k | k in rows
      ensures RowPlaced(rows[k], layers[k], nodeY') && RowOrdered(g, stuck, rows[k], nodeY')
    {
      assert RowPlaced(rows[k], layers[k], nodeY);
      RowMembers(ids, layer, layers, k, rows[k]);
      PredsPlaced(ids, g, stuck, layer, remaining, nodeY, k);
      OldRowKept(g, stuck, nodeY, nodeY', rows[k]);
    }
  }

  lemma RowDone(ids: set<NodeId>, g: seq<Edge>, inEdges: Adjacency, stuck: set<NodeId>, order: seq<NodeId>,
                layer: map<NodeId, nat>, layers: map<nat, seq<NodeId>>, remaining: set<nat>,
                nodeY: Heights, rows: map<nat, seq<NodeId>>, k: nat, row: seq<NodeId>, nodeY': Heights)
    requires Layered(ids, g, inEdges, stuck, order, layer) && Grouped(ids, layer, layers)
    requires Placed(ids, g, stuck, layer, layers, remaining, nodeY, rows)
    requires k in remaining && forall j :: j in remaining ==> k <= j
    requires Distinct(row) && Elements(row) == Elements(layers[k])
    requires OrderedBy(row, SortKey(inEdges, nodeY))
    requires nodeY'.Keys == nodeY.Keys + Elements(row)
    requires forall i :: 0 <= i < |row| ==> row[i] in nodeY' && nodeY'[row[i]] == Slot(i, |row|)
    requires forall n :: n in nodeY && n !in row ==> nodeY'[n] == nodeY[n]
    ensures Placed(ids, g, stuck, layer, layers, remaining - {k}, nodeY', rows[k := row])
  {
    OneLayerFurther(layers.Keys, rows.Keys, remaining, k);
    assert rows[k := row].Keys == rows.Keys + {k};
    RowMembers(ids, layer, layers, k, row);
    NodesPlaced(ids, layer, remaining, nodeY, k, row, nodeY');
    RowsKept(ids, g, stuck, layer, layers, remaining, nodeY, rows, nodeY');
    RowSorted(ids, g, inEdges, stuck, order, layer, layers, remaining, nodeY, rows, k, row, nodeY');
    RowsExtend(g, stuck, layers, nodeY', rows, k, row);
  }

  method PlaceNodes(ids: set<NodeId>, inEdges: Adjacency, layer: map<NodeId, nat>, layers: map<nat, seq<NodeId>>,
                    ghost g: seq<Edge>, ghost stuck: set<NodeId>, ghost order: seq<NodeId>)
    returns (nodeY: Heights)
    requires Layered(ids, g, inEdges, stuck, order, layer) && Grouped(ids, layer, layers)
    ensures exists rows :: Placed(ids, g, stuck, layer, layers, {}, nodeY, rows)
  {
    nodeY := map[];
    ghost var rows: map<nat, seq<NodeId>> := map[];
    var remaining := layers.Keys;
    while remaining != {}
      invariant Placed(ids, g, stuck, layer, layers, remaining, nodeY, rows)
      decreases remaining
    {
      var k := Smallest(remaining);
      var key := SortKey(inEdges, nodeY);
      var row := SortBy(layers[k], key);
      SortByCorrect(layers[k], key);
      PermutationElements(layers[k], row);
      ghost var before := nodeY;
      nodeY := PlaceRow(row, nodeY);
      RowDone(ids, g, inEdges, stuck, order, layer, layers, remaining, before, rows, k, row, nodeY);
      rows := rows[k := row];
      remaining := remaining - {k};
    }
  }
}
