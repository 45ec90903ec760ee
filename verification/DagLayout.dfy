/** `_dag_hierarchical_layout` as a whole: what the coordinates of a drawn task graph mean. */
module DagLayout {
  import opened Sequences
  import opened DagGraph
  import opened KahnLayers
  import opened LongestWalks
  import opened DagPlacement

  type Positions = map<NodeId, (real, real)>

  function HeightsOf(positions: Positions): Heights {
    map n | n in positions :: positions[n].1
  }

  /** Columns are 1.2 apart. */
  function ColumnX(k: nat): real {
    k as real * 1.2
  }

  function Coordinates(layer: map<NodeId, nat>, nodeY: Heights): Positions
    requires layer.Keys == nodeY.Keys
  {
    map n | n in layer :: (ColumnX(layer[n]), nodeY[n])
  }

  /** `stuck` is the set of declared nodes on or below a cycle. */
  ghost predicate StuckSet(ids: set<NodeId>, g: seq<Edge>, stuck: set<NodeId>) {
    stuck <= ids && forall n {:trigger Stuck(g, n)} :: n in ids ==> (n in stuck <==> Stuck(g, n))
  }

  /** The key that orders a column: 0.5 for a node on or below a cycle, else the mean height of its
      predecessors in the finished drawing. */
  ghost function Priority(g: seq<Edge>, nodeY: Heights, n: NodeId): real {
    if Stuck(g, n) then 0.5 else Barycenter(Preds(g, n), nodeY)
  }

  /** The nodes drawn in the same column as `n`. */
  function Column(positions: Positions, n: NodeId): set<NodeId>
    requires n in positions
  {
    set m | m in positions && positions[m].0 == positions[n].0
  }

  /** Columns: a node off the cycles stands at 1.2 times the length of the longest walk into it, all
      others stand at 0. */
  ghost predicate ColumnsAreLongestWalks(ids: set<NodeId>, g: seq<Edge>, positions: Positions) {
    && positions.Keys == ids
    && (forall n {:trigger Stuck(g, n)} :: n in ids && Stuck(g, n) ==> positions[n].0 == 0.0)
    && (forall n {:trigger Stuck(g, n)} :: n in ids && !Stuck(g, n) ==>
          exists k: nat :: LongestTo(g, n, k) && positions[n].0 == ColumnX(k))
  }

  ghost predicate InOrder(g: seq<Edge>, nodeY: Heights, m: NodeId, n: NodeId)
    requires m in nodeY && n in nodeY
  {
    nodeY[m] < nodeY[n] ==> Priority(g, nodeY, m) <= Priority(g, nodeY, n)
  }

  ghost predicate FillsSlot(positions: Positions, n: NodeId)
    requires n in positions
  {
    exists i: nat :: i < |Column(positions, n)| && positions[n].1 == Slot(i, |Column(positions, n)|)
  }

  /** Inside a column the nodes fill equal slots, one each, in order of priority. */
  ghost predicate ColumnsAreBarycentric(ids: set<NodeId>, g: seq<Edge>, positions: Positions) {
    && positions.Keys == ids
    && (forall n {:trigger FillsSlot(positions, n)} :: n in ids ==> FillsSlot(positions, n))
    && (forall m, n :: m in ids && n in ids && m != n ==> positions[m] != positions[n])
    && (forall m, n {:trigger InOrder(g, HeightsOf(positions), m, n)} ::
          m in ids && n in ids && positions[m].0 == positions[n].0 ==> InOrder(g, HeightsOf(positions), m, n))
  }

  ghost predicate LayersAreLongest(ids: set<NodeId>, g: seq<Edge>, layer: map<NodeId, nat>) {
    && layer.Keys == ids
    && (forall n {:trigger Stuck(g, n)} :: n in ids && Stuck(g, n) ==> layer[n] == 0)
    && (forall n {:trigger Stuck(g, n)} :: n in ids && !Stuck(g, n) ==> LongestTo(g, n, layer[n]))
  }

  lemma KahnLayersLongest(ids: set<NodeId>, g: seq<Edge>, processed: seq<NodeId>, walks: map<NodeId, nat>,
                          layer: map<NodeId, nat>)
    requires KahnResult(ids, g, processed, walks)
    requires forall e :: e in g ==> e.from in ids && e.to in ids
    requires layer == walks + map n | n in ids - Elements(processed) :: 0
    ensures LayersAreLongest(ids, g, layer)
  {
    forall n | n in ids
      ensures Stuck(g, n) ==> layer[n] == 0
      ensures !Stuck(g, n) ==> LongestTo(g, n, layer[n])
    {
      UnprocessedIffStuck(ids, g, processed, walks, n);
      assert n in processed <==> n in Elements(processed);
      if n in processed {
        LayerIsLongest(ids, g, processed, walks, n);
      }
    }
  }

  lemma StuckHasPreds(g: seq<Edge>, n: NodeId)
    requires Stuck(g, n)
    ensures Preds(g, n) != []
  {
    var p :| WalkTo(g, p, n) && !Distinct(p);
    assert |p| > 1;
    assert Joined(g, p, |p| - 2);
    PredsMembers(g, n, p[|p| - 2]);
  }

  lemma LeftOverStuck(ids: set<NodeId>, g: seq<Edge>, processed: seq<NodeId>, walks: map<NodeId, nat>)
    requires KahnResult(ids, g, processed, walks)
    requires forall e :: e in g ==> e.from in ids && e.to in ids
    ensures StuckSet(ids, g, ids - Elements(processed))
    ensures forall n :: n in ids - Elements(processed) ==> Preds(g, n) != []
  {
    forall n | n in ids
      ensures n in processed <==> !Stuck(g, n)
      ensures n !in processed ==> Preds(g, n) != []
    {
      UnprocessedIffStuck(ids, g, processed, walks, n);
      if n !in processed { StuckHasPreds(g, n); }
    }
  }

  lemma LongestIncreases(g: seq<Edge>, e: Edge, j: nat, k: nat)
    requires e in g && LongestTo(g, e.from, j) && LongestTo(g, e.to, k)
    ensures j < k
  {
    var p :| WalkTo(g, p, e.from) && |p| == j + 1;
    WalkAppend(g, p, e.to);
    assert WalkTo(g, p + [e.to], e.to);
  }

  lemma StuckSpreads(g: seq<Edge>, e: Edge)
    requires e in g && !Stuck(g, e.to)
    ensures !Stuck(g, e.from)
  {
    forall p | WalkTo(g, p, e.from) ensures Distinct(p) {
      var q := p + [e.to];
      WalkAppend(g, p, e.to);
      assert WalkTo(g, q, e.to);
      assert Distinct(q);
      forall i, j | 0 <= i < j < |p| ensures p[i] != p[j] {
        assert q[i] != q[j];
      }
    }
  }

  lemma PredFurtherLeft(ids: set<NodeId>, g: seq<Edge>, layer: map<NodeId, nat>, n: NodeId, p: NodeId)
    requires LayersAreLongest(ids, g, layer)
    requires forall e :: e in g ==> e.from in ids && e.to in ids
    requires n in ids && !Stuck(g, n) && p in Preds(g, n)
    ensures p in ids && layer[p] < layer[n]
  {
    var e := Edge(p, n);
    PredsMembers(g, n, p);
    assert e.from in ids;
    StuckSpreads(g, e);
    LongestIncreases(g, e, layer[p], layer[n]);
  }

  lemma LongestFurtherLeft(ids: set<NodeId>, g: seq<Edge>, stuck: set<NodeId>, layer: map<NodeId, nat>)
    requires StuckSet(ids, g, stuck) && LayersAreLongest(ids, g, layer)
    requires forall e :: e in g ==> e.from in ids && e.to in ids
    ensures PredsFurtherLeft(ids, g, stuck, layer)
  {
    forall n, p | n in ids && n !in stuck && p in Preds(g, n)
      ensures p in ids && layer[p] < layer[n]
    {
      assert !Stuck(g, n);
      PredFurtherLeft(ids, g, layer, n, p);
    }
  }

  lemma OrderComplete(ids: set<NodeId>, processed: seq<NodeId>, leftOver: seq<NodeId>)
    requires Distinct(processed) && Elements(processed) <= ids
    requires Distinct(leftOver) && Elements(leftOver) == ids - Elements(processed)
    ensures Distinct(processed + leftOver) && Elements(processed + leftOver) == ids
  {
    var order := processed + leftOver;
    forall i, j | 0 <= i < j < |order| ensures order[i] != order[j] {
      if i < |processed| <= j {
        assert order[i] in Elements(processed) && order[j] in Elements(leftOver);
      }
    }
    assert forall n :: n in order <==> n in processed || n in leftOver;
    forall n ensures n in Elements(order) <==> n in ids {
      assert n in Elements(leftOver) <==> n in leftOver;
    }
  }

  /** Kahn's layers, completed with layer 0 for the nodes it never reached. */
  method AllLayers(ids: set<NodeId>, edges: seq<Edge>)
    returns (inEdges: Adjacency, order: seq<NodeId>, layer: map<NodeId, nat>, ghost stuck: set<NodeId>)
    ensures StuckSet(ids, Inside(ids, edges), stuck)
    ensures Layered(ids, Inside(ids, edges), inEdges, stuck, order, layer)
    ensures LayersAreLongest(ids, Inside(ids, edges), layer)
  {
    ghost var g := Inside(ids, edges);
    var outEdges;
    inEdges, outEdges := BuildAdjacency(ids, edges);
    var processed;
    processed, layer := AssignLayers(ids, inEdges, outEdges, g);
    var leftOver := Enumerate(ids - Elements(processed));
    ghost var walks := layer;
    layer := layer + map n | n in ids - Elements(processed) :: 0;
    order := processed + leftOver;
    OrderComplete(ids, processed, leftOver);
    KahnLayersLongest(ids, g, processed, walks, layer);
    stuck := ids - Elements(processed);
    LeftOverStuck(ids, g, processed, walks);
    LongestFurtherLeft(ids, g, stuck, layer);
  }

  lemma AllPlaced(ids: set<NodeId>, g: seq<Edge>, stuck: set<NodeId>, layer: map<NodeId, nat>,
                  layers: map<nat, seq<NodeId>>, nodeY: Heights, rows: map<nat, seq<NodeId>>)
    requires layer.Keys == ids && Placed(ids, g, stuck, layer, layers, {}, nodeY, rows)
    ensures nodeY.Keys == ids
  {
  }

  lemma LongestColumns(ids: set<NodeId>, g: seq<Edge>, layer: map<NodeId, nat>, nodeY: Heights)
    requires LayersAreLongest(ids, g, layer) && nodeY.Keys == ids
    ensures ColumnsAreLongestWalks(ids, g, Coordinates(layer, nodeY))
  {
  }

  /** The coordinates, and the rows they were read off. */
  ghost predicate Drawn(ids: set<NodeId>, g: seq<Edge>, stuck: set<NodeId>, layer: map<NodeId, nat>,
                        layers: map<nat, seq<NodeId>>, nodeY: Heights, rows: map<nat, seq<NodeId>>,
                        positions: Positions)
  {
    && layer.Keys == ids == nodeY.Keys == positions.Keys && Grouped(ids, layer, layers)
    && StuckSet(ids, g, stuck) && Placed(ids, g, stuck, layer, layers, {}, nodeY, rows)
    && positions == Coordinates(layer, nodeY)
  }

  lemma RowIndex(ids: set<NodeId>, g: seq<Edge>, stuck: set<NodeId>, layer: map<NodeId, nat>,
                 layers: map<nat, seq<NodeId>>, nodeY: Heights, rows: map<nat, seq<NodeId>>,
                 positions: Positions, n: NodeId)
    returns (i: nat)
    requires Drawn(ids, g, stuck, layer, layers, nodeY, rows, positions)
    requires n in ids
    ensures layer[n] in rows && i < |rows[layer[n]]| == |Column(positions, n)| && rows[layer[n]][i] == n
    ensures nodeY[n] == Slot(i, |rows[layer[n]]|)
  {
    var k := layer[n];
    assert k in layers && k in rows;
    assert RowPlaced(rows[k], layers[k], nodeY);
    RowMembers(ids, layer, layers, k, rows[k]);
    i :| 0 <= i < |rows[k]| && rows[k][i] == n;
    DistinctSize(rows[k]);
    assert Column(positions, n) == Elements(rows[k]) by {
      forall m ensures m in Column(positions, n) <==> m in Elements(rows[k]) {
        assert m in ids ==> (positions[m].0 == positions[n].0 <==> layer[m] == layer[n]);
      }
    }
  }

  lemma SameColumn(ids: set<NodeId>, g: seq<Edge>, stuck: set<NodeId>, layer: map<NodeId, nat>,
                   layers: map<nat, seq<NodeId>>, nodeY: Heights, rows: map<nat, seq<NodeId>>,
                   positions: Positions, m: NodeId, n: NodeId)
    requires Drawn(ids, g, stuck, layer, layers, nodeY, rows, positions)
    requires m in ids && n in ids && positions[m].0 == positions[n].0 && m != n
    ensures nodeY[m] != nodeY[n] && InOrder(g, nodeY, m, n)
  {
    assert layer[m] == layer[n];
    var i := RowIndex(ids, g, stuck, layer, layers, nodeY, rows, positions, m);
    var j := RowIndex(ids, g, stuck, layer, layers, nodeY, rows, positions, n);
    var row := rows[layer[n]];
    assert RowOrdered(g, stuck, row, nodeY);
    assert Priority(g, nodeY, m) == Rank(g, stuck, nodeY, m);
    assert Priority(g, nodeY, n) == Rank(g, stuck, nodeY, n);
    if i < j {
      SlotIncreases(i, j, |row|);
    } else {
      SlotIncreases(j, i, |row|);
    }
  }

  lemma BarycentricColumns(ids: set<NodeId>, g: seq<Edge>, stuck: set<NodeId>, layer: map<NodeId, nat>,
                           layers: map<nat, seq<NodeId>>, nodeY: Heights, rows: map<nat, seq<NodeId>>,
                           positions: Positions)
    requires Drawn(ids, g, stuck, layer, layers, nodeY, rows, positions)
    ensures ColumnsAreBarycentric(ids, g, positions)
  {
    assert HeightsOf(positions) == nodeY;
    forall n {:trigger FillsSlot(positions, n)} | n in ids ensures FillsSlot(positions, n) {
      var i := RowIndex(ids, g, stuck, layer, layers, nodeY, rows, positions, n);
    }
    forall m, n {:trigger positions[m], positions[n]} | m in ids && n in ids && m != n
      ensures positions[m] != positions[n]
    {
      if positions[m].0 == positions[n].0 {
        SameColumn(ids, g, stuck, layer, layers, nodeY, rows, positions, m, n);
      }
    }
    forall m, n {:trigger InOrder(g, nodeY, m, n)} | m in ids && n in ids && positions[m].0 == positions[n].0
      ensures InOrder(g, nodeY, m, n)
    {
      if m != n {
        SameColumn(ids, g, stuck, layer, layers, nodeY, rows, positions, m, n);
      }
    }
  }

  method LayoutMany(ids: set<NodeId>, edges: seq<Edge>) returns (positions: Positions)
    ensures ColumnsAreLongestWalks(ids, Inside(ids, edges), positions)
    ensures ColumnsAreBarycentric(ids, Inside(ids, edges), positions)
  {
    ghost var g := Inside(ids, edges);
    var inEdges, order, layer, stuck := AllLayers(ids, edges);
    var layers := GroupByLayer(order, layer);
    GroupedFromOrder(ids, order, layer, layers);
    var nodeY := PlaceNodes(ids, inEdges, layer, layers, g, stuck, order);
    ghost var rows :| Placed(ids, g, stuck, layer, layers, {}, nodeY, rows);
    AllPlaced(ids, g, stuck, layer, layers, nodeY, rows);
    positions := Coordinates(layer, nodeY);
    LongestColumns(ids, g, layer, nodeY);
    BarycentricColumns(ids, g, stuck, layer, layers, nodeY, rows, positions);
  }

  /** `_dag_hierarchical_layout`: nothing to draw, a single declared node, or the general case. */
  method Layout(nodes: seq<NodeId>, edges: seq<Edge>) returns (positions: Positions)
    ensures nodes == [] ==> positions == map[]
    ensures |nodes| == 1 ==> positions == map[nodes[0] := (0.5, 0.5)]
    ensures |nodes| >= 2 ==>
              && ColumnsAreLongestWalks(Elements(nodes), Inside(Elements(nodes), edges), positions)
              && ColumnsAreBarycentric(Elements(nodes), Inside(Elements(nodes), edges), positions)
  {
    if nodes == [] {
      positions := map[];
    } else if |nodes| == 1 {
      positions := map[nodes[0] := (0.5, 0.5)];
    } else {
      positions := LayoutMany(Elements(nodes), edges);
    }
  }

  // ----- consequences --------------------------------------------------------------------------

  /** Every edge into a node off the cycles is drawn strictly from left to right. */
  lemma EdgesPointRight(ids: set<NodeId>, g: seq<Edge>, positions: Positions, e: Edge)
    requires ColumnsAreLongestWalks(ids, g, positions)
    requires e in g && e.from in ids && e.to in ids && !Stuck(g, e.to)
    ensures !Stuck(g, e.from) && positions[e.from].0 < positions[e.to].0
  {
    StuckSpreads(g, e);
    var j: nat :| LongestTo(g, e.from, j) && positions[e.from].0 == ColumnX(j);
    var k: nat :| LongestTo(g, e.to, k) && positions[e.to].0 == ColumnX(k);
    LongestIncreases(g, e, j, k);
  }

  /** A node at depth k > 0 has a predecessor at depth k - 1. */
  lemma PredOneLess(g: seq<Edge>, n: NodeId, k: nat) returns (m: NodeId)
    requires !Stuck(g, n) && LongestTo(g, n, k) && k > 0
    ensures Edge(m, n) in g && !Stuck(g, m) && LongestTo(g, m, k - 1)
  {
    var p :| WalkTo(g, p, n) && |p| == k + 1;
    m := p[k - 1];
    assert Joined(g, p, k - 1);
    StuckSpreads(g, Edge(m, n));
    WalkInit(g, p);
    assert WalkTo(g, p[..k], m);
    forall q | WalkTo(g, q, m) ensures |q| <= k {
      WalkAppend(g, q, n);
      assert WalkTo(g, q + [n], n);
    }
  }

  /** The columns in use, and the first columns up to number `last`. */
  function UsedColumns(positions: Positions): set<real> {
    set n | n in positions :: positions[n].0
  }

  function ColumnsUpTo(last: nat): set<real> {
    set k | 0 <= k <= last :: ColumnX(k)
  }

  /** Whatever is not in the first column lies at its depth. */
  lemma ColumnIndex(ids: set<NodeId>, g: seq<Edge>, positions: Positions, n: NodeId) returns (k: nat)
    requires ColumnsAreLongestWalks(ids, g, positions) && n in ids
    ensures positions[n].0 == ColumnX(k)
    ensures k > 0 ==> !Stuck(g, n) && LongestTo(g, n, k)
  {
    if Stuck(g, n) {
      k := 0;
    } else {
      k :| LongestTo(g, n, k) && positions[n].0 == ColumnX(k);
    }
  }

  lemma {:induction false} Rightmost(nodes: set<NodeId>, positions: Positions) returns (n: NodeId)
    requires nodes != {} && nodes <= positions.Keys
    ensures n in nodes && forall m :: m in nodes ==> positions[m].0 <= positions[n].0
  {
    var first :| first in nodes;
    var rest := nodes - {first};
    n := first;
    if rest != {} {
      var r := Rightmost(rest, positions);
      if positions[first].0 < positions[r].0 { n := r; }
    }
    assert forall m :: m in nodes ==> m == first || m in rest;
  }

  /** Left of a drawn node every column is used. */
  lemma {:induction false} ColumnsToTheLeft(ids: set<NodeId>, g: seq<Edge>, positions: Positions, n: NodeId, k: nat,
                                            j: nat)
    returns (m: NodeId)
    requires ColumnsAreLongestWalks(ids, g, positions) && forall e :: e in g ==> e.from in ids && e.to in ids
    requires n in ids && j <= k && positions[n].0 == ColumnX(k)
    requires k > 0 ==> !Stuck(g, n) && LongestTo(g, n, k)
    ensures m in ids && positions[m].0 == ColumnX(j)
    decreases k
  {
    if j == k {
      m := n;
    } else {
      var p := PredOneLess(g, n, k);
      assert Edge(p, n).from in ids;
      var d: nat :| LongestTo(g, p, d) && positions[p].0 == ColumnX(d);
      LongestUnique(g, p, d, k - 1);
      m := ColumnsToTheLeft(ids, g, positions, p, k - 1, j);
    }
  }

  /** Columns have no gaps: the x-coordinates of a drawing are exactly 0, 1.2, 2.4, ... up to the last. */
  lemma ColumnsWithoutGap(ids: set<NodeId>, g: seq<Edge>, positions: Positions) returns (last: nat)
    requires ColumnsAreLongestWalks(ids, g, positions) && forall e :: e in g ==> e.from in ids && e.to in ids
    requires ids != {}
    ensures UsedColumns(positions) == ColumnsUpTo(last)
  {
    var n := Rightmost(ids, positions);
    last := ColumnIndex(ids, g, positions, n);
    forall x | x in UsedColumns(positions) ensures x in ColumnsUpTo(last) {
      var m :| m in positions && positions[m].0 == x;
      var k := ColumnIndex(ids, g, positions, m);
      assert k <= last;
    }
    forall x | x in ColumnsUpTo(last) ensures x in UsedColumns(positions) {
      var j: nat :| j <= last && ColumnX(j) == x;
      var m := ColumnsToTheLeft(ids, g, positions, n, last, j);
    }
  }

  /** In the leftmost column every source is drawn below every node on or below a cycle. */
  lemma SourcesBelowStuck(ids: set<NodeId>, g: seq<Edge>, positions: Positions, source: NodeId, n: NodeId)
    requires ColumnsAreLongestWalks(ids, g, positions) && ColumnsAreBarycentric(ids, g, positions)
    requires source in ids && Preds(g, source) == [] && n in ids && Stuck(g, n)
    ensures positions[source].0 == positions[n].0 == 0.0 && positions[source].1 < positions[n].1
  {
    if Stuck(g, source) { StuckHasPreds(g, source); }
    var k: nat :| LongestTo(g, source, k) && positions[source].0 == ColumnX(k);
    if k > 0 {
      var m := PredOneLess(g, source, k);
      PredsMembers(g, source, m);
    }
    assert positions[source] != positions[n];
    var ys := HeightsOf(positions);
    assert Priority(g, ys, source) == 0.0 && Priority(g, ys, n) == 0.5;
    assert InOrder(g, ys, n, source);
  }

  /** Every node is drawn strictly inside the unit interval. */
  lemma HeightsInside(ids: set<NodeId>, g: seq<Edge>, positions: Positions, n: NodeId)
    requires ColumnsAreBarycentric(ids, g, positions) && n in ids
    ensures 0.0 < positions[n].1 < 1.0
  {
    assert FillsSlot(positions, n);
    var i: nat :| i < |Column(positions, n)| && positions[n].1 == Slot(i, |Column(positions, n)|);
    SlotBounds(i, |Column(positions, n)|);
  }

  lemma PredsDrawn(ids: set<NodeId>, g: seq<Edge>, n: NodeId)
    requires forall e :: e in g ==> e.from in ids && e.to in ids
    ensures forall p :: p in Preds(g, n) <==> Edge(p, n) in g
    ensures forall p :: p in Preds(g, n) ==> p in ids
  {
    forall p ensures p in Preds(g, n) <==> Edge(p, n) in g {
      PredsMembers(g, n, p);
    }
    forall p | p in Preds(g, n) ensures p in ids {
      assert Edge(p, n).from in ids;
    }
  }

  /** Edges follow the order of their sources: if every predecessor of `m` is drawn lower than every
      predecessor of `n`, and both stand off the cycles in one column, then `m` is drawn lower than `n`. */
  lemma LowerPredsDrawnLower(ids: set<NodeId>, g: seq<Edge>, positions: Positions, m: NodeId, n: NodeId)
    requires ColumnsAreBarycentric(ids, g, positions) && forall e :: e in g ==> e.from in ids && e.to in ids
    requires m in ids && n in ids && positions[m].0 == positions[n].0 && !Stuck(g, m) && !Stuck(g, n)
    requires (exists p :: Edge(p, m) in g) && (exists q :: Edge(q, n) in g)
    requires forall p, q :: Edge(p, m) in g && Edge(q, n) in g ==> positions[p].1 < positions[q].1
    ensures positions[m].1 < positions[n].1
  {
    var ys, a, b := HeightsOf(positions), Preds(g, m), Preds(g, n);
    PredsDrawn(ids, g, m);
    PredsDrawn(ids, g, n);
    LowerMean(a, b, ys);
    var p :| Edge(p, m) in g;
    assert !(positions[p].1 < positions[p].1);
    assert m != n && positions[m] != positions[n];
    assert InOrder(g, ys, n, m);
  }

  /** The x-coordinate off the cycles is 1.2 times the number of edges of a longest walk. */
  lemma XIsLongestWalk(ids: set<NodeId>, g: seq<Edge>, positions: Positions, n: NodeId) returns (p: seq<NodeId>)
    requires ColumnsAreLongestWalks(ids, g, positions) && n in ids && !Stuck(g, n)
    ensures WalkTo(g, p, n) && positions[n].0 == 1.2 * (|p| - 1) as real
    ensures forall q :: WalkTo(g, q, n) ==> |q| <= |p|
  {
    var k: nat :| LongestTo(g, n, k) && positions[n].0 == ColumnX(k);
    p :| WalkTo(g, p, n) && |p| == k + 1;
  }

  function OddMultiple(i: nat, c: nat): real
    requires c > 0
  {
    (2 * i + 1) as real / (2 * c) as real
  }

  lemma SlotIsOddMultiple(i: nat, c: nat)
    requires i < c
    ensures Slot(i, c) == OddMultiple(i, c)
  {
    var s, m := Slot(i, c), c as real;
    assert s * m == i as real + 0.5;
    assert s * (2.0 * m) == (2 * i + 1) as real;
  }

  lemma {:induction false} HeightsCount(positions: Positions, nodes: set<NodeId>)
    requires nodes <= positions.Keys
    requires forall m, n :: m in nodes && n in nodes && m != n ==> positions[m].1 != positions[n].1
    ensures |set m | m in nodes :: positions[m].1| == |nodes|
  {
    var heights := set m | m in nodes :: positions[m].1;
    if nodes == {} {
      assert heights == {};
    } else {
      var n :| n in nodes;
      var rest := nodes - {n};
      HeightsCount(positions, rest);
      var lower := set m | m in rest :: positions[m].1;
      assert heights == lower + {positions[n].1};
    }
  }

  lemma {:induction false} SlotsCount(k: nat, c: nat)
    requires k <= c
    ensures |set i | 0 <= i < k :: OddMultiple(i, c)| <= k
  {
    var slots := set i | 0 <= i < k :: OddMultiple(i, c);
    if k == 0 {
      assert slots == {};
    } else {
      SlotsCount(k - 1, c);
      var fewer := set i | 0 <= i < k - 1 :: OddMultiple(i, c);
      assert slots == fewer + {OddMultiple(k - 1, c)};
    }
  }

  lemma SubsetSame(a: set<real>, b: set<real>)
    requires a <= b && |a| >= |b|
    ensures a == b
  {
    if exists x :: x in b && x !in a {
      var x :| x in b && x !in a;
      SubsetSize(a, b - {x});
    }
  }

  /** A column of `c` nodes is spread evenly over the unit interval: its heights are the odd multiples of
      1/(2c), each taken once. */
  lemma ColumnSpreadsEvenly(ids: set<NodeId>, g: seq<Edge>, positions: Positions, n: NodeId)
    requires ColumnsAreBarycentric(ids, g, positions) && n in ids
    ensures var c := |Column(positions, n)|;
            (set m | m in Column(positions, n) :: positions[m].1)
            == set i | 0 <= i < c :: OddMultiple(i, c)
  {
    var column := Column(positions, n);
    var c := |column|;
    var heights := set m | m in column :: positions[m].1;
    var slots := set i | 0 <= i < c :: OddMultiple(i, c);
    forall m | m in column ensures positions[m].1 in slots {
      assert FillsSlot(positions, m);
      assert Column(positions, m) == column;
      var i: nat :| i < c && positions[m].1 == Slot(i, c);
      SlotIsOddMultiple(i, c);
    }
    HeightsCount(positions, column);
    SlotsCount(c, c);
    SubsetSame(heights, slots);
  }
}
