/** Per-route traffic statistics of the dashboard: the timeline's moving average (rounded on output only)
    and the statistics table's (rounded at every step), both one loop over an interleaved stream. */
module TrafficStats {
  import opened Sequences
  import opened FirstSeen
  import opened Rounding

  datatype Entry = Entry(route: string, success: bool, ms: int)

  datatype Row = Row(route: string, total: int, success: int, failure: int, ewma: real)

  /** `round(x, 2)`. */
  function Round2(x: real): real {
    RoundTo(x, 100)
  }

  /** `alpha * ms + (1 - alpha) * previous` with alpha 0.1. */
  function Blend(ms: int, previous: real): real {
    0.1 * ms as real + 0.9 * previous
  }

  /** The moving average of a latency sequence, kept in full precision. */
  function Exact(ms: seq<int>): real
    requires ms != []
  {
    if |ms| == 1 then ms[0] as real else Blend(ms[|ms| - 1], Exact(ms[..|ms| - 1]))
  }

  /** The moving average with a rounding after every step but the first. */
  function Stepwise(ms: seq<int>): real
    requires ms != []
  {
    if |ms| == 1 then ms[0] as real else Round2(Blend(ms[|ms| - 1], Stepwise(ms[..|ms| - 1])))
  }

  // ----- one route of a stream -----------------------------------------------------------------

  /** The entries of one route, in order. */
  function Only(entries: seq<Entry>, route: string): seq<Entry> {
    if entries == [] then []
    else
      var e := entries[|entries| - 1];
      Only(entries[..|entries| - 1], route) + if e.route == route then [e] else []
  }

  function Latencies(entries: seq<Entry>): seq<int> {
    seq(|entries|, i requires 0 <= i < |entries| => entries[i].ms)
  }

  function Routes(entries: seq<Entry>): seq<string> {
    seq(|entries|, i requires 0 <= i < |entries| => entries[i].route)
  }

  function Successes(entries: seq<Entry>): nat {
    if entries == [] then 0
    else Successes(entries[..|entries| - 1]) + if entries[|entries| - 1].success then 1 else 0
  }

  /** The table row of one route, from that route's own entries alone. */
  function RowOf(own: seq<Entry>): Row
    requires own != []
  {
    Row(own[0].route, |own|, Successes(own), |own| - Successes(own), Stepwise(Latencies(own)))
  }

  lemma OnlyAppend(entries: seq<Entry>, e: Entry, route: string)
    ensures Only(entries + [e], route) == if e.route == route then Only(entries, route) + [e] else Only(entries, route)
  {
    assert (entries + [e])[..|entries|] == entries;
  }

  lemma RoutesAppend(entries: seq<Entry>, e: Entry)
    ensures Routes(entries + [e]) == Routes(entries) + [e.route]
  {
  }

  lemma {:induction false} OnlyIfListed(entries: seq<Entry>, route: string)
    ensures Only(entries, route) != [] <==> route in Routes(entries)
  {
    if entries != [] {
      var init, e := entries[..|entries| - 1], entries[|entries| - 1];
      OnlyIfListed(init, route);
      assert entries == init + [e];
      RoutesAppend(init, e);
    }
  }

  lemma {:induction false} OnlyOfRoute(entries: seq<Entry>, route: string, i: nat)
    requires i < |Only(entries, route)|
    ensures Only(entries, route)[i].route == route
  {
    var init := entries[..|entries| - 1];
    if i < |Only(init, route)| { OnlyOfRoute(init, route, i); }
  }

  // ----- the timeline --------------------------------------------------------------------------

  lemma EwmaStep(own: seq<Entry>, e: Entry)
    ensures Exact(Latencies(own + [e])) == if own == [] then e.ms as real else Blend(e.ms, Exact(Latencies(own)))
    ensures Stepwise(Latencies(own + [e]))
            == if own == [] then e.ms as real else Round2(Blend(e.ms, Stepwise(Latencies(own))))
    ensures Successes(own + [e]) == Successes(own) + if e.success then 1 else 0
  {
    assert Latencies(own + [e]) == Latencies(own) + [e.ms];
    assert Latencies(own + [e])[..|own|] == Latencies(own);
    assert (own + [e])[..|own|] == own;
  }

  /** Each route seen so far is on the average of its own latencies. */
  ghost predicate Averages(averages: map<string, real>, seen: seq<Entry>) {
    forall r :: && (r in averages <==> Only(seen, r) != [])
                && (r in averages ==> averages[r] == Exact(Latencies(Only(seen, r))))
  }

  lemma AveragesStep(averages: map<string, real>, seen: seq<Entry>, e: Entry)
    requires Averages(averages, seen)
    ensures Averages(averages[e.route := if e.route in averages then Blend(e.ms, averages[e.route]) else e.ms as real],
                     seen + [e])
  {
    EwmaStep(Only(seen, e.route), e);
    forall r { OnlyAppend(seen, e, r); }
  }

  /** The value drawn beside entry `i`: the average of its route's latencies up to that entry. */
  function Shown(entries: seq<Entry>, i: nat): real
    requires i < |entries|
  {
    var own := Only(entries[..i + 1], entries[i].route);
    if own == [] then 0.0 else Round2(Exact(Latencies(own)))
  }

  lemma ShownFromAverages(entries: seq<Entry>, i: nat, averages: map<string, real>)
    requires i < |entries| && Averages(averages, entries[..i + 1]) && entries[i].route in averages
    ensures Shown(entries, i) == Round2(averages[entries[i].route])
  {
  }

  /** `_build_ewma`: the moving average to show beside each entry. */
  method BuildEwma(entries: seq<Entry>) returns (result: seq<real>)
    ensures |result| == |entries| && forall i :: 0 <= i < |entries| ==> result[i] == Shown(entries, i)
  {
    var ewmaByRoute: map<string, real> := map[];
    result := [];
    for i := 0 to |entries|
      invariant |result| == i && Averages(ewmaByRoute, entries[..i])
      invariant forall j :: 0 <= j < i ==> result[j] == Shown(entries, j)
    {
      var e := entries[i];
      AveragesStep(ewmaByRoute, entries[..i], e);
      assert entries[..i + 1] == entries[..i] + [e];
      if e.route !in ewmaByRoute {
        ewmaByRoute := ewmaByRoute[e.route := e.ms as real];
      } else {
        ewmaByRoute := ewmaByRoute[e.route := 0.1 * e.ms as real + 0.9 * ewmaByRoute[e.route]];
      }
      ShownFromAverages(entries, i, ewmaByRoute);
      result := result + [Round2(ewmaByRoute[e.route])];
    }
  }

  // ----- the statistics table ------------------------------------------------------------------

  /** Each route seen so far has the row of its own entries. */
  ghost predicate Tabulates(stats: map<string, Row>, seen: seq<Entry>) {
    forall r :: && (r in stats <==> Only(seen, r) != [])
                && (r in stats ==> stats[r] == RowOf(Only(seen, r)))
  }

  function RowFor(stats: map<string, Row>, route: string): Row {
    if route in stats then stats[route] else Row(route, 0, 0, 0, 0.0)
  }

  function UpdatedRow(row: Row, e: Entry): Row {
    Row(row.route, row.total + 1,
        row.success + (if e.success then 1 else 0),
        row.failure + (if e.success then 0 else 1),
        if row.total == 0 then e.ms as real else Round2(Blend(e.ms, row.ewma)))
  }

  /** One entry's effect on the row of its route. */
  method UpdateRow(row: Row, e: Entry) returns (s: Row)
    ensures s == UpdatedRow(row, e)
  {
    s := row.(total := row.total + 1);
    if e.success {
      s := s.(success := s.success + 1);
    } else {
      s := s.(failure := s.failure + 1);
    }
    var ms := e.ms as real;
    if s.total == 1 {
      s := s.(ewma := ms);
    } else {
      s := s.(ewma := Round2(0.1 * ms + 0.9 * s.ewma));
    }
  }

  lemma RowStep(own: seq<Entry>, e: Entry)
    requires own != [] ==> own[0].route == e.route
    ensures RowOf(own + [e]) == UpdatedRow(if own == [] then Row(e.route, 0, 0, 0, 0.0) else RowOf(own), e)
  {
    EwmaStep(own, e);
  }

  lemma TabulatesStep(stats: map<string, Row>, seen: seq<Entry>, e: Entry)
    requires Tabulates(stats, seen)
    ensures Tabulates(stats[e.route := UpdatedRow(RowFor(stats, e.route), e)], seen + [e])
  {
    var stats' := stats[e.route := UpdatedRow(RowFor(stats, e.route), e)];
    if Only(seen, e.route) != [] { OnlyOfRoute(seen, e.route, 0); }
    RowStep(Only(seen, e.route), e);
    forall r
      ensures r in stats' <==> Only(seen + [e], r) != []
      ensures r in stats' ==> stats'[r] == RowOf(Only(seen + [e], r))
    {
      OnlyAppend(seen, e, r);
      assert r in stats <==> Only(seen, r) != [];
    }
  }

  lemma RoutesStep(seen: seq<Entry>, e: Entry)
    ensures Dedup(Routes(seen + [e])) == if Only(seen, e.route) == [] then Dedup(Routes(seen)) + [e.route]
                                         else Dedup(Routes(seen))
  {
    OnlyIfListed(seen, e.route);
    RoutesAppend(seen, e);
    AppendOne(Routes(seen), e.route);
  }

  /** The rows as a list, in order of first appearance. */
  ghost predicate IsTable(rows: seq<Row>, entries: seq<Entry>) {
    var routes := Dedup(Routes(entries));
    && |rows| == |routes|
    && forall j :: 0 <= j < |rows| ==> Only(entries, routes[j]) != [] && rows[j] == RowOf(Only(entries, routes[j]))
  }

  method ListRows(stats: map<string, Row>, order: seq<string>, ghost entries: seq<Entry>) returns (rows: seq<Row>)
    requires Tabulates(stats, entries) && order == Dedup(Routes(entries))
    ensures IsTable(rows, entries)
  {
    forall j | 0 <= j < |order| ensures order[j] in stats {
      DedupMembers(Routes(entries));
      OnlyIfListed(entries, order[j]);
    }
    rows := seq(|order|, j requires 0 <= j < |order| && order[j] in stats => stats[order[j]]);
  }

  /** `_compute_stats`: one row per route, in order of first appearance, each computed from that route's
      own entries however the stream interleaves them. */
  method ComputeStats(entries: seq<Entry>) returns (rows: seq<Row>)
    ensures IsTable(rows, entries)
  {
    var stats: map<string, Row> := map[];
    var order: seq<string> := [];
    assert Routes([]) == [];
    for i := 0 to |entries|
      invariant Tabulates(stats, entries[..i]) && order == Dedup(Routes(entries[..i]))
    {
      var e := entries[i];
      assert entries[..i + 1] == entries[..i] + [e];
      TabulatesStep(stats, entries[..i], e);
      RoutesStep(entries[..i], e);
      if e.route !in stats {
        order := order + [e.route];
      }
      var s := UpdateRow(RowFor(stats, e.route), e);
      stats := stats[e.route := s];
    }
    assert entries[..|entries|] == entries;
    rows := ListRows(stats, order, entries);
  }

  // ----- consequences --------------------------------------------------------------------------

  lemma {:induction false} OnlyTwice(entries: seq<Entry>, route: string)
    ensures Only(Only(entries, route), route) == Only(entries, route)
  {
    if entries != [] {
      var init, e := entries[..|entries| - 1], entries[|entries| - 1];
      OnlyTwice(init, route);
      OnlyAppend(Only(init, route), e, route);
    }
  }

  lemma {:induction false} DedupConstant(s: seq<string>, x: string)
    requires s != [] && forall i :: 0 <= i < |s| ==> s[i] == x
    ensures Dedup(s) == [x]
  {
    if |s| > 1 {
      DedupConstant(s[..|s| - 1], x);
    } else {
      assert Dedup(s[..0]) == [];
    }
  }

  /** Routes do not influence each other: the table of the whole stream has, for a route, exactly the row
      that makes up the table of that route's traffic alone. */
  lemma RouteIndependent(entries: seq<Entry>, rows: seq<Row>, route: string, alone: seq<Row>)
    requires IsTable(rows, entries) && route in Routes(entries) && IsTable(alone, Only(entries, route))
    ensures |alone| == 1 && alone[0] in rows && alone[0].route == route
  {
    var own := Only(entries, route);
    OnlyIfListed(entries, route);
    forall i | 0 <= i < |own| ensures own[i].route == route { OnlyOfRoute(entries, route, i); }
    OnlyTwice(entries, route);
    DedupConstant(Routes(own), route);
    DedupMembers(Routes(entries));
    var j :| 0 <= j < |rows| && Dedup(Routes(entries))[j] == route;
    assert rows[j] == RowOf(own) == alone[0];
  }

  function Total(entries: seq<Entry>, routes: seq<string>): nat {
    if routes == [] then 0
    else Total(entries, routes[..|routes| - 1]) + |Only(entries, routes[|routes| - 1])|
  }

  lemma {:induction false} TotalAppend(entries: seq<Entry>, e: Entry, routes: seq<string>)
    requires Distinct(routes)
    ensures Total(entries + [e], routes) == Total(entries, routes) + if e.route in routes then 1 else 0
  {
    if routes != [] {
      var init, r := routes[..|routes| - 1], routes[|routes| - 1];
      TotalAppend(entries, e, init);
      OnlyAppend(entries, e, r);
      assert routes == init + [r];
    }
  }

  lemma {:induction false} RouteTotals(entries: seq<Entry>)
    ensures Total(entries, Dedup(Routes(entries))) == |entries|
  {
    if entries == [] {
      assert Routes(entries) == [];
    } else {
      var init, e := entries[..|entries| - 1], entries[|entries| - 1];
      RouteTotals(init);
      assert entries == init + [e];
      assert Routes(entries) == Routes(init) + [e.route];
      AppendOne(Routes(init), e.route);
      DedupMembers(Routes(init));
      var routes := Dedup(Routes(init));
      TotalAppend(init, e, routes);
      if e.route !in routes {
        OnlyIfListed(init, e.route);
        OnlyAppend(init, e, e.route);
        assert (routes + [e.route])[..|routes|] == routes;
      }
    }
  }

  /** The sum of the `total` fields. */
  function SumOfTotals(rows: seq<Row>): int {
    if rows == [] then 0 else SumOfTotals(rows[..|rows| - 1]) + rows[|rows| - 1].total
  }

  lemma {:induction false} SumIsTotal(rows: seq<Row>, entries: seq<Entry>, routes: seq<string>)
    requires |rows| == |routes|
    requires forall j :: 0 <= j < |rows| ==> rows[j].total == |Only(entries, routes[j])|
    ensures SumOfTotals(rows) == Total(entries, routes)
  {
    if rows != [] { SumIsTotal(rows[..|rows| - 1], entries, routes[..|routes| - 1]); }
  }

  /** The totals of all rows add up to the length of the stream. */
  lemma TotalsAddUp(rows: seq<Row>, entries: seq<Entry>)
    requires IsTable(rows, entries)
    ensures SumOfTotals(rows) == |entries|
  {
    SumIsTotal(rows, entries, Dedup(Routes(entries)));
    RouteTotals(entries);
  }

  lemma {:induction false} SuccessesBounded(own: seq<Entry>)
    ensures Successes(own) <= |own|
  {
    if own != [] { SuccessesBounded(own[..|own| - 1]); }
  }

  /** In every row successes and failures add up to a positive total, and neither is negative. */
  lemma RowsBalance(rows: seq<Row>, entries: seq<Entry>)
    requires IsTable(rows, entries)
    ensures forall row :: row in rows ==>
              row.success + row.failure == row.total > 0 && row.success >= 0 && row.failure >= 0
  {
    forall j | 0 <= j < |rows| ensures rows[j].failure >= 0 && rows[j].success + rows[j].failure == rows[j].total > 0 {
      SuccessesBounded(Only(entries, Dedup(Routes(entries))[j]));
    }
  }

  /** The positions of a route's entries with the given outcome. */
  function PositionsOf(entries: seq<Entry>, route: string, success: bool): set<int> {
    set i | 0 <= i < |entries| && entries[i].route == route && entries[i].success == success
  }

  lemma SameButLast(entries: seq<Entry>, route: string, success: bool)
    requires entries != []
    ensures var init, e := entries[..|entries| - 1], entries[|entries| - 1];
            PositionsOf(entries, route, success)
            == PositionsOf(init, route, success)
               + if e.route == route && e.success == success then {|init|} else {}
  {
    var init := entries[..|entries| - 1];
    assert forall i :: 0 <= i < |init| ==> init[i] == entries[i];
  }

  lemma PositionsStep(entries: seq<Entry>, route: string, success: bool)
    requires entries != []
    ensures var init, e := entries[..|entries| - 1], entries[|entries| - 1];
            |PositionsOf(entries, route, success)|
            == |PositionsOf(init, route, success)| + if e.route == route && e.success == success then 1 else 0
  {
    var before := PositionsOf(entries[..|entries| - 1], route, success);
    SameButLast(entries, route, success);
    assert |entries| - 1 !in before;
    assert before + {} == before;
  }

  lemma OutcomeStep(entries: seq<Entry>, route: string)
    requires entries != []
    ensures var init, e := entries[..|entries| - 1], entries[|entries| - 1];
            && |Only(entries, route)| == |Only(init, route)| + (if e.route == route then 1 else 0)
            && Successes(Only(entries, route))
               == Successes(Only(init, route)) + (if e.route == route && e.success then 1 else 0)
  {
    var init, e := entries[..|entries| - 1], entries[|entries| - 1];
    assert entries == init + [e];
    OnlyAppend(init, e, route);
    EwmaStep(Only(init, route), e);
  }

  lemma {:induction false} OutcomesCounted(entries: seq<Entry>, route: string)
    ensures Successes(Only(entries, route)) == |PositionsOf(entries, route, true)|
    ensures |Only(entries, route)| == |PositionsOf(entries, route, true)| + |PositionsOf(entries, route, false)|
  {
    if entries == [] {
      assert PositionsOf(entries, route, true) == {} && PositionsOf(entries, route, false) == {};
    } else {
      OutcomesCounted(entries[..|entries| - 1], route);
      PositionsStep(entries, route, true);
      PositionsStep(entries, route, false);
      OutcomeStep(entries, route);
    }
  }

  /** The counts of a row in the entries of the stream: successes and failures of its route. */
  lemma RowCounts(rows: seq<Row>, entries: seq<Entry>, j: nat)
    requires IsTable(rows, entries) && j < |rows|
    ensures rows[j].success == |PositionsOf(entries, rows[j].route, true)|
    ensures rows[j].failure == |PositionsOf(entries, rows[j].route, false)|
    ensures rows[j].total == rows[j].success + rows[j].failure
  {
    var r := Dedup(Routes(entries))[j];
    OnlyOfRoute(entries, r, 0);
    OutcomesCounted(entries, r);
  }

  /** The rows stand in the order in which their routes first appear. */
  lemma RowsInOrder(rows: seq<Row>, entries: seq<Entry>, a: nat, b: nat, i: nat, j: nat)
    requires IsTable(rows, entries) && a < b < |rows|
    requires i < |entries| && entries[i].route == rows[a].route
             && forall k :: 0 <= k < i ==> entries[k].route != rows[a].route
    requires j < |entries| && entries[j].route == rows[b].route
             && forall k :: 0 <= k < j ==> entries[k].route != rows[b].route
    ensures i < j
  {
    OnlyOfRoute(entries, Dedup(Routes(entries))[a], 0);
    OnlyOfRoute(entries, Dedup(Routes(entries))[b], 0);
    DedupInOrder(Routes(entries), a, b, i, j);
  }

  // ----- the average in closed form ------------------------------------------------------------

  /** 0.9 to the `k`. */
  function Decay(k: nat): real {
    if k == 0 then 1.0 else 0.9 * Decay(k - 1)
  }

  /** The weight of entry `i` of `n`: the first one starts the average, each later one enters with 0.1, and
      every further entry shrinks what was there by 0.9. */
  function WeightOf(i: nat, n: nat): real
    requires i < n
  {
    if i == 0 then Decay(n - 1) else 0.1 * Decay(n - 1 - i)
  }

  /** What entry `i` contributes. */
  function Share(ms: seq<int>, i: nat): real
    requires i < |ms|
  {
    WeightOf(i, |ms|) * ms[i] as real
  }

  /** The weighted sum of the first `k` latencies. */
  function WeightedSum(ms: seq<int>, k: nat): real
    requires k <= |ms|
  {
    if k == 0 then 0.0 else WeightedSum(ms, k - 1) + Share(ms, k - 1)
  }

  lemma ShareShrinks(ms: seq<int>, m: int, i: nat)
    requires i < |ms|
    ensures Share(ms + [m], i) == 0.9 * Share(ms, i)
  {
    var w, x := WeightOf(i, |ms|), ms[i] as real;
    assert WeightOf(i, |ms| + 1) == 0.9 * w;
    assert (0.9 * w) * x == 0.9 * (w * x);
  }

  lemma {:induction false} WeightedShrinks(ms: seq<int>, m: int, k: nat)
    requires k <= |ms|
    ensures WeightedSum(ms + [m], k) == 0.9 * WeightedSum(ms, k)
  {
    if k > 0 {
      WeightedShrinks(ms, m, k - 1);
      ShareShrinks(ms, m, k - 1);
    }
  }

  /** The unrounded average is the sum of the latencies, the latest weighing 0.1, the one before it 0.09, and
      so on, and the first one all that is left. */
  lemma {:induction false} ExactIsWeightedSum(ms: seq<int>)
    requires ms != []
    ensures Exact(ms) == WeightedSum(ms, |ms|)
  {
    if |ms| == 1 {
      assert WeightedSum(ms, 0) == 0.0;
    } else {
      var init, m := ms[..|ms| - 1], ms[|ms| - 1];
      ExactIsWeightedSum(init);
      WeightedShrinks(init, m, |init|);
      assert ms == init + [m];
    }
  }

  function WeightSum(n: nat, k: nat): real
    requires k <= n
  {
    if k == 0 then 0.0 else WeightSum(n, k - 1) + WeightOf(k - 1, n)
  }

  lemma {:induction false} WeightsUpTo(n: nat, k: nat)
    requires 0 < k <= n
    ensures WeightSum(n, k) == Decay(n - k)
  {
    if k > 1 {
      WeightsUpTo(n, k - 1);
    } else {
      assert WeightSum(n, 0) == 0.0;
    }
  }

  /** The weights add up to 1. */
  lemma WeightsAddUp(n: nat)
    requires n > 0
    ensures WeightSum(n, n) == 1.0
  {
    WeightsUpTo(n, n);
  }

  // ----- the two averages ----------------------------------------------------------------------

  lemma Round2Near(x: real)
    ensures -0.005 <= Round2(x) - x <= 0.005
  {
    HalfEvenNear(x * 100.0);
  }

  lemma Round2Monotone(x: real, y: real)
    requires x <= y
    ensures Round2(x) <= Round2(y)
  {
    HalfEvenMonotone(x * 100.0, y * 100.0);
  }

  lemma Round2Integer(n: int)
    ensures Round2(n as real) == n as real
  {
    HalfEvenInteger(n * 100);
    assert n as real * 100.0 == (n * 100) as real;
  }

  /** The stepwise-rounded average never leaves the range of the route's latencies. */
  lemma {:induction false} StepwiseInRange(ms: seq<int>, low: int, high: int)
    requires ms != [] && forall i :: 0 <= i < |ms| ==> low <= ms[i] <= high
    ensures low as real <= Stepwise(ms) <= high as real
  {
    if |ms| > 1 {
      var init, m := ms[..|ms| - 1], ms[|ms| - 1];
      StepwiseInRange(init, low, high);
      var blend := Blend(m, Stepwise(init));
      assert low as real <= blend <= high as real;
      Round2Monotone(low as real, blend);
      Round2Monotone(blend, high as real);
      Round2Integer(low);
      Round2Integer(high);
    }
  }

  /** The accumulated rounding error stays below 0.05 after any number of requests. */
  lemma {:induction false} StepwiseNearExact(ms: seq<int>)
    requires ms != []
    ensures -0.05 < Stepwise(ms) - Exact(ms) < 0.05
  {
    if |ms| > 1 {
      var init, m := ms[..|ms| - 1], ms[|ms| - 1];
      StepwiseNearExact(init);
      Round2Near(Blend(m, Stepwise(init)));
    }
  }

  /** A whole number of hundredths. */
  function Hundredths(ms: seq<int>): (k: int)
    requires ms != []
    ensures Stepwise(ms) == k as real / 100.0
  {
    if |ms| == 1 then 100 * ms[0] else RoundHalfEven(Blend(ms[|ms| - 1], Stepwise(ms[..|ms| - 1])) * 100.0)
  }

  /** The number the timeline shows and the number in the table differ by at most 0.05: both are whole
      hundredths, and the errors of the two routes add up to less than 0.055. */
  lemma TwoAveragesAgree(ms: seq<int>)
    requires ms != []
    ensures -0.05 <= Round2(Exact(ms)) - Stepwise(ms) <= 0.05
  {
    StepwiseNearExact(ms);
    Round2Near(Exact(ms));
    var j, k := RoundHalfEven(Exact(ms) * 100.0), Hundredths(ms);
    var d := j - k;
    assert Round2(Exact(ms)) - Stepwise(ms) == d as real / 100.0;
    assert -5.5 < d as real < 5.5;
    assert -5 <= d <= 5;
  }

  lemma {:induction false} OnlyDone(entries: seq<Entry>, n: nat, route: string)
    requires n <= |entries| && forall j :: n <= j < |entries| ==> entries[j].route != route
    ensures Only(entries, route) == Only(entries[..n], route)
  {
    if n < |entries| {
      OnlyDone(entries[..|entries| - 1], n, route);
      assert entries[..|entries| - 1][..n] == entries[..n];
    } else {
      assert entries[..n] == entries;
    }
  }

  /** For every stream and every route: the last value the timeline shows for the route and the value in
      its row of the table differ by at most 0.05. */
  lemma TimelineMatchesTable(entries: seq<Entry>, i: nat, rows: seq<Row>, k: nat)
    requires i < |entries| && forall j :: i < j < |entries| ==> entries[j].route != entries[i].route
    requires IsTable(rows, entries) && k < |rows| && rows[k].route == entries[i].route
    ensures -0.05 <= Shown(entries, i) - rows[k].ewma <= 0.05
  {
    var r := Dedup(Routes(entries))[k];
    OnlyOfRoute(entries, r, 0);
    assert rows[k] == RowOf(Only(entries, r)) && r == entries[i].route;
    OnlyDone(entries, i + 1, r);
    TwoAveragesAgree(Latencies(Only(entries, r)));
  }
}
