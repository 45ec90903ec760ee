/** Moments when stored knowledge was recalled: the scatter of `wm_reuse_events` (first sighting per
    fingerprint, a point per later one) and the dashboard's recall count. */
module ReuseEvents {
  import opened FirstSeen
  import opened Options
  import opened Sequences

  datatype Entry = Entry(timestamp: int, fingerprint: Option<int>, domain: string)

  datatype Point = Point(timestamp: int, domain: string, delay: int)

  function Fingerprints(entries: seq<Entry>): seq<int> {
    if entries == [] then []
    else
      var e := entries[|entries| - 1];
      Fingerprints(entries[..|entries| - 1]) + if e.fingerprint.Some? then [e.fingerprint.value] else []
  }

  function TimeKey(): Entry -> real {
    (e: Entry) => e.timestamp as real
  }

  // ----- the chart -----------------------------------------------------------------------------

  /** `fp_first_seen`: the time of the first entry with each fingerprint. */
  function FirstTimes(entries: seq<Entry>): map<int, int> {
    if entries == [] then map[]
    else
      var first, e := FirstTimes(entries[..|entries| - 1]), entries[|entries| - 1];
      if e.fingerprint.Some? && e.fingerprint.value !in first then first[e.fingerprint.value := e.timestamp] else first
  }

  /** One point for each entry whose fingerprint occurred before, with the time since its first sighting. */
  function Points(entries: seq<Entry>): seq<Point> {
    if entries == [] then []
    else
      var init, e := entries[..|entries| - 1], entries[|entries| - 1];
      Points(init) +
      if e.fingerprint.Some? && e.fingerprint.value in FirstTimes(init)
      then [Point(e.timestamp, e.domain, e.timestamp - FirstTimes(init)[e.fingerprint.value])]
      else []
  }

  ghost predicate NoneBefore(entries: seq<Entry>, n: nat, fp: int)
    requires n <= |entries|
  {
    forall j :: 0 <= j < n ==> entries[j].fingerprint != Some(fp)
  }

  ghost predicate FirstSightingAt(entries: seq<Entry>, i: nat, fp: int) {
    i < |entries| && entries[i].fingerprint == Some(fp) && NoneBefore(entries, i, fp)
  }

  lemma {:induction false} AbsentIsUnseen(entries: seq<Entry>, fp: int)
    requires fp !in FirstTimes(entries)
    ensures NoneBefore(entries, |entries|, fp)
  {
    if entries != [] {
      var init := entries[..|entries| - 1];
      AbsentIsUnseen(init, fp);
      forall j | 0 <= j < |entries| ensures entries[j].fingerprint != Some(fp) {
        if j < |init| { assert entries[j] == init[j]; }
      }
    }
  }

  /** The table holds the time of the first entry with the fingerprint. */
  lemma {:induction false} FirstSighting(entries: seq<Entry>, fp: int) returns (i: nat)
    requires fp in FirstTimes(entries)
    ensures FirstSightingAt(entries, i, fp) && entries[i].timestamp == FirstTimes(entries)[fp]
  {
    var init := entries[..|entries| - 1];
    if fp in FirstTimes(init) {
      i := FirstSighting(init, fp);
      assert entries[i] == init[i];
      forall j | 0 <= j < i ensures entries[j].fingerprint != Some(fp) { assert entries[j] == init[j]; }
    } else {
      i := |init|;
      AbsentIsUnseen(init, fp);
      forall j | 0 <= j < i ensures entries[j].fingerprint != Some(fp) { assert entries[j] == init[j]; }
    }
  }

  lemma {:induction false} InTableIffOccurs(entries: seq<Entry>, fp: int)
    ensures fp in FirstTimes(entries) <==> fp in Fingerprints(entries)
  {
    if entries != [] { InTableIffOccurs(entries[..|entries| - 1], fp); }
  }

  /** What the first-seen table holds: for every fingerprint that occurs, the time of its first entry. */
  lemma FirstTimesMeaning(entries: seq<Entry>, fp: int)
    ensures fp in FirstTimes(entries) <==> fp in Fingerprints(entries)
    ensures fp in FirstTimes(entries) ==>
              exists i: nat :: FirstSightingAt(entries, i, fp) && entries[i].timestamp == FirstTimes(entries)[fp]
    ensures fp !in FirstTimes(entries) ==> NoneBefore(entries, |entries|, fp)
  {
    InTableIffOccurs(entries, fp);
    if fp in FirstTimes(entries) {
      var i := FirstSighting(entries, fp);
    } else {
      AbsentIsUnseen(entries, fp);
    }
  }

  lemma FirstTimeIsPast(ordered: seq<Entry>, i: nat, fp: int)
    requires OrderedBy(ordered, TimeKey()) && i < |ordered| && fp in FirstTimes(ordered[..i])
    ensures FirstTimes(ordered[..i])[fp] <= ordered[i].timestamp
  {
    var k := FirstSighting(ordered[..i], fp);
    assert TimeKey()(ordered[k]) <= TimeKey()(ordered[i]);
  }

  lemma TableMore(entries: seq<Entry>, e: Entry)
    ensures FirstTimes(entries + [e])
            == if e.fingerprint.Some? && e.fingerprint.value !in FirstTimes(entries)
               then FirstTimes(entries)[e.fingerprint.value := e.timestamp] else FirstTimes(entries)
  {
    assert (entries + [e])[..|entries|] == entries;
  }

  lemma PointsMore(entries: seq<Entry>, e: Entry)
    ensures Points(entries + [e])
            == if e.fingerprint.Some? && e.fingerprint.value in FirstTimes(entries)
               then Points(entries)
                    + [Point(e.timestamp, e.domain, e.timestamp - FirstTimes(entries)[e.fingerprint.value])]
               else Points(entries)
  {
    var longer := entries + [e];
    assert longer[..|longer| - 1] == entries && longer[|longer| - 1] == e;
    assert Points(entries) + [] == Points(entries);
  }

  ghost predicate NoneNegative(points: seq<Point>) {
    forall i :: 0 <= i < |points| ==> points[i].delay >= 0
  }

  /** The turn of the loop for one entry, which is no earlier than the first sighting of its fingerprint. */
  method AddEntry(ghost seen: seq<Entry>, e: Entry, first: map<int, int>, points: seq<Point>)
    returns (first': map<int, int>, points': seq<Point>)
    requires first == FirstTimes(seen) && points == Points(seen) && NoneNegative(points)
    requires e.fingerprint.Some? && e.fingerprint.value in first ==> first[e.fingerprint.value] <= e.timestamp
    ensures first' == FirstTimes(seen + [e]) && points' == Points(seen + [e]) && NoneNegative(points')
  {
    first', points' := first, points;
    TableMore(seen, e);
    PointsMore(seen, e);
    if e.fingerprint.Some? {
      var fp := e.fingerprint.value;
      if fp !in first {
        first' := first[fp := e.timestamp];
      } else {
        var waited := e.timestamp - first[fp];
        points' := points + [Point(e.timestamp, e.domain, if waited > 0 then waited else 0)];
      }
    }
  }

  method CollectPoints(ordered: seq<Entry>) returns (points: seq<Point>)
    requires OrderedBy(ordered, TimeKey())
    ensures points == Points(ordered) && NoneNegative(points)
  {
    var first: map<int, int> := map[];
    points := [];
    for i := 0 to |ordered|
      invariant first == FirstTimes(ordered[..i]) && points == Points(ordered[..i]) && NoneNegative(points)
    {
      var e := ordered[i];
      if e.fingerprint.Some? && e.fingerprint.value in first {
        FirstTimeIsPast(ordered, i, e.fingerprint.value);
      }
      first, points := AddEntry(ordered[..i], e, first, points);
      assert ordered[..i + 1] == ordered[..i] + [e];
    }
    assert ordered[..|ordered|] == ordered;
  }

  /** `wm_reuse_events`: sort by time, then one pass.  The clamp `max(0, ...)` on the delay changes
      nothing, because the entries are in time order. */
  method WmReuseEvents(entries: seq<Entry>) returns (points: seq<Point>)
    ensures points == Points(SortBy(entries, TimeKey()))
    ensures NoneNegative(points)
  {
    var ordered := SortBy(entries, TimeKey());
    SortByCorrect(entries, TimeKey());
    points := CollectPoints(ordered);
  }

  lemma {:induction false} PointsAreRepeats(entries: seq<Entry>)
    ensures |Points(entries)| == Repeats(Fingerprints(entries))
  {
    if entries != [] {
      var init, e := entries[..|entries| - 1], entries[|entries| - 1];
      PointsAreRepeats(init);
      if e.fingerprint.Some? {
        InTableIffOccurs(init, e.fingerprint.value);
        AppendOne(Fingerprints(init), e.fingerprint.value);
      } else {
        assert Fingerprints(entries) == Fingerprints(init);
      }
    }
  }

  lemma {:induction false} PointsGrow(entries: seq<Entry>, n: nat)
    requires n <= |entries|
    ensures Points(entries[..n]) <= Points(entries)
  {
    if n < |entries| {
      PointsGrow(entries[..|entries| - 1], n);
      assert entries[..|entries| - 1][..n] == entries[..n];
    } else {
      assert entries[..n] == entries;
    }
  }

  lemma SeenInTable(seen: seq<Entry>, k: nat, fp: int)
    requires FirstSightingAt(seen, k, fp)
    ensures fp in FirstTimes(seen) && FirstTimes(seen)[fp] == seen[k].timestamp
  {
    if fp !in FirstTimes(seen) { AbsentIsUnseen(seen, fp); }
    var i := FirstSighting(seen, fp);
    assert seen[k].fingerprint == seen[i].fingerprint == Some(fp);
    assert i == k;
  }

  /** Each later sighting `i` of a fingerprint is drawn, after the points of the entries before it: at its own
      time and domain, with the time since the first sighting `k`. */
  lemma PointOfSighting(entries: seq<Entry>, i: nat, k: nat, fp: int)
    requires k < i < |entries| && entries[i].fingerprint == Some(fp) && FirstSightingAt(entries, k, fp)
    ensures var at := |Points(entries[..i])|;
            && at < |Points(entries)|
            && Points(entries)[at]
               == Point(entries[i].timestamp, entries[i].domain, entries[i].timestamp - entries[k].timestamp)
  {
    var seen := entries[..i];
    assert entries[..i + 1] == seen + [entries[i]];
    SeenInTable(seen, k, fp);
    PointsMore(seen, entries[i]);
    PointsGrow(entries, i + 1);
  }

  // ----- the recall count ----------------------------------------------------------------------

  /** The sum of the multiplicities of the listed values. */
  ghost function Counts(s: seq<int>, values: seq<int>): nat {
    if values == [] then 0 else Counts(s, values[..|values| - 1]) + multiset(s)[values[|values| - 1]]
  }

  lemma {:induction false} CountsAppend(s: seq<int>, x: int, values: seq<int>)
    requires Distinct(values)
    ensures Counts(s + [x], values) == Counts(s, values) + if x in values then 1 else 0
  {
    if values != [] {
      CountsAppend(s, x, values[..|values| - 1]);
      assert values == values[..|values| - 1] + [values[|values| - 1]];
    }
  }

  lemma {:induction false} CountsNone(values: seq<int>)
    ensures Counts([], values) == 0
  {
    if values != [] { CountsNone(values[..|values| - 1]); }
  }

  lemma {:induction false} CountsAll(s: seq<int>, values: seq<int>)
    requires Distinct(values) && forall x :: x in s ==> x in values
    ensures Counts(s, values) == |s|
  {
    if s == [] {
      CountsNone(values);
    } else {
      CountsAll(s[..|s| - 1], values);
      CountsAppend(s[..|s| - 1], s[|s| - 1], values);
      assert s == s[..|s| - 1] + [s[|s| - 1]];
    }
  }

  method CountFingerprints(fps: seq<int>) returns (counter: map<int, nat>)
    ensures forall x :: x in counter <==> x in fps
    ensures forall x :: x in counter ==> counter[x] == multiset(fps)[x]
  {
    counter := map[];
    for i := 0 to |fps|
      invariant forall x :: x in counter <==> x in fps[..i]
      invariant forall x :: x in counter ==> counter[x] == multiset(fps[..i])[x]
    {
      assert fps[..i + 1] == fps[..i] + [fps[i]];
      counter := counter[fps[i] := (if fps[i] in counter then counter[fps[i]] else 0) + 1];
    }
    assert fps[..|fps|] == fps;
  }

  lemma SameSize(s: seq<int>, values: seq<int>)
    requires Distinct(values) && forall x :: x in values <==> x in s
    ensures |s| - |values| == Repeats(s)
  {
    DedupMembers(s);
    DedupPlusRepeats(s);
    forall x ensures x in values <==> x in Dedup(s) {
      assert x in s <==> x in values;
      assert x in s <==> x in Dedup(s);
    }
    SameElements(values, Dedup(s));
    DistinctSize(values);
    DistinctSize(Dedup(s));
  }

  /** The dashboard's recall count: over all fingerprints, how often each occurred beyond its first time. */
  method RecallCount(entries: seq<Entry>) returns (recalls: int)
    ensures recalls == Repeats(Fingerprints(entries))
  {
    var fps := Fingerprints(entries);
    var counter := CountFingerprints(fps);
    var values := Enumerate(counter.Keys);
    recalls := 0;
    forall x ensures x in values <==> x in fps { assert x in values <==> x in Elements(values); }
    for i := 0 to |values|
      invariant recalls + i == Counts(fps, values[..i])
    {
      assert values[..i + 1][..i] == values[..i] && values[..i + 1][i] == values[i];
      assert values[i] in values && multiset(fps)[values[i]] > 0;
      if counter[values[i]] > 1 {
        recalls := recalls + counter[values[i]] - 1;
      }
    }
    assert values[..|values|] == values;
    CountsAll(fps, values);
    SameSize(fps, values);
  }

  // ----- the two agree -------------------------------------------------------------------------

  lemma {:induction false} FingerprintsConcat(a: seq<Entry>, b: seq<Entry>)
    ensures Fingerprints(a + b) == Fingerprints(a) + Fingerprints(b)
  {
    if b == [] {
      assert a + b == a;
    } else {
      assert (a + b)[..|a + b| - 1] == a + b[..|b| - 1];
      FingerprintsConcat(a, b[..|b| - 1]);
    }
  }

  ghost function Bag(s: seq<Entry>): multiset<int> {
    multiset(Fingerprints(s))
  }

  lemma FingerprintsFirst(x: Entry, s: seq<Entry>)
    ensures Bag([x] + s) == Bag([x]) + Bag(s)
  {
    FingerprintsConcat([x], s);
  }

  lemma InsertFurther(x: Entry, first: Entry, tail: seq<Entry>)
    requires TimeKey()(x) > TimeKey()(first)
    ensures InsertBy(x, [first] + tail, TimeKey()) == [first] + InsertBy(x, tail, TimeKey())
  {
    assert ([first] + tail)[1..] == tail;
  }

  lemma {:induction false} InsertKeepsFingerprints(x: Entry, s: seq<Entry>)
    ensures Bag(InsertBy(x, s, TimeKey())) == Bag([x]) + Bag(s)
  {
    if s == [] || TimeKey()(x) <= TimeKey()(s[0]) {
      FingerprintsFirst(x, s);
    } else {
      var first, tail := s[0], s[1..];
      assert s == [first] + tail;
      InsertKeepsFingerprints(x, tail);
      InsertFurther(x, first, tail);
      FingerprintsFirst(first, InsertBy(x, tail, TimeKey()));
      FingerprintsFirst(first, tail);
    }
  }

  lemma {:induction false} SortKeepsFingerprints(s: seq<Entry>)
    ensures Bag(SortBy(s, TimeKey())) == Bag(s)
  {
    if s != [] {
      var x, tail := s[0], s[1..];
      assert s == [x] + tail;
      SortKeepsFingerprints(tail);
      InsertKeepsFingerprints(x, SortBy(tail, TimeKey()));
      FingerprintsFirst(x, tail);
    }
  }

  lemma MultisetSize(s: seq<int>)
    ensures |multiset(s)| == |s|
  {
  }

  lemma RepeatsOfPermutation(a: seq<int>, b: seq<int>)
    requires multiset(a) == multiset(b)
    ensures Repeats(a) == Repeats(b)
  {
    MultisetSize(a);
    MultisetSize(b);
    DedupMembers(a);
    forall x ensures x in Dedup(a) <==> x in b {
      assert x in a <==> x in multiset(a);
      assert x in b <==> x in multiset(b);
    }
    DedupPlusRepeats(a);
    SameSize(b, Dedup(a));
  }

  /** The chart plots exactly as many points as the dashboard reports recalls. */
  lemma PointsMatchRecalls(entries: seq<Entry>)
    ensures |Points(SortBy(entries, TimeKey()))| == Repeats(Fingerprints(entries))
  {
    PointsAreRepeats(SortBy(entries, TimeKey()));
    SortKeepsFingerprints(entries);
    RepeatsOfPermutation(Fingerprints(SortBy(entries, TimeKey())), Fingerprints(entries));
  }
}
