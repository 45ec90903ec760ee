/** The KDN requests on disk: which steps each request takes on its persistent dictionary, what a restart
    finds after a crash between or inside requests, and that repeating an interrupted scan or sweep makes up
    for the crash. */
module KdnDisk {
  import PD = PersistentDict
  import opened KdnHistory
  import opened KdnIndex
  import opened KdnKeys
  import KdnSessions
  import opened Sequences

  type Stops = seq<PD.Stop>

  type Steps = seq<PD.Op<Entry>>

  // ----- the steps of a request ----------------------------------------------------------------

  /** A scan writes one entry per file it imports; file `i`, if written, gets as far as `stops[i]`. */
  function ScanSteps(index: Index, op: Op, node: string, stops: Stops, n: nat): Steps
    requires op.Scan? && n <= |op.listing| == |op.ids| && n <= |stops|
  {
    if n == 0 then []
    else
      var f := op.listing[n - 1];
      ScanSteps(index, op, node, stops, n - 1)
      + if FileKey(f) in Scanned(index, op, node, n - 1) then []
        else [PD.Put(FileKey(f), ScannedEntry(f, op, op.ids[n - 1], node), stops[n - 1])]
  }

  ghost predicate HasId(index: Index, id: string) {
    exists k :: k in index && index[k].cacheId == id
  }

  ghost function KeyOf(index: Index, id: string): (k: string)
    requires HasId(index, id)
    ensures k in index && index[k].cacheId == id
  {
    var k :| k in index && index[k].cacheId == id;
    k
  }

  /** How many flushes a request may need. */
  function Width(op: Op): nat {
    if op.Scan? then |op.listing| else 1
  }

  ghost function IndexSteps(index: Index, r: Request, node: string, stops: Stops): Steps
    requires Valid(r.op) && |stops| == Width(r.op)
  {
    match r.op
    case Store(fp, model, _, _, _, _, _, _, _, _) =>
      [PD.Put(IdxKey(fp, model), StoredEntry(r.op, r.world.now, node), stops[0])]
    case Warmup(fp, model, _, _, _) =>
      if AlreadyReady(index, fp, model) then []
      else [PD.Put(IdxKey(fp, model), PlaceholderEntry(r.op, r.world.now, node), stops[0])]
    case Scan(_, _, _, _, _) => ScanSteps(index, r.op, node, stops, |r.op.listing|)
    case Evict(id) => if HasId(index, id) then [PD.Delete(KeyOf(index, id), stops[0])] else []
    case Query(fp, model) =>
      if IdxKey(fp, model) in index && Dead(index[IdxKey(fp, model)], r.world)
      then [PD.Delete(IdxKey(fp, model), stops[0])] else []
  }

  /** A request takes its steps, each flush getting as far as the operating system lets it. */
  ghost predicate Performs(before: PD.State<Entry>, after: PD.State<Entry>, r: Request, node: string)
    requires Valid(r.op)
  {
    exists stops: Stops :: |stops| == Width(r.op) && after == PD.Replay(before, IndexSteps(before.data, r, node, stops))
  }

  lemma ReplayOne<V>(s: PD.State<V>, op: PD.Op<V>)
    ensures PD.Replay(s, [op]) == PD.Step(s, op)
  {
    assert [op][..0] == [];
    assert PD.Replay(s, []) == s;
  }

  lemma PerformsNothing(s: PD.State<Entry>, r: Request, node: string)
    requires Valid(r.op) && !r.op.Scan? && IndexSteps(s.data, r, node, [PD.Completed]) == []
    ensures Performs(s, s, r, node)
  {
    assert PD.Replay(s, IndexSteps(s.data, r, node, [PD.Completed])) == s;
  }

  lemma PerformsOne(s: PD.State<Entry>, r: Request, node: string, op: PD.Op<Entry>, stop: PD.Stop)
    requires Valid(r.op) && !r.op.Scan? && IndexSteps(s.data, r, node, [stop]) == [op]
    ensures Performs(s, PD.Step(s, op), r, node)
  {
    ReplayOne(s, op);
    assert PD.Replay(s, IndexSteps(s.data, r, node, [stop])) == PD.Step(s, op);
  }

  lemma PerformsEviction(s: PD.State<Entry>, id: string, node: string, key: string, stop: PD.Stop)
    requires UniqueIds(s.data) && key in s.data && s.data[key].cacheId == id
    ensures forall w :: Performs(s, PD.Step(s, PD.Delete(key, stop)), Request(Evict(id), w), node)
  {
    assert HasId(s.data, id) && KeyOf(s.data, id) == key;
    forall w ensures Performs(s, PD.Step(s, PD.Delete(key, stop)), Request(Evict(id), w), node) {
      PerformsOne(s, Request(Evict(id), w), node, PD.Delete(key, stop), stop);
    }
  }

  lemma PerformsNoEviction(s: PD.State<Entry>, id: string, node: string)
    requires !HasId(s.data, id)
    ensures forall w :: Performs(s, s, Request(Evict(id), w), node)
  {
    forall w ensures Performs(s, s, Request(Evict(id), w), node) {
      PerformsNothing(s, Request(Evict(id), w), node);
    }
  }

  /** Memory and disk after the first `n` files of a scan. */
  function InScan(s: PD.State<Entry>, op: Op, node: string, stops: Stops, n: nat): PD.State<Entry>
    requires op.Scan? && n <= |op.listing| == |op.ids| && n <= |stops|
  {
    PD.Replay(s, ScanSteps(s.data, op, node, stops, n))
  }

  lemma PerformsScan(s: PD.State<Entry>, op: Op, node: string, stops: Stops, w: World)
    requires op.Scan? && |stops| == |op.listing| == |op.ids|
    ensures Performs(s, InScan(s, op, node, stops, |op.listing|), Request(op, w), node)
  {
    assert IndexSteps(s.data, Request(op, w), node, stops) == ScanSteps(s.data, op, node, stops, |op.listing|);
  }

  lemma {:induction false} ScanStepsPrefix(index: Index, op: Op, node: string, stops: Stops, more: Stops, n: nat)
    requires op.Scan? && n <= |op.listing| == |op.ids| && n <= |stops|
    ensures ScanSteps(index, op, node, stops + more, n) == ScanSteps(index, op, node, stops, n)
  {
    if n > 0 { ScanStepsPrefix(index, op, node, stops, more, n - 1); }
  }

  lemma ScanOneMore(s: PD.State<Entry>, op: Op, node: string, stops: Stops, stop: PD.Stop)
    requires op.Scan? && |stops| < |op.listing| == |op.ids|
    ensures var n, f := |stops|, op.listing[|stops|];
            var before := InScan(s, op, node, stops, n);
            InScan(s, op, node, stops + [stop], n + 1)
            == if FileKey(f) in Scanned(s.data, op, node, n) then before
               else PD.Step(before, PD.Put(FileKey(f), ScannedEntry(f, op, op.ids[n], node), stop))
  {
    var n, f := |stops|, op.listing[|stops|];
    var steps := ScanSteps(s.data, op, node, stops, n);
    ScanStepsPrefix(s.data, op, node, stops, [stop], n);
    if FileKey(f) in Scanned(s.data, op, node, n) {
      assert steps + [] == steps;
    } else {
      var put := PD.Put(FileKey(f), ScannedEntry(f, op, op.ids[n], node), stop);
      PD.ReplayConcat(s, steps, [put]);
      ReplayOne(PD.Replay(s, steps), put);
    }
  }

  lemma {:induction false} ScanStepsData(s: PD.State<Entry>, op: Op, node: string, stops: Stops, n: nat)
    requires op.Scan? && n <= |op.listing| == |op.ids| && n <= |stops|
    ensures InScan(s, op, node, stops, n).data == Scanned(s.data, op, node, n)
  {
    if n > 0 {
      ScanStepsData(s, op, node, stops, n - 1);
      var before, f := ScanSteps(s.data, op, node, stops, n - 1), op.listing[n - 1];
      if FileKey(f) in Scanned(s.data, op, node, n - 1) {
        assert before + [] == before;
      } else {
        var put := PD.Put(FileKey(f), ScannedEntry(f, op, op.ids[n - 1], node), stops[n - 1]);
        PD.ReplayConcat(s, before, [put]);
        ReplayOne(PD.Replay(s, before), put);
      }
    }
  }

  lemma EvictedIsDeletion(index: Index, id: string)
    requires UniqueIds(index)
    ensures Evicted(index, id) == if HasId(index, id) then index - {KeyOf(index, id)} else index
  {
    if HasId(index, id) { EvictRemovesOne(index, id, KeyOf(index, id)); }
  }

  /** In memory a request's steps do what the request does. */
  lemma StepsData(s: PD.State<Entry>, r: Request, node: string, stops: Stops)
    requires Valid(r.op) && |stops| == Width(r.op) && UniqueIds(s.data)
    ensures PD.Replay(s, IndexSteps(s.data, r, node, stops)).data == Apply(s.data, r.op, r.world, node, true)
  {
    var steps := IndexSteps(s.data, r, node, stops);
    if r.op.Scan? {
      ScanStepsData(s, r.op, node, stops, |r.op.listing|);
    } else {
      if r.op.Evict? { EvictedIsDeletion(s.data, r.op.cacheId); }
      if steps != [] {
        assert steps == [steps[0]];
        ReplayOne(s, steps[0]);
      }
    }
  }

  // ----- what a restart loads ------------------------------------------------------------------

  ghost predicate StopsFor(trace: Trace, stops: seq<Stops>) {
    && ValidTrace(trace) && |stops| == |trace|
    && forall i :: 0 <= i < |trace| ==> |stops[i]| == Width(trace[i].op)
  }

  /** The steps of a whole run that starts with the given index. */
  ghost function AllSteps(start: Index, trace: Trace, node: string, stops: seq<Stops>): Steps
    requires StopsFor(trace, stops)
  {
    if trace == [] then []
    else
      var init, last := trace[..|trace| - 1], trace[|trace| - 1];
      AllSteps(start, init, node, stops[..|init|])
      + IndexSteps(Run(start, init, node, true), last, node, stops[|init|])
  }

  /** An index the run passes through: after `i` requests, and the first `j` files if the next is a scan. */
  ghost predicate MomentAt(start: Index, trace: Trace, node: string, index: Index, i: nat, j: nat)
    requires ValidTrace(trace)
  {
    && i <= |trace| && var before := Run(start, trace[..i], node, true);
    || index == before
    || (i < |trace| && trace[i].op.Scan? && j <= |trace[i].op.listing|
        && index == Scanned(before, trace[i].op, node, j))
  }

  ghost predicate Moment(start: Index, trace: Trace, node: string, index: Index)
    requires ValidTrace(trace)
  {
    exists i: nat, j: nat :: MomentAt(start, trace, node, index, i, j)
  }

  lemma MomentOfPrefix(start: Index, trace: Trace, node: string, index: Index)
    requires trace != [] && ValidTrace(trace) && Moment(start, trace[..|trace| - 1], node, index)
    ensures Moment(start, trace, node, index)
  {
    var init := trace[..|trace| - 1];
    var i: nat, j: nat :| MomentAt(start, init, node, index, i, j);
    assert init[..i] == trace[..i];
    assert MomentAt(start, trace, node, index, i, j);
  }

  /** Inside a scan, memory holds what the scan made of the first files. */
  lemma {:induction false} ScanPrefix(s: PD.State<Entry>, op: Op, node: string, stops: Stops, n: nat, k: nat)
    returns (j: nat)
    requires op.Scan? && n <= |op.listing| == |op.ids| && n <= |stops|
    requires k <= |ScanSteps(s.data, op, node, stops, n)|
    ensures j <= n && PD.Replay(s, ScanSteps(s.data, op, node, stops, n)[..k]).data == Scanned(s.data, op, node, j)
  {
    var steps := ScanSteps(s.data, op, node, stops, n);
    if k == |steps| {
      j := n;
      assert steps[..k] == steps;
      ScanStepsData(s, op, node, stops, n);
    } else {
      var before := ScanSteps(s.data, op, node, stops, n - 1);
      assert steps[..k] == before[..k];
      j := ScanPrefix(s, op, node, stops, n - 1, k);
    }
  }

  lemma DrawnOfPrefix(ids: seq<string>, trace: Trace)
    requires trace != [] && Distinct(ids + AllDrawn(trace))
    ensures Distinct(ids + AllDrawn(trace[..|trace| - 1]))
  {
    DistinctFront(ids, AllDrawn(trace[..|trace| - 1]), Drawn(trace[|trace| - 1].op));
  }

  lemma {:induction false} RunSteps(s: PD.State<Entry>, ids: seq<string>, trace: Trace, node: string, stops: seq<Stops>)
    requires StopsFor(trace, stops)
    requires UniqueIds(s.data) && IdsFrom(s.data, ids) && Distinct(ids + AllDrawn(trace))
    ensures PD.Replay(s, AllSteps(s.data, trace, node, stops)).data == Run(s.data, trace, node, true)
  {
    if trace != [] {
      var init, last := trace[..|trace| - 1], trace[|trace| - 1];
      DrawnOfPrefix(ids, trace);
      RunSteps(s, ids, init, node, stops[..|init|]);
      IdsStayUnique(s.data, ids, init, node, true);
      var before := AllSteps(s.data, init, node, stops[..|init|]);
      PD.ReplayConcat(s, before, IndexSteps(Run(s.data, init, node, true), last, node, stops[|init|]));
      StepsData(PD.Replay(s, before), last, node, stops[|init|]);
    }
  }

  /** Serving the requests one after the other, each with its own outcome on disk, can lead from the one memory
      and disk to the other. */
  ghost predicate Serves(before: PD.State<Entry>, trace: Trace, node: string, after: PD.State<Entry>)
    requires ValidTrace(trace)
  {
    if trace == [] then after == before
    else
      exists mid {:trigger Performs(mid, after, trace[|trace| - 1], node)} ::
        Serves(before, trace[..|trace| - 1], node, mid) && Performs(mid, after, trace[|trace| - 1], node)
  }

  lemma StopsAppend(trace: Trace, stops: seq<Stops>, last: Request, more: Stops)
    requires StopsFor(trace, stops) && Valid(last.op) && |more| == Width(last.op)
    ensures StopsFor(trace + [last], stops + [more])
  {
  }

  /** One request more. */
  lemma OneMoreServed(s: PD.State<Entry>, init: Trace, node: string, before: seq<Stops>, last: Request,
                      mid: PD.State<Entry>, after: PD.State<Entry>)
    returns (more: Stops)
    requires StopsFor(init, before) && Valid(last.op) && mid == PD.Replay(s, AllSteps(s.data, init, node, before))
    requires mid.data == Run(s.data, init, node, true) && Performs(mid, after, last, node)
    ensures StopsFor(init + [last], before + [more])
    ensures after == PD.Replay(s, AllSteps(s.data, init + [last], node, before + [more]))
  {
    more :| |more| == Width(last.op) && after == PD.Replay(mid, IndexSteps(mid.data, last, node, more));
    StopsAppend(init, before, last, more);
    assert (init + [last])[..|init|] == init && (before + [more])[..|init|] == before;
    PD.ReplayConcat(s, AllSteps(s.data, init, node, before), IndexSteps(mid.data, last, node, more));
  }

  lemma NextServed(s: PD.State<Entry>, ids: seq<string>, init: Trace, node: string, before: seq<Stops>, last: Request,
                   mid: PD.State<Entry>, after: PD.State<Entry>)
    returns (more: Stops)
    requires StopsFor(init, before) && Valid(last.op) && mid == PD.Replay(s, AllSteps(s.data, init, node, before))
    requires UniqueIds(s.data) && IdsFrom(s.data, ids) && Distinct(ids + AllDrawn(init))
    requires Performs(mid, after, last, node)
    ensures StopsFor(init + [last], before + [more])
    ensures after == PD.Replay(s, AllSteps(s.data, init + [last], node, before + [more]))
  {
    RunSteps(s, ids, init, node, before);
    more := OneMoreServed(s, init, node, before, last, mid, after);
  }

  /** Requests served one after the other take the steps of the run. */
  lemma {:induction false} ServedSteps(s: PD.State<Entry>, ids: seq<string>, trace: Trace, node: string,
                                       after: PD.State<Entry>)
    returns (stops: seq<Stops>)
    requires ValidTrace(trace) && Serves(s, trace, node, after)
    requires UniqueIds(s.data) && IdsFrom(s.data, ids) && Distinct(ids + AllDrawn(trace))
    ensures StopsFor(trace, stops) && after == PD.Replay(s, AllSteps(s.data, trace, node, stops))
  {
    if trace == [] {
      stops := [];
    } else {
      var init, last := trace[..|trace| - 1], trace[|trace| - 1];
      var mid :| Serves(s, init, node, mid) && Performs(mid, after, last, node);
      DrawnOfPrefix(ids, trace);
      var before := ServedSteps(s, ids, init, node, mid);
      var more := NextServed(s, ids, init, node, before, last, mid, after);
      SplitLast(trace);
      stops := before + [more];
    }
  }

  lemma MomentAtEnd(start: Index, trace: Trace, node: string)
    requires ValidTrace(trace)
    ensures Moment(start, trace, node, Run(start, trace, node, true))
  {
    assert trace[..|trace|] == trace;
    assert MomentAt(start, trace, node, Run(start, trace, node, true), |trace|, 0);
  }

  lemma MomentInScan(start: Index, trace: Trace, node: string, j: nat)
    requires trace != [] && ValidTrace(trace) && trace[|trace| - 1].op.Scan? && j <= |trace[|trace| - 1].op.listing|
    ensures Moment(start, trace, node,
                   Scanned(Run(start, trace[..|trace| - 1], node, true), trace[|trace| - 1].op, node, j))
  {
    var i := |trace| - 1;
    assert MomentAt(start, trace, node, Scanned(Run(start, trace[..i], node, true), trace[i].op, node, j), i, j);
  }

  /** A request with more than one step is a scan. */
  lemma InsideRequest(s: PD.State<Entry>, r: Request, node: string, stops: Stops, m: nat) returns (j: nat)
    requires Valid(r.op) && |stops| == Width(r.op) && 0 < m < |IndexSteps(s.data, r, node, stops)|
    ensures r.op.Scan? && j <= |r.op.listing|
    ensures PD.Replay(s, IndexSteps(s.data, r, node, stops)[..m]).data == Scanned(s.data, r.op, node, j)
  {
    j := ScanPrefix(s, r.op, node, stops, |r.op.listing|, m);
  }

  lemma PrefixOfConcat<T>(a: seq<T>, b: seq<T>, k: nat)
    requires k <= |a + b|
    ensures (a + b)[..k] == if k <= |a| then a[..k] else a + b[..k - |a|]
  {
  }

  /** Some steps of the last request taken, but not all. */
  lemma InsideLast(s: PD.State<Entry>, trace: Trace, node: string, stops: seq<Stops>, k: nat)
    requires StopsFor(trace, stops) && trace != []
    requires PD.Replay(s, AllSteps(s.data, trace[..|trace| - 1], node, stops[..|trace| - 1])).data
             == Run(s.data, trace[..|trace| - 1], node, true)
    requires |AllSteps(s.data, trace[..|trace| - 1], node, stops[..|trace| - 1])| < k
             < |AllSteps(s.data, trace, node, stops)|
    ensures Moment(s.data, trace, node, PD.Replay(s, AllSteps(s.data, trace, node, stops)[..k]).data)
  {
    var init, last := trace[..|trace| - 1], trace[|trace| - 1];
    var before := AllSteps(s.data, init, node, stops[..|init|]);
    var inside := IndexSteps(Run(s.data, init, node, true), last, node, stops[|init|]);
    PrefixOfConcat(before, inside, k);
    PD.ReplayConcat(s, before, inside[..k - |before|]);
    var j := InsideRequest(PD.Replay(s, before), last, node, stops[|init|], k - |before|);
    MomentInScan(s.data, trace, node, j);
  }

  lemma StepsOfPrefix(start: Index, trace: Trace, node: string, stops: seq<Stops>, k: nat)
    requires StopsFor(trace, stops) && trace != []
    requires k <= |AllSteps(start, trace[..|trace| - 1], node, stops[..|trace| - 1])|
    ensures k <= |AllSteps(start, trace, node, stops)|
    ensures AllSteps(start, trace, node, stops)[..k]
            == AllSteps(start, trace[..|trace| - 1], node, stops[..|trace| - 1])[..k]
  {
    var init := trace[..|trace| - 1];
    PrefixOfConcat(AllSteps(start, init, node, stops[..|init|]),
                   IndexSteps(Run(start, init, node, true), trace[|init|], node, stops[|init|]), k);
  }

  lemma MomentAfterAll(s: PD.State<Entry>, ids: seq<string>, trace: Trace, node: string, stops: seq<Stops>)
    requires StopsFor(trace, stops)
    requires UniqueIds(s.data) && IdsFrom(s.data, ids) && Distinct(ids + AllDrawn(trace))
    ensures var steps := AllSteps(s.data, trace, node, stops);
            Moment(s.data, trace, node, PD.Replay(s, steps[..|steps|]).data)
  {
    WholePrefix(AllSteps(s.data, trace, node, stops));
    RunSteps(s, ids, trace, node, stops);
    MomentAtEnd(s.data, trace, node);
  }

  lemma MomentInPrefix(s: PD.State<Entry>, trace: Trace, node: string, stops: seq<Stops>, k: nat)
    requires StopsFor(trace, stops) && trace != []
    requires k <= |AllSteps(s.data, trace[..|trace| - 1], node, stops[..|trace| - 1])|
    requires Moment(s.data, trace[..|trace| - 1], node,
                    PD.Replay(s, AllSteps(s.data, trace[..|trace| - 1], node, stops[..|trace| - 1])[..k]).data)
    ensures k <= |AllSteps(s.data, trace, node, stops)|
    ensures Moment(s.data, trace, node, PD.Replay(s, AllSteps(s.data, trace, node, stops)[..k]).data)
  {
    StepsOfPrefix(s.data, trace, node, stops, k);
    MomentOfPrefix(s.data, trace, node, PD.Replay(s, AllSteps(s.data, trace, node, stops)[..k]).data);
  }

  lemma MomentInLast(s: PD.State<Entry>, ids: seq<string>, trace: Trace, node: string, stops: seq<Stops>, k: nat)
    requires StopsFor(trace, stops) && trace != []
    requires UniqueIds(s.data) && IdsFrom(s.data, ids) && Distinct(ids + AllDrawn(trace[..|trace| - 1]))
    requires |AllSteps(s.data, trace[..|trace| - 1], node, stops[..|trace| - 1])| < k
             < |AllSteps(s.data, trace, node, stops)|
    ensures Moment(s.data, trace, node, PD.Replay(s, AllSteps(s.data, trace, node, stops)[..k]).data)
  {
    RunSteps(s, ids, trace[..|trace| - 1], node, stops[..|trace| - 1]);
    InsideLast(s, trace, node, stops, k);
  }

  /** Between any two steps of a run, memory holds an index of a request prefix, or of a scan in progress. */
  lemma {:induction false} PrefixIsMoment(s: PD.State<Entry>, ids: seq<string>, trace: Trace, node: string,
                                          stops: seq<Stops>, k: nat)
    requires StopsFor(trace, stops) && k <= |AllSteps(s.data, trace, node, stops)|
    requires UniqueIds(s.data) && IdsFrom(s.data, ids) && Distinct(ids + AllDrawn(trace))
    ensures Moment(s.data, trace, node, PD.Replay(s, AllSteps(s.data, trace, node, stops)[..k]).data)
  {
    if k == |AllSteps(s.data, trace, node, stops)| {
      MomentAfterAll(s, ids, trace, node, stops);
    } else {
      var init := trace[..|trace| - 1];
      DrawnOfPrefix(ids, trace);
      if k <= |AllSteps(s.data, init, node, stops[..|init|])| {
        PrefixIsMoment(s, ids, init, node, stops[..|init|], k);
        MomentInPrefix(s, trace, node, stops, k);
      } else {
        MomentInLast(s, ids, trace, node, stops, k);
      }
    }
  }

  /** A crash anywhere in a run of requests, with any writes failing before: the restart loads the index as
      it was when memory and disk were last level, and that is the index of a request prefix, or of a scan cut
      off after some of its files. */
  lemma RestartLoadsMoment(disk: PD.Disk<Entry>, ids: seq<string>, trace: Trace, node: string, stops: seq<Stops>,
                           k: nat)
    requires StopsFor(trace, stops) && k <= |AllSteps(PD.Load(disk), trace, node, stops)|
    requires UniqueIds(PD.Load(disk)) && IdsFrom(PD.Load(disk), ids) && Distinct(ids + AllDrawn(trace))
    ensures var done := AllSteps(PD.Load(disk), trace, node, stops)[..k];
            var loaded := PD.Load(PD.Run(disk, done).disk);
            && loaded == PD.Run(disk, done[..PD.LastSync(disk, done)]).data
            && Moment(PD.Load(disk), trace, node, loaded)
  {
    var steps := AllSteps(PD.Load(disk), trace, node, stops);
    var done := steps[..k];
    var sync := PD.LastSync(disk, done);
    PD.RestartLoadsLastSync(disk, done);
    assert done[..sync] == steps[..sync];
    PrefixIsMoment(PD.Start(disk), ids, trace, node, stops, sync);
  }

  // ----- repeating a scan ----------------------------------------------------------------------

  function Anonymous(e: Entry): Entry {
    e.(cacheId := "")
  }

  /** File `f` is the first of the listing with its chunk key, and that key is not indexed. */
  ghost predicate FirstNew(index: Index, listing: seq<PtFile>, f: nat) {
    && f < |listing| && FileKey(listing[f]) !in index
    && forall g :: 0 <= g < f ==> FileKey(listing[g]) != FileKey(listing[f])
  }

  lemma {:induction false} AbsentUntilFirst(index: Index, op: Op, node: string, n: nat, f: nat)
    requires op.Scan? && n <= |op.listing| == |op.ids| && FirstNew(index, op.listing, f) && n <= f
    ensures FileKey(op.listing[f]) !in Scanned(index, op, node, n)
  {
    if n > 0 {
      AbsentUntilFirst(index, op, node, n - 1, f);
      assert FileKey(op.listing[n - 1]) != FileKey(op.listing[f]);
    }
  }

  lemma {:induction false} EntryOfFirst(index: Index, op: Op, node: string, n: nat, f: nat)
    requires op.Scan? && f < n <= |op.listing| == |op.ids| && FirstNew(index, op.listing, f)
    ensures var key := FileKey(op.listing[f]);
            key in Scanned(index, op, node, n)
            && Scanned(index, op, node, n)[key] == ScannedEntry(op.listing[f], op, op.ids[f], node)
  {
    if n - 1 == f {
      AbsentUntilFirst(index, op, node, f, f);
    } else {
      EntryOfFirst(index, op, node, n - 1, f);
    }
  }

  /** Every key a scan adds comes from the first file that has it. */
  lemma {:induction false} AddedByFirst(index: Index, op: Op, node: string, n: nat, k: string) returns (f: nat)
    requires op.Scan? && n <= |op.listing| == |op.ids| && k !in index && k in Scanned(index, op, node, n)
    ensures f < n && FirstNew(index, op.listing, f) && FileKey(op.listing[f]) == k
  {
    if k in Scanned(index, op, node, n - 1) {
      f := AddedByFirst(index, op, node, n - 1, k);
    } else {
      f := n - 1;
      forall g | 0 <= g < f ensures FileKey(op.listing[g]) != k {
        ScannedKeys(index, op, node, f);
        ChunkKeysMember(op.listing, f, g);
      }
    }
  }

  lemma {:induction false} ChunkKeysGrow(listing: seq<PtFile>, j: nat, n: nat)
    requires j <= n <= |listing|
    ensures ChunkKeysOf(listing, j) <= ChunkKeysOf(listing, n)
  {
    if j < n { ChunkKeysGrow(listing, j, n - 1); }
  }

  lemma RescannedEntry(index: Index, op: Op, again: Op, node: string, j: nat, k: string)
    requires op.Scan? && again.Scan? && |op.listing| == |op.ids| == |again.ids| && j <= |op.listing|
    requires again == op.(ids := again.ids) && k in Scanned(index, op, node, |op.listing|)
    ensures var n, cut := |op.listing|, Scanned(index, op, node, j);
            && k in Scanned(cut, again, node, n)
            && Anonymous(Scanned(cut, again, node, n)[k]) == Anonymous(Scanned(index, op, node, n)[k])
  {
    var n, cut := |op.listing|, Scanned(index, op, node, j);
    if k in index {
      ScanKeepsEntries(index, op, node, n, k);
      ScanKeepsEntries(index, op, node, j, k);
      ScanKeepsEntries(cut, again, node, n, k);
    } else {
      var f := AddedByFirst(index, op, node, n, k);
      EntryOfFirst(index, op, node, n, f);
      if f < j {
        EntryOfFirst(index, op, node, j, f);
        ScanKeepsEntries(cut, again, node, n, k);
      } else {
        AbsentUntilFirst(index, op, node, j, f);
        assert FirstNew(cut, again.listing, f);
        EntryOfFirst(cut, again, node, n, f);
      }
    }
  }

  lemma RescannedKeys(index: Index, op: Op, again: Op, node: string, j: nat)
    requires op.Scan? && again.Scan? && |op.listing| == |op.ids| == |again.ids| && j <= |op.listing|
    requires again.listing == op.listing
    ensures Scanned(Scanned(index, op, node, j), again, node, |op.listing|).Keys
            == Scanned(index, op, node, |op.listing|).Keys
  {
    ScannedKeys(index, op, node, j);
    ScannedKeys(index, op, node, |op.listing|);
    ScannedKeys(Scanned(index, op, node, j), again, node, |op.listing|);
    ChunkKeysGrow(op.listing, j, |op.listing|);
  }

  /** Together the two scans import what one uninterrupted scan would have. */
  lemma RescanImports(index: Index, op: Op, again: Op, node: string, j: nat)
    requires op.Scan? && again.Scan? && |op.listing| == |op.ids| == |again.ids| && j <= |op.listing|
    requires again.listing == op.listing
    ensures Imported(index, op, node, j) + Imported(Scanned(index, op, node, j), again, node, |op.listing|)
            == Imported(index, op, node, |op.listing|)
  {
    var n, cut := |op.listing|, Scanned(index, op, node, j);
    RescannedKeys(index, op, again, node, j);
    ImportedCountsNewEntries(index, op, node, j);
    ImportedCountsNewEntries(index, op, node, n);
    ImportedCountsNewEntries(cut, again, node, n);
    assert |Scanned(cut, again, node, n)| == |Scanned(cut, again, node, n).Keys|;
    assert |Scanned(index, op, node, n)| == |Scanned(index, op, node, n).Keys|;
  }

  /** A scan that was cut off after `j` files and is then repeated leaves the index an uninterrupted scan
      would have left, up to the ids of the entries the repetition wrote, and imports exactly what was
      missing. */
  lemma RescanCompletes(index: Index, op: Op, again: Op, node: string, j: nat)
    requires op.Scan? && again.Scan? && |op.listing| == |op.ids| == |again.ids| && j <= |op.listing|
    requires again == op.(ids := again.ids)
    ensures var n, cut := |op.listing|, Scanned(index, op, node, j);
            var whole, repeated := Scanned(index, op, node, n), Scanned(cut, again, node, n);
            && repeated.Keys == whole.Keys
            && (forall k :: k in whole ==> Anonymous(repeated[k]) == Anonymous(whole[k]))
            && Imported(index, op, node, j) + Imported(cut, again, node, n) == Imported(index, op, node, n)
  {
    var whole := Scanned(index, op, node, |op.listing|);
    RescannedKeys(index, op, again, node, j);
    RescanImports(index, op, again, node, j);
    forall k | k in whole
      ensures Anonymous(Scanned(Scanned(index, op, node, j), again, node, |op.listing|)[k]) == Anonymous(whole[k])
    {
      RescannedEntry(index, op, again, node, j, k);
    }
  }

  // ----- repeating a sweep ---------------------------------------------------------------------

  /** A sweep deletes the expired keys one by one. */
  function DeleteSteps(keys: seq<string>, stops: Stops): seq<PD.Op<KdnSessions.Session>>
    requires |stops| == |keys|
  {
    seq(|keys|, i requires 0 <= i < |keys| => PD.Delete(keys[i], stops[i]))
  }

  /** A turn writes the entry of its session. */
  ghost predicate PerformsTurn(before: PD.State<KdnSessions.Session>, after: PD.State<KdnSessions.Session>, id: string,
                               fp: int, route: string, now: int)
  {
    var key := KdnSessions.SessionKey(id);
    var entry := KdnSessions.AfterTurn(before.data, id, fp, route, now)[key];
    exists stop :: after == PD.Step(before, PD.Put(key, entry, stop))
  }

  /** `_session_evict_expired` deletes the keys of the expired sessions in some order. */
  ghost predicate PerformsSweep(before: PD.State<KdnSessions.Session>, after: PD.State<KdnSessions.Session>, ttl: int,
                                now: int)
  {
    exists keys, stops: Stops ::
      && Elements(keys) == KdnSessions.ExpiredKeys(before.data, ttl, now) && |stops| == |keys|
      && after == PD.Replay(before, DeleteSteps(keys, stops))
  }

  lemma DeleteOneMore(keys: seq<string>, stops: Stops, key: string, stop: PD.Stop)
    requires |stops| == |keys|
    ensures DeleteSteps(keys + [key], stops + [stop])[..|keys|] == DeleteSteps(keys, stops)
    ensures DeleteSteps(keys + [key], stops + [stop])[|keys|] == PD.Delete(key, stop)
  {
  }

  lemma {:induction false} DeleteStepsData(s: PD.State<KdnSessions.Session>, keys: seq<string>, stops: Stops)
    requires |stops| == |keys|
    ensures PD.Replay(s, DeleteSteps(keys, stops)).data == s.data - Elements(keys)
  {
    if keys == [] {
      assert s.data - Elements(keys) == s.data;
    } else {
      var init, k := keys[..|keys| - 1], keys[|keys| - 1];
      DeleteStepsData(s, init, stops[..|init|]);
      assert DeleteSteps(keys, stops)[..|init|] == DeleteSteps(init, stops[..|init|]);
      assert keys == init + [k];
      ElementsAppend(init, k);
      assert s.data - Elements(keys) == s.data - Elements(init) - {k};
    }
  }

  /** After a crash inside a sweep, a restart finds what it would have found before the sweep, or the sessions
      without some of the expired ones. */
  lemma {:induction false} SweepCrash(s: PD.State<KdnSessions.Session>, keys: seq<string>, stops: Stops)
    returns (j: nat)
    requires |stops| == |keys|
    ensures var loaded := PD.Load(PD.Replay(s, DeleteSteps(keys, stops)).disk);
            j <= |keys| && (loaded == PD.Load(s.disk) || loaded == s.data - Elements(keys[..j]))
  {
    if keys == [] {
      j := 0;
    } else {
      var init := keys[..|keys| - 1];
      var steps := DeleteSteps(keys, stops);
      assert steps[..|init|] == DeleteSteps(init, stops[..|init|]);
      j := SweepCrash(s, init, stops[..|init|]);
      assert init[..j] == keys[..j];
      PD.StepLoads(PD.Replay(s, steps[..|init|]), steps[|init|]);
      if PD.Syncs(PD.Replay(s, steps[..|init|]), steps[|init|]) {
        DeleteStepsData(s, keys, stops);
        j := |keys|;
        assert keys[..j] == keys;
      }
    }
  }

  lemma ExpiredIff(sessions: KdnSessions.Sessions, ttl: int, now: int, k: string)
    requires KdnSessions.WellKeyed(sessions)
    ensures k in KdnSessions.ExpiredKeys(sessions, ttl, now)
            <==> k in sessions && KdnSessions.Expired(sessions[k], ttl, now)
  {
    if k in sessions { assert k == KdnSessions.SessionKey(sessions[k].sessionId); }
  }

  lemma KeptIffFresh(sessions: KdnSessions.Sessions, gone: set<string>, ttl: int, later: int, k: string)
    requires KdnSessions.WellKeyed(sessions)
    ensures k in KdnSessions.AfterSweep(sessions - gone, ttl, later)
            <==> k in sessions && k !in gone && !KdnSessions.Expired(sessions[k], ttl, later)
  {
    ExpiredIff(sessions - gone, ttl, later, k);
  }

  /** Sweeping again, at that time or later, then leaves exactly the sessions the uninterrupted sweep followed
      by the later one would have left. */
  lemma SweepAgain(sessions: KdnSessions.Sessions, ttl: int, now: int, later: int, gone: set<string>)
    requires KdnSessions.WellKeyed(sessions) && now <= later && gone <= KdnSessions.ExpiredKeys(sessions, ttl, now)
    ensures KdnSessions.AfterSweep(sessions - gone, ttl, later)
            == KdnSessions.AfterSweep(KdnSessions.AfterSweep(sessions, ttl, now), ttl, later)
  {
    var swept := KdnSessions.AfterSweep(sessions, ttl, now);
    forall k
      ensures k in KdnSessions.AfterSweep(sessions - gone, ttl, later)
              <==> k in sessions && !KdnSessions.Expired(sessions[k], ttl, later)
      ensures k in KdnSessions.AfterSweep(swept, ttl, later)
              <==> k in sessions && !KdnSessions.Expired(sessions[k], ttl, later)
    {
      KeptIffFresh(sessions, gone, ttl, later, k);
      KeptIffFresh(sessions, KdnSessions.ExpiredKeys(sessions, ttl, now), ttl, later, k);
      if k in sessions { ExpiredIff(sessions, ttl, now, k); }
    }
  }
}
