/** What the KDN index holds, told from the history of requests: who wrote an entry, that identifiers are
    unique, that a ready entry never falls back to pending, and what a scan does. */
module KdnHistory {
  import opened KdnIndex
  import opened KdnKeys
  import opened Options
  import opened Sequences

  // ----- the origin of an entry ----------------------------------------------------------------

  /** The entry a store or warmup request writes. */
  ghost function Written(r: Request, node: string): Entry
    requires r.op.Store? || r.op.Warmup?
  {
    if r.op.Store? then StoredEntry(r.op, r.world.now, node) else PlaceholderEntry(r.op, r.world.now, node)
  }

  predicate Writes(op: Op, fp: int, model: string) {
    (op.Store? || op.Warmup?) && op.fp == fp && op.model == model
  }

  predicate Asks(op: Op, fp: int, model: string) {
    op.Query? && op.fp == fp && op.model == model
  }

  /** The request whose entry a prompt (fp, model) has after the run, told from the history of that
      prompt alone: the last store, or the warmup that found none; gone once that entry was evicted or,
      in an index whose queries sweep, a query of the prompt found it dead. */
  ghost function Origin(trace: Trace, fp: int, model: string, node: string, sweep: bool): (o: Option<nat>)
    ensures o.Some? ==> o.value < |trace| && Writes(trace[o.value].op, fp, model)
  {
    if trace == [] then None
    else
      var init, last := trace[..|trace| - 1], trace[|trace| - 1];
      var o := Origin(init, fp, model, node, sweep);
      if Writes(last.op, fp, model) then
        if last.op.Warmup? && o.Some? && init[o.value].op.Store? then o else Some(|init|)
      else if last.op.Evict? then
        if o.Some? && Written(init[o.value], node).cacheId == last.op.cacheId then None else o
      else if sweep && Asks(last.op, fp, model) then
        if o.Some? && Dead(Written(init[o.value], node), last.world) then None else o
      else o
  }

  lemma {:induction false} ScanKeepsOtherKeys(index: Index, op: Op, node: string, n: nat, key: string)
    requires op.Scan? && n <= |op.listing| == |op.ids|
    requires forall i :: 0 <= i < n ==> FileKey(op.listing[i]) != key
    ensures key in Scanned(index, op, node, n) <==> key in index
    ensures key in index ==> Scanned(index, op, node, n)[key] == index[key]
  {
    if n > 0 { ScanKeepsOtherKeys(index, op, node, n - 1, key); }
  }

  lemma ScanKeepsPrompts(index: Index, op: Op, node: string, fp: int, model: string)
    requires op.Scan? && |op.listing| == |op.ids|
    ensures var after, key := Scanned(index, op, node, |op.listing|), IdxKey(fp, model);
            (key in after <==> key in index) && (key in index ==> after[key] == index[key])
  {
    forall i | 0 <= i < |op.listing| ensures FileKey(op.listing[i]) != IdxKey(fp, model) {
      ChunkKeysApart(fp, model, ChunkHash(op.listing[i].stem), "");
    }
    ScanKeepsOtherKeys(index, op, node, |op.listing|, IdxKey(fp, model));
  }

  lemma StepKeepsPrompt(index: Index, r: Request, node: string, sweep: bool, fp: int, model: string)
    requires Valid(r.op) && !Writes(r.op, fp, model) && !r.op.Evict? && !(sweep && Asks(r.op, fp, model))
    ensures var after, key := Apply(index, r.op, r.world, node, sweep), IdxKey(fp, model);
            (key in after <==> key in index) && (key in index ==> after[key] == index[key])
  {
    match r.op
    case Store(_, _, _, _, _, _, _, _, _, _) => KeyInjective(fp, model, r.op.fp, r.op.model);
    case Warmup(_, _, _, _, _) => KeyInjective(fp, model, r.op.fp, r.op.model);
    case Scan(_, _, _, _, _) => ScanKeepsPrompts(index, r.op, node, fp, model);
    case Query(_, _) => KeyInjective(fp, model, r.op.fp, r.op.model);
  }

  /** The entry under a prompt's key is what the given origin wrote, if there is one. */
  ghost predicate Holds(index: Index, key: string, trace: Trace, o: Option<nat>, node: string)
    requires o.Some? ==> o.value < |trace| && (trace[o.value].op.Store? || trace[o.value].op.Warmup?)
  {
    && (key in index <==> o.Some?)
    && (o.Some? ==> index[key] == Written(trace[o.value], node))
  }

  /** The string-keyed index is a table of prompts: after any run from an empty index, the entry under a
      prompt's key is exactly what the origin of that prompt wrote. */
  lemma {:induction false} EntryIsOrigins(trace: Trace, node: string, sweep: bool, fp: int, model: string)
    requires ValidTrace(trace)
    ensures Holds(Run(map[], trace, node, sweep), IdxKey(fp, model), trace,
                  Origin(trace, fp, model, node, sweep), node)
  {
    if trace != [] {
      var init, last := trace[..|trace| - 1], trace[|trace| - 1];
      EntryIsOrigins(init, node, sweep, fp, model);
      if !Writes(last.op, fp, model) && !last.op.Evict? && !(sweep && Asks(last.op, fp, model)) {
        StepKeepsPrompt(Run(map[], init, node, sweep), last, node, sweep, fp, model);
      }
    }
  }

  /** A query is answered only from the last surviving store or warmup of the same prompt. */
  lemma HitComesFromOrigin(trace: Trace, node: string, sweep: bool, w: World, fp: int, model: string)
    requires ValidTrace(trace)
    ensures var o := Origin(trace, fp, model, node, sweep);
            Lookup(Run(map[], trace, node, sweep), w, node, fp, model)
            == if o.Some? && !Dead(Written(trace[o.value], node), w)
               then AnswerFrom(Written(trace[o.value], node), node) else Miss
  {
    EntryIsOrigins(trace, node, sweep, fp, model);
  }

  // ----- answers in the fields of the requests -------------------------------------------------

  /** What a store asked for still holds: its time to live, counted from the store, has not passed, and its
      file exists.  Null and 0 never expire; null and the empty path are no file. */
  predicate StillGood(store: Request, w: World)
    requires store.op.Store?
  {
    && (store.op.ttl.None? || store.op.ttl.value == 0 || w.now <= store.world.now + store.op.ttl.value as real)
    && (store.op.file.None? || store.op.file.value == "" || store.op.file.value in w.files)
  }

  /** The node an answer points to: the one the store named, else the server's own, if there is one. */
  function HintOf(hint: Option<string>, node: string): Option<string> {
    match hint
    case Some(named) => if named != "" then hint else if node == "" then None else Some(node)
    case None => if node == "" then None else Some(node)
  }

  /** The answer to a query in the fields of the request it goes back to: it hits if and only if the prompt
      was last written by a warmup, or by a store that is still good; then it names the id drawn for that
      request, the milliseconds the store gave (200 for a warmup), and the node. */
  lemma AnswerInRequestFields(trace: Trace, node: string, sweep: bool, w: World, fp: int, model: string)
    requires ValidTrace(trace)
    ensures var o := Origin(trace, fp, model, node, sweep);
            var answer := Lookup(Run(map[], trace, node, sweep), w, node, fp, model);
            && (o.None? ==> answer == Miss)
            && (o.Some? && trace[o.value].op.Warmup? ==>
                  answer == Hit(trace[o.value].op.id, Some(200), HintOf(None, node)))
            && (o.Some? && trace[o.value].op.Store? ==>
                  var s := trace[o.value];
                  answer == if StillGood(s, w) then Hit(s.op.id, s.op.ttft, HintOf(s.op.nodeHint, node)) else Miss)
  {
    HitComesFromOrigin(trace, node, sweep, w, fp, model);
  }

  lemma DeadIff(r: Request, node: string, w: World)
    requires r.op.Store? || r.op.Warmup?
    ensures Dead(Written(r, node), w) <==> r.op.Store? && !StillGood(r, w)
  {
  }

  lemma SweptKeeps(index: Index, w: World, fp: int, model: string)
    ensures var key := IdxKey(fp, model); key in Swept(index, w, fp, model) <==> key in index && !Dead(index[key], w)
  {
  }

  /** A query drops the entry of its prompt if and only if a store wrote it that is no longer good. */
  lemma QueryDropsIff(trace: Trace, node: string, w: World, fp: int, model: string)
    requires ValidTrace(trace)
    ensures var o := Origin(trace, fp, model, node, true);
            var after := Apply(Run(map[], trace, node, true), Query(fp, model), w, node, true);
            IdxKey(fp, model) in after <==> o.Some? && (trace[o.value].op.Store? ==> StillGood(trace[o.value], w))
  {
    var o := Origin(trace, fp, model, node, true);
    EntryIsOrigins(trace, node, true, fp, model);
    if o.Some? { DeadIff(trace[o.value], node, w); }
    SweptKeeps(Run(map[], trace, node, true), w, fp, model);
  }

  /** What a warmup reports: the id of the last store of the prompt as ready, or its own as pending. */
  lemma WarmupReportInRequestFields(trace: Trace, node: string, sweep: bool, warmup: Op)
    requires ValidTrace(trace) && warmup.Warmup?
    ensures var o := Origin(trace, warmup.fp, warmup.model, node, sweep);
            WarmupReport(Run(map[], trace, node, sweep), warmup)
            == if o.Some? && trace[o.value].op.Store? then (trace[o.value].op.id, Ready) else (warmup.id, Pending)
  {
    EntryIsOrigins(trace, node, sweep, warmup.fp, warmup.model);
  }

  // ----- what a hit and a warmup promise -------------------------------------------------------

  /** A hit is not a promise of available state: the entry it answers from is ready if and only if the
      prompt was last written by a store. */
  lemma HitIsReadyIffStored(trace: Trace, node: string, w: World, fp: int, model: string)
    requires ValidTrace(trace) && Lookup(Run(map[], trace, node, true), w, node, fp, model).Hit?
    ensures var index, o := Run(map[], trace, node, true), Origin(trace, fp, model, node, true);
            && o.Some? && IdxKey(fp, model) in index
            && (index[IdxKey(fp, model)].status == Ready <==> trace[o.value].op.Store?)
  {
    EntryIsOrigins(trace, node, true, fp, model);
  }

  /** A prompt that was only ever warmed up hits. */
  lemma PendingEntryHits(node: string)
    ensures var trace := [Request(Warmup(7, "m", "r", None, "kv-1"), World(0.0, {}))];
            && ValidTrace(trace)
            && Lookup(Run(map[], trace, node, true), World(1.0, {}), node, 7, "m").Hit?
            && IdxKey(7, "m") in Run(map[], trace, node, true)
            && Run(map[], trace, node, true)[IdxKey(7, "m")].status == Pending
  {
    var warmup := Request(Warmup(7, "m", "r", None, "kv-1"), World(0.0, {}));
    RunAppend(map[], [], warmup, node, true);
    assert [] + [warmup] == [warmup];
    assert Run(map[], [], node, true) == map[];
  }

  /** After a warmup a query of the same moment answers the id the warmup reported, unless the warmup
      reported as ready an entry that is dead: that happens if and only if the prompt was last written by
      a store whose time to live has passed or whose file is gone. */
  lemma WarmupReportsDeadIffStoredDead(trace: Trace, node: string, warmup: Op, w: World)
    requires ValidTrace(trace) && warmup.Warmup?
    ensures var fp, model, index := warmup.fp, warmup.model, Run(map[], trace, node, true);
            var o, report := Origin(trace, fp, model, node, true), WarmupReport(index, warmup);
            var answer := Lookup(Apply(index, warmup, w, node, true), w, node, fp, model);
            && (answer.Hit? ==> answer.cacheId == report.0)
            && (answer.Miss? ==> report.1 == Ready)
            && (answer.Miss? <==> o.Some? && trace[o.value].op.Store? && Dead(Written(trace[o.value], node), w))
  {
    EntryIsOrigins(trace, node, true, warmup.fp, warmup.model);
  }

  /** Such a run: a store that lives one second and a warmup after ten. */
  lemma WarmupReportsDeadEntry(node: string)
    ensures var trace := [Request(Store(7, "m", "r", None, None, None, None, None, Some(1), "kv-1"), World(0.0, {}))];
            var warmup, w := Warmup(7, "m", "r", None, "kv-2"), World(10.0, {});
            && ValidTrace(trace)
            && WarmupReport(Run(map[], trace, node, true), warmup) == ("kv-1", Ready)
            && Lookup(Apply(Run(map[], trace, node, true), warmup, w, node, true), w, node, 7, "m").Miss?
  {
    var store := Request(Store(7, "m", "r", None, None, None, None, None, Some(1), "kv-1"), World(0.0, {}));
    RunAppend(map[], [], store, node, true);
    assert [] + [store] == [store];
    assert Run(map[], [], node, true) == map[];
  }

  // ----- identifiers ---------------------------------------------------------------------------

  function Drawn(op: Op): seq<string> {
    match op
    case Store(_, _, _, _, _, _, _, _, _, id) => [id]
    case Warmup(_, _, _, _, id) => [id]
    case Scan(_, _, _, _, ids) => ids
    case _ => []
  }

  /** Every identifier drawn during the run. */
  function AllDrawn(trace: Trace): seq<string> {
    if trace == [] then [] else AllDrawn(trace[..|trace| - 1]) + Drawn(trace[|trace| - 1].op)
  }

  ghost predicate UniqueIds(index: Index) {
    forall j, k :: j in index && k in index && index[j].cacheId == index[k].cacheId ==> j == k
  }

  ghost predicate IdsFrom(index: Index, ids: seq<string>) {
    forall k :: k in index ==> index[k].cacheId in ids
  }

  lemma AddFresh(index: Index, ids: seq<string>, key: string, e: Entry)
    requires UniqueIds(index) && IdsFrom(index, ids) && e.cacheId !in ids
    ensures UniqueIds(index[key := e]) && IdsFrom(index[key := e], ids + [e.cacheId])
  {
  }

  lemma {:induction false} ScanUnique(index: Index, ids: seq<string>, op: Op, node: string, n: nat)
    requires op.Scan? && n <= |op.listing| == |op.ids|
    requires UniqueIds(index) && IdsFrom(index, ids) && Distinct(ids + op.ids)
    ensures UniqueIds(Scanned(index, op, node, n)) && IdsFrom(Scanned(index, op, node, n), ids + op.ids[..n])
  {
    if n > 0 {
      ScanUnique(index, ids, op, node, n - 1);
      var drawn := ids + op.ids[..n - 1];
      assert ids + op.ids[..n] == drawn + [op.ids[n - 1]];
      assert ids + op.ids == drawn + op.ids[n - 1..];
      DistinctSplit(drawn, op.ids[n - 1..]);
      assert op.ids[n - 1] in op.ids[n - 1..];
      var key := FileKey(op.listing[n - 1]);
      AddFresh(Scanned(index, op, node, n - 1), drawn, key,
               ScannedEntry(op.listing[n - 1], op, op.ids[n - 1], node));
    } else {
      assert ids + op.ids[..0] == ids;
    }
  }

  lemma StepKeepsUnique(index: Index, ids: seq<string>, r: Request, node: string, sweep: bool)
    requires Valid(r.op) && UniqueIds(index) && IdsFrom(index, ids) && Distinct(ids + Drawn(r.op))
    ensures UniqueIds(Apply(index, r.op, r.world, node, sweep))
    ensures IdsFrom(Apply(index, r.op, r.world, node, sweep), ids + Drawn(r.op))
  {
    DistinctSplit(ids, Drawn(r.op));
    match r.op
    case Store(_, _, _, _, _, _, _, _, _, _) =>
      AddFresh(index, ids, IdxKey(r.op.fp, r.op.model), StoredEntry(r.op, r.world.now, node));
    case Warmup(_, _, _, _, _) =>
      AddFresh(index, ids, IdxKey(r.op.fp, r.op.model), PlaceholderEntry(r.op, r.world.now, node));
    case Scan(_, _, _, _, _) =>
      ScanUnique(index, ids, r.op, node, |r.op.listing|);
      assert r.op.ids[..|r.op.listing|] == r.op.ids;
    case Evict(_) =>
    case Query(_, _) =>
  }

  /** With an oracle that never draws an identifier twice, cache ids stay unique in every index a run
      reaches, with deletion on read or without, from any index in which they are. */
  lemma {:induction false} IdsStayUnique(start: Index, ids: seq<string>, trace: Trace, node: string, sweep: bool)
    requires UniqueIds(start) && IdsFrom(start, ids)
    requires ValidTrace(trace) && Distinct(ids + AllDrawn(trace))
    ensures UniqueIds(Run(start, trace, node, sweep))
    ensures IdsFrom(Run(start, trace, node, sweep), ids + AllDrawn(trace))
  {
    if trace == [] {
      assert ids + AllDrawn(trace) == ids;
    } else {
      var init, last := trace[..|trace| - 1], trace[|trace| - 1];
      var before, drawn := Run(start, init, node, sweep), ids + AllDrawn(init);
      assert ids + AllDrawn(trace) == drawn + Drawn(last.op);
      DistinctSplit(drawn, Drawn(last.op));
      IdsStayUnique(start, ids, init, node, sweep);
      StepKeepsUnique(before, drawn, last, node, sweep);
    }
  }

  /** With unique ids an eviction removes exactly the one entry that has the id, or nothing. */
  lemma EvictRemovesOne(index: Index, id: string, k: string)
    requires UniqueIds(index) && k in index && index[k].cacheId == id
    ensures Evicted(index, id) == index - {k} && |Evicted(index, id)| == |index| - 1
  {
    var rest := index - {k};
    assert Evicted(index, id) == rest;
    assert rest.Keys == index.Keys - {k};
  }

  // ----- ready never falls back to pending -----------------------------------------------------

  lemma {:induction false} ScanKeepsEntries(index: Index, op: Op, node: string, n: nat, k: string)
    requires op.Scan? && n <= |op.listing| == |op.ids| && k in index
    ensures k in Scanned(index, op, node, n) && Scanned(index, op, node, n)[k] == index[k]
  {
    if n > 0 { ScanKeepsEntries(index, op, node, n - 1, k); }
  }

  lemma ReadyStays(index: Index, op: Op, w: World, node: string, k: string)
    requires Valid(op) && k in index && index[k].status == Ready && k in Apply(index, op, w, node, true)
    ensures Apply(index, op, w, node, true)[k].status == Ready
  {
    if op.Scan? { ScanKeepsEntries(index, op, node, |op.listing|, k); }
  }

  ghost predicate StepsTo(before: Index, after: Index, r: Request, node: string)
    requires Valid(r.op)
  {
    after == Apply(before, r.op, r.world, node, true)
  }

  /** `states` are the indexes a run passes through, the first and the last included. */
  ghost predicate RunsThrough(states: seq<Index>, trace: Trace, node: string) {
    && ValidTrace(trace) && |states| == |trace| + 1
    && forall n :: 0 <= n < |trace| ==> StepsTo(states[n], states[n + 1], trace[n], node)
  }

  lemma RunsOneFurther(states: seq<Index>, trace: Trace, node: string, r: Request, after: Index)
    requires RunsThrough(states, trace, node) && Valid(r.op) && StepsTo(states[|trace|], after, r, node)
    ensures RunsThrough(states + [after], trace + [r], node)
  {
    var longer := states + [after];
    forall n | 0 <= n < |trace| + 1 ensures StepsTo(longer[n], longer[n + 1], (trace + [r])[n], node) {
      if n < |trace| {
        assert StepsTo(states[n], states[n + 1], trace[n], node);
        assert longer[n] == states[n] && longer[n + 1] == states[n + 1];
      }
    }
  }

  /** Every run passes through such states. */
  lemma {:induction false} StatesOfRun(start: Index, trace: Trace, node: string) returns (states: seq<Index>)
    requires ValidTrace(trace)
    ensures RunsThrough(states, trace, node)
    ensures states[0] == start && states[|trace|] == Run(start, trace, node, true)
  {
    if trace == [] {
      states := [start];
    } else {
      var init, last := trace[..|trace| - 1], trace[|trace| - 1];
      var shorter := StatesOfRun(start, init, node);
      var after := Apply(shorter[|init|], last.op, last.world, node, true);
      RunsOneFurther(shorter, init, node, last, after);
      assert trace == init + [last];
      states := shorter + [after];
    }
  }

  function StatusOf(index: Index, k: string): Option<Status> {
    if k in index then Some(index[k].status) else None
  }

  lemma ReadyThenNotPending(before: Index, after: Index, r: Request, node: string, k: string)
    requires Valid(r.op) && StepsTo(before, after, r, node) && StatusOf(before, k) == Some(Ready)
    ensures StatusOf(after, k) != Some(Pending)
  {
    if k in after { ReadyStays(before, r.op, r.world, node, k); }
  }

  lemma {:induction false} AbsentInBetween(statuses: seq<Option<Status>>, n: nat) returns (d: nat)
    requires n < |statuses| && statuses[0] == Some(Ready) && statuses[n] == Some(Pending)
    requires forall m :: 0 <= m < n && statuses[m] == Some(Ready) ==> statuses[m + 1] != Some(Pending)
    ensures 0 < d < n && statuses[d].None?
    decreases n
  {
    d := n - 1;
    if statuses[d].Some? {
      assert statuses[d].value != Ready;
      d := AbsentInBetween(statuses, d);
    }
  }

  /** If a key is ready at one moment of a run and pending at a later one, its entry was deleted in
      between. */
  lemma PendingAfterReadyNeedsDeletion(states: seq<Index>, trace: Trace, node: string, k: string, i: nat, n: nat)
    returns (d: nat)
    requires RunsThrough(states, trace, node) && i <= n <= |trace|
    requires StatusOf(states[i], k) == Some(Ready) && StatusOf(states[n], k) == Some(Pending)
    ensures i < d < n && k !in states[d]
  {
    var statuses := seq(n - i + 1, m requires 0 <= m <= n - i => StatusOf(states[i + m], k));
    forall m | 0 <= m < n - i && statuses[m] == Some(Ready) ensures statuses[m + 1] != Some(Pending) {
      ReadyThenNotPending(states[i + m], states[i + m + 1], trace[i + m], node, k);
    }
    var m := AbsentInBetween(statuses, n - i);
    d := i + m;
    assert StatusOf(states[d], k) == statuses[m];
  }

  // ----- scanning ------------------------------------------------------------------------------

  /** How many of the first `n` files are imported. */
  function Imported(index: Index, op: Op, node: string, n: nat): nat
    requires op.Scan? && n <= |op.listing| == |op.ids|
  {
    if n == 0 then 0
    else Imported(index, op, node, n - 1)
         + if FileKey(op.listing[n - 1]) in Scanned(index, op, node, n - 1) then 0 else 1
  }

  /** The chunk keys of the first `n` files. */
  function ChunkKeysOf(listing: seq<PtFile>, n: nat): set<string>
    requires n <= |listing|
  {
    if n == 0 then {} else ChunkKeysOf(listing, n - 1) + {FileKey(listing[n - 1])}
  }

  /** A scan adds the chunk keys of its files and no other key. */
  lemma {:induction false} ScannedKeys(index: Index, op: Op, node: string, n: nat)
    requires op.Scan? && n <= |op.listing| == |op.ids|
    ensures Scanned(index, op, node, n).Keys == index.Keys + ChunkKeysOf(op.listing, n)
  {
    if n > 0 {
      ScannedKeys(index, op, node, n - 1);
    }
  }

  /** The import count is the number of entries the scan added: one for each chunk hash that was not
      indexed, however many files share it. */
  lemma {:induction false} ImportedCountsNewEntries(index: Index, op: Op, node: string, n: nat)
    requires op.Scan? && n <= |op.listing| == |op.ids|
    ensures |Scanned(index, op, node, n)| == |index| + Imported(index, op, node, n)
  {
    if n > 0 {
      ImportedCountsNewEntries(index, op, node, n - 1);
    }
  }

  lemma {:induction false} ChunkKeysMember(listing: seq<PtFile>, n: nat, i: nat)
    requires i < n <= |listing|
    ensures FileKey(listing[i]) in ChunkKeysOf(listing, n)
  {
    if i < n - 1 { ChunkKeysMember(listing, n - 1, i); }
  }

  /** Scanning the same files again changes nothing, whatever the identifiers. */
  lemma {:induction false} SecondScanIdle(index: Index, op: Op, again: Op, node: string, n: nat)
    requires op.Scan? && again.Scan? && |op.listing| == |op.ids| == |again.ids| && again.listing == op.listing
    requires n <= |op.listing|
    ensures var once := Scanned(index, op, node, |op.listing|);
            Scanned(once, again, node, n) == once && Imported(once, again, node, n) == 0
  {
    if n > 0 {
      SecondScanIdle(index, op, again, node, n - 1);
      ScannedKeys(index, op, node, |op.listing|);
      ChunkKeysMember(op.listing, |op.listing|, n - 1);
    }
  }

  /** A scan changes the answer to no query. */
  lemma ScanKeepsAnswers(index: Index, op: Op, node: string, w: World, fp: int, model: string)
    requires op.Scan? && |op.listing| == |op.ids|
    ensures Lookup(Scanned(index, op, node, |op.listing|), w, node, fp, model) == Lookup(index, w, node, fp, model)
  {
    ScanKeepsPrompts(index, op, node, fp, model);
  }
}
