/** `kdn_query` deletes the dead entries it finds.  When that can be seen: every run is compared with the
    same run on an index whose queries delete nothing, prompt by prompt, by the origins of the two
    entries. */
module KdnSweep {
  import opened KdnHistory
  import opened KdnIndex
  import opened KdnKeys
  import opened Options
  import opened Sequences

  /** The origin of the prompt's entry in the index as it is, and in one that never deletes on read. */
  ghost function SweptOrigin(trace: Trace, fp: int, model: string, node: string): Option<nat> {
    Origin(trace, fp, model, node, true)
  }

  ghost function FullOrigin(trace: Trace, fp: int, model: string, node: string): Option<nat> {
    Origin(trace, fp, model, node, false)
  }

  /** A query that follows the run is answered alike by both. */
  ghost predicate AnsweredAlike(trace: Trace, node: string, w: World, fp: int, model: string)
    requires ValidTrace(trace)
  {
    Lookup(Run(map[], trace, node, true), w, node, fp, model)
    == Lookup(Run(map[], trace, node, false), w, node, fp, model)
  }

  /** Request `i` is a warmup of the prompt that met a ready entry in the index that never deletes. */
  ghost predicate MetReady(trace: Trace, i: nat, fp: int, model: string, node: string)
    requires ValidTrace(trace) && i < |trace|
  {
    trace[i].op.Warmup? && AlreadyReady(Run(map[], trace[..i], node, false), fp, model)
  }

  // ----- how the two origins part --------------------------------------------------------------

  lemma PlaceholderNeverDead(r: Request, node: string, w: World)
    requires r.op.Warmup?
    ensures !Dead(Written(r, node), w)
  {
  }

  lemma ReadyIffStored(trace: Trace, fp: int, model: string, node: string)
    requires ValidTrace(trace)
    ensures var o := FullOrigin(trace, fp, model, node);
            AlreadyReady(Run(map[], trace, node, false), fp, model) <==> o.Some? && trace[o.value].op.Store?
  {
    EntryIsOrigins(trace, node, false, fp, model);
  }

  /** Where the prompt has an entry, the two indexes hold the same one, unless a warmup wrote it over an
      entry that only the other index still had as ready. */
  lemma {:induction false} SameOriginIff(trace: Trace, fp: int, model: string, node: string)
    requires ValidTrace(trace)
    ensures var o := SweptOrigin(trace, fp, model, node);
            o.Some? ==> (o == FullOrigin(trace, fp, model, node) <==> !MetReady(trace, o.value, fp, model, node))
  {
    if trace != [] {
      var init, last := trace[..|trace| - 1], trace[|trace| - 1];
      SameOriginIff(init, fp, model, node);
      ReadyIffStored(init, fp, model, node);
      var o, before := SweptOrigin(trace, fp, model, node), SweptOrigin(init, fp, model, node);
      if before.Some? { assert init[..before.value] == trace[..before.value]; }
      if Asks(last.op, fp, model) && before.Some? && init[before.value].op.Warmup? {
        PlaceholderNeverDead(init[before.value], node, last.world);
      }
    }
  }

  /** Request `j` is a query of the prompt that found what request `k` wrote dead. */
  ghost predicate FoundDead(trace: Trace, k: nat, j: nat, fp: int, model: string, node: string) {
    && k < j < |trace| && Writes(trace[k].op, fp, model) && trace[k].op.Store?
    && Asks(trace[j].op, fp, model) && Dead(Written(trace[k], node), trace[j].world)
  }

  /** A store is the origin in both indexes, or in the one without deletion alone. */
  lemma StoreOriginShared(trace: Trace, fp: int, model: string, node: string)
    requires ValidTrace(trace)
    ensures var o := SweptOrigin(trace, fp, model, node);
            o.Some? && trace[o.value].op.Store? ==> o == FullOrigin(trace, fp, model, node)
  {
    SameOriginIff(trace, fp, model, node);
  }

  /** An entry that only the index without deletion still holds was stored, and then found dead by a query
      of its prompt. */
  lemma {:induction false} PartedByQuery(trace: Trace, fp: int, model: string, node: string) returns (j: nat)
    requires ValidTrace(trace)
    requires FullOrigin(trace, fp, model, node).Some?
    requires SweptOrigin(trace, fp, model, node) != FullOrigin(trace, fp, model, node)
    ensures FoundDead(trace, FullOrigin(trace, fp, model, node).value, j, fp, model, node)
  {
    var init, last := trace[..|trace| - 1], trace[|trace| - 1];
    var o, f := SweptOrigin(init, fp, model, node), FullOrigin(init, fp, model, node);
    if o == f {
      if last.op.Query? && init[f.value].op.Warmup? {
        PlaceholderNeverDead(init[f.value], node, last.world);
      }
      j := |init|;
    } else {
      StoreOriginShared(init, fp, model, node);
      j := PartedByQuery(init, fp, model, node);
    }
  }

  // ----- every run -----------------------------------------------------------------------------

  lemma {:induction false} DrawnMember(trace: Trace, i: nat, id: string)
    requires i < |trace| && id in Drawn(trace[i].op)
    ensures id in AllDrawn(trace)
  {
    if i < |trace| - 1 { DrawnMember(trace[..|trace| - 1], i, id); }
  }

  lemma {:induction false} WritersApart(trace: Trace, node: string, i: nat, j: nat)
    requires Distinct(AllDrawn(trace)) && i < j < |trace|
    requires (trace[i].op.Store? || trace[i].op.Warmup?) && (trace[j].op.Store? || trace[j].op.Warmup?)
    ensures Written(trace[i], node).cacheId != Written(trace[j], node).cacheId
  {
    var init, last := trace[..|trace| - 1], trace[|trace| - 1];
    DistinctSplit(AllDrawn(init), Drawn(last.op));
    if j < |init| {
      WritersApart(init, node, i, j);
    } else {
      assert Written(last, node).cacheId in Drawn(last.op);
      DrawnMember(init, i, Written(trace[i], node).cacheId);
    }
  }

  lemma OriginsApart(trace: Trace, node: string, i: nat, j: nat)
    requires Distinct(AllDrawn(trace)) && i < |trace| && j < |trace| && i != j
    requires (trace[i].op.Store? || trace[i].op.Warmup?) && (trace[j].op.Store? || trace[j].op.Warmup?)
    ensures AnswerFrom(Written(trace[i], node), node) != AnswerFrom(Written(trace[j], node), node)
  {
    if i < j {
      WritersApart(trace, node, i, j);
    } else {
      WritersApart(trace, node, j, i);
    }
  }

  /** In every run with fresh identifiers, whatever the clock and the files do, a query is answered alike
      if and only if the two origins are the same, or the prompt has lost an entry that is dead at the
      moment of the query. */
  lemma AnsweredAlikeIff(trace: Trace, node: string, w: World, fp: int, model: string)
    requires ValidTrace(trace) && Distinct(AllDrawn(trace))
    ensures var o, f := SweptOrigin(trace, fp, model, node), FullOrigin(trace, fp, model, node);
            AnsweredAlike(trace, node, w, fp, model)
            <==> o == f || (o.None? && Dead(Written(trace[f.value], node), w))
  {
    var o, f := SweptOrigin(trace, fp, model, node), FullOrigin(trace, fp, model, node);
    HitComesFromOrigin(trace, node, true, w, fp, model);
    HitComesFromOrigin(trace, node, false, w, fp, model);
    if o.Some? && o != f {
      SameOriginIff(trace, fp, model, node);
      PlaceholderNeverDead(trace[o.value], node, w);
      if f.Some? {
        OriginsApart(trace, node, o.value, f.value);
      }
    }
  }

  // ----- runs in which time passes -------------------------------------------------------------

  /** No request of the run is later than the query: the clock has not run backwards. */
  ghost predicate Chronological(trace: Trace, w: World) {
    forall i :: 0 <= i < |trace| ==> trace[i].world.now <= w.now
  }

  /** If a query of the prompt found the file of its stored entry missing, the file is missing now. */
  ghost predicate StaysGone(trace: Trace, node: string, w: World, fp: int, model: string) {
    var f := FullOrigin(trace, fp, model, node);
    forall j: nat :: f.Some? && FoundDead(trace, f.value, j, fp, model, node)
                && Stale(Written(trace[f.value], node), trace[j].world)
                ==> Stale(Written(trace[f.value], node), w)
  }

  lemma PartedStaysDead(trace: Trace, node: string, w: World, fp: int, model: string)
    requires ValidTrace(trace) && Chronological(trace, w) && StaysGone(trace, node, w, fp, model)
    requires FullOrigin(trace, fp, model, node).Some?
    requires SweptOrigin(trace, fp, model, node) != FullOrigin(trace, fp, model, node)
    ensures Dead(Written(trace[FullOrigin(trace, fp, model, node).value], node), w)
  {
    var j := PartedByQuery(trace, fp, model, node);
    assert trace[j].world.now <= w.now;
  }

  /** Deletion on read is visible to a query if and only if the prompt's entry is the placeholder of a
      warmup that, without deletion, would have found a ready entry.  For every run in which the clock does
      not run backwards and the prompt's missing file does not come back. */
  lemma AnsweredAlikeIffNotRewarmed(trace: Trace, node: string, w: World, fp: int, model: string)
    requires ValidTrace(trace) && Chronological(trace, w) && StaysGone(trace, node, w, fp, model)
    ensures var o := SweptOrigin(trace, fp, model, node);
            AnsweredAlike(trace, node, w, fp, model)
            <==> !(o.Some? && MetReady(trace, o.value, fp, model, node))
  {
    var o, f := SweptOrigin(trace, fp, model, node), FullOrigin(trace, fp, model, node);
    HitComesFromOrigin(trace, node, true, w, fp, model);
    HitComesFromOrigin(trace, node, false, w, fp, model);
    SameOriginIff(trace, fp, model, node);
    if o != f && f.Some? {
      PartedStaysDead(trace, node, w, fp, model);
    }
    if o.Some? && o != f {
      PlaceholderNeverDead(trace[o.value], node, w);
    }
  }

  /** A warmup that wrote the prompt's entry met no ready one. */
  lemma {:induction false} WriterFoundNone(trace: Trace, fp: int, model: string, node: string)
    requires ValidTrace(trace)
    ensures var o := SweptOrigin(trace, fp, model, node);
            o.Some? && trace[o.value].op.Warmup?
            ==> !AlreadyReady(Run(map[], trace[..o.value], node, true), fp, model)
  {
    if trace != [] {
      var init := trace[..|trace| - 1];
      WriterFoundNone(init, fp, model, node);
      EntryIsOrigins(init, node, true, fp, model);
      var before := SweptOrigin(init, fp, model, node);
      if before.Some? { assert init[..before.value] == trace[..before.value]; }
    }
  }

  /** So deletion on read is invisible to every prompt none of whose warmups followed the loss of its
      entry: each of them met a ready entry in both indexes or in neither. */
  lemma SweepingIsInvisible(trace: Trace, node: string, w: World, fp: int, model: string)
    requires ValidTrace(trace) && Chronological(trace, w) && StaysGone(trace, node, w, fp, model)
    requires forall i :: 0 <= i < |trace| && Writes(trace[i].op, fp, model) && MetReady(trace, i, fp, model, node)
                         ==> AlreadyReady(Run(map[], trace[..i], node, true), fp, model)
    ensures AnsweredAlike(trace, node, w, fp, model)
  {
    AnsweredAlikeIffNotRewarmed(trace, node, w, fp, model);
    var o := SweptOrigin(trace, fp, model, node);
    if o.Some? && trace[o.value].op.Warmup? {
      WriterFoundNone(trace, fp, model, node);
    }
  }

  /** A recorded file exists, and the time to live has not passed. */
  predicate FileIsThere(e: Entry, w: World) {
    e.file.Some? && e.file.value != "" && e.file.value in w.files && !Expired(e, w)
  }

  /** A prompt that has lost its entry is answered otherwise if and only if the file of that entry is back
      and its time to live has not passed. */
  lemma LostEntryShowsIffFileIsBack(trace: Trace, node: string, w: World, fp: int, model: string)
    requires ValidTrace(trace) && Chronological(trace, w)
    requires SweptOrigin(trace, fp, model, node).None? && FullOrigin(trace, fp, model, node).Some?
    ensures !AnsweredAlike(trace, node, w, fp, model)
            <==> FileIsThere(Written(trace[FullOrigin(trace, fp, model, node).value], node), w)
  {
    HitComesFromOrigin(trace, node, true, w, fp, model);
    HitComesFromOrigin(trace, node, false, w, fp, model);
    var j := PartedByQuery(trace, fp, model, node);
    assert trace[j].world.now <= w.now;
  }

  /** Both ways together, for every run with fresh identifiers and a clock that does not run backwards:
      deletion on read shows if and only if the prompt's placeholder was written over an entry that would
      have been ready, or the prompt has no entry and the file of the one it lost is back in time. */
  lemma DeletionShowsIff(trace: Trace, node: string, w: World, fp: int, model: string)
    requires ValidTrace(trace) && Distinct(AllDrawn(trace)) && Chronological(trace, w)
    ensures var o, f := SweptOrigin(trace, fp, model, node), FullOrigin(trace, fp, model, node);
            !AnsweredAlike(trace, node, w, fp, model)
            <==> if o.Some? then MetReady(trace, o.value, fp, model, node)
                 else f.Some? && FileIsThere(Written(trace[f.value], node), w)
  {
    AnsweredAlikeIff(trace, node, w, fp, model);
    SameOriginIff(trace, fp, model, node);
    var o, f := SweptOrigin(trace, fp, model, node), FullOrigin(trace, fp, model, node);
    if o.None? && f.Some? {
      LostEntryShowsIffFileIsBack(trace, node, w, fp, model);
    }
  }

  // ----- both exceptions occur -----------------------------------------------------------------

  function AfterThree(first: Request, second: Request, third: Request, node: string, sweep: bool): Index
    requires Valid(first.op) && Valid(second.op) && Valid(third.op)
  {
    var one := Apply(map[], first.op, first.world, node, sweep);
    var two := Apply(one, second.op, second.world, node, sweep);
    Apply(two, third.op, third.world, node, sweep)
  }

  lemma ThreeSteps(first: Request, second: Request, third: Request, node: string) returns (trace: Trace)
    requires Valid(first.op) && Valid(second.op) && Valid(third.op)
    ensures trace == [first, second, third] && ValidTrace(trace)
    ensures forall sweep :: Run(map[], trace, node, sweep) == AfterThree(first, second, third, node, sweep)
  {
    trace := [first, second, third];
    forall sweep ensures Run(map[], trace, node, sweep) == AfterThree(first, second, third, node, sweep) {
      RunAppend(map[], [], first, node, sweep);
      RunAppend(map[], [] + [first], second, node, sweep);
      RunAppend(map[], [] + [first] + [second], third, node, sweep);
      assert [] + [first] + [second] + [third] == trace;
    }
  }

  /** A store that lives one second, a query after ten, a warmup: the next query differs. */
  lemma WarmupAfterDropShows(node: string) returns (trace: Trace, w: World)
    ensures ValidTrace(trace) && Chronological(trace, w)
    ensures Lookup(Run(map[], trace, node, true), w, node, 7, "m").Hit?
    ensures Lookup(Run(map[], trace, node, false), w, node, 7, "m").Miss?
  {
    var store := Store(7, "m", "r", None, None, None, None, None, Some(1), "kv-1");
    var warmup := Warmup(7, "m", "r", None, "kv-2");
    w := World(10.0, {});
    var first, second, third := Request(store, World(0.0, {})), Request(Query(7, "m"), w), Request(warmup, w);
    trace := ThreeSteps(first, second, third, node);
  }

  /** A store whose file is missing, a query, and the file appears: the next query differs. */
  lemma FileComingBackShows(node: string) returns (trace: Trace, w: World)
    ensures ValidTrace(trace) && Chronological(trace, w)
    ensures Lookup(Run(map[], trace, node, true), w, node, 7, "m").Miss?
    ensures Lookup(Run(map[], trace, node, false), w, node, 7, "m").Hit?
  {
    var store := Store(7, "m", "r", None, None, None, Some("f.pt"), None, None, "kv-1");
    var gone := World(0.0, {});
    w := World(0.0, {"f.pt"});
    var first, second, third := Request(store, gone), Request(Query(7, "m"), gone), Request(Query(8, "m"), gone);
    KeyInjective(7, "m", 8, "m");
    trace := ThreeSteps(first, second, third, node);
  }
}
