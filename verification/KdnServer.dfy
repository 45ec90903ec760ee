/** The request handlers of the KDN server over its two persistent dictionaries.  A handler never awaits,
    so one request is one atomic method call; the clock, the existing files and the drawn identifiers are
    parameters. */
module KdnServer {
  import opened Sequences
  import PD = PersistentDict
  import opened KdnKeys
  import opened KdnIndex
  import KdnDisk
  import KdnHistory
  import KdnSessions
  import Fnv
  import opened Options

  datatype Reply<T> = Ok(value: T) | BadRequest | NotFound

  // ----- sweeping sessions ---------------------------------------------------------------------

  ghost predicate RebuiltKey(e: KdnSessions.Session, ttl: int, now: int, k: string) {
    KdnSessions.Expired(e, ttl, now) && KdnSessions.SessionKey(e.sessionId) == k
  }

  /** `k` is the rebuilt key of an expired session under one of the given keys. */
  ghost predicate RebuiltFrom(sessions: KdnSessions.Sessions, keys: seq<string>, ttl: int, now: int, k: string) {
    exists j :: j in keys && j in sessions && RebuiltKey(sessions[j], ttl, now, k)
  }

  lemma RebuiltStep(sessions: KdnSessions.Sessions, keys: seq<string>, ttl: int, now: int, i: nat)
    requires Distinct(keys) && i < |keys| && keys[i] in sessions
    ensures forall k :: RebuiltFrom(sessions, keys[..i + 1], ttl, now, k)
                        <==> RebuiltFrom(sessions, keys[..i], ttl, now, k) || RebuiltKey(sessions[keys[i]], ttl, now, k)
    ensures KdnSessions.WellKeyed(sessions)
            ==> !RebuiltFrom(sessions, keys[..i], ttl, now, KdnSessions.SessionKey(sessions[keys[i]].sessionId))
  {
    assert keys[..i + 1] == keys[..i] + [keys[i]];
    assert keys[i] !in keys[..i];
  }

  lemma RebuiltFromAll(sessions: KdnSessions.Sessions, keys: seq<string>, ttl: int, now: int, expired: seq<string>)
    requires Elements(keys) == sessions.Keys
    requires forall k :: k in expired <==> RebuiltFrom(sessions, keys, ttl, now, k)
    ensures Elements(expired) == KdnSessions.ExpiredKeys(sessions, ttl, now)
  {
    assert forall j :: j in keys <==> j in Elements(keys);
    forall k ensures k in expired <==> k in KdnSessions.ExpiredKeys(sessions, ttl, now) {
      if k in expired {
        var j :| j in keys && j in sessions && RebuiltKey(sessions[j], ttl, now, k);
      }
      if k in KdnSessions.ExpiredKeys(sessions, ttl, now) {
        var j :| j in sessions && KdnSessions.Expired(sessions[j], ttl, now)
                 && KdnSessions.SessionKey(sessions[j].sessionId) == k;
        assert RebuiltKey(sessions[j], ttl, now, k);
      }
    }
  }

  lemma SweepSize(sessions: KdnSessions.Sessions, ttl: int, now: int)
    requires KdnSessions.WellKeyed(sessions)
    ensures |KdnSessions.AfterSweep(sessions, ttl, now)| == |sessions| - |KdnSessions.ExpiredKeys(sessions, ttl, now)|
  {
    var expired := KdnSessions.ExpiredKeys(sessions, ttl, now);
    assert expired <= sessions.Keys;
    assert KdnSessions.AfterSweep(sessions, ttl, now).Keys == sessions.Keys - expired;
  }

  // ----- counting entries ----------------------------------------------------------------------

  function ReadyAmong(index: Index, keys: seq<string>): set<string> {
    set k | k in keys && k in index && index[k].status == Ready
  }

  lemma ReadyAmongStep(index: Index, keys: seq<string>, i: nat)
    requires Distinct(keys) && i < |keys| && keys[i] in index
    ensures |ReadyAmong(index, keys[..i + 1])|
            == |ReadyAmong(index, keys[..i])| + if index[keys[i]].status == Ready then 1 else 0
  {
    var before, after := ReadyAmong(index, keys[..i]), ReadyAmong(index, keys[..i + 1]);
    assert keys[..i + 1] == keys[..i] + [keys[i]];
    assert keys[i] !in before;
    assert after == if index[keys[i]].status == Ready then before + {keys[i]} else before;
  }

  lemma ReadyAmongAll(index: Index, keys: seq<string>)
    requires Elements(keys) == index.Keys
    ensures ReadyAmong(index, keys) == set k | k in index && index[k].status == Ready
  {
    assert forall k :: k in keys <==> k in Elements(keys);
  }

  class KdnServer {
    const index: PD.PersistentDict<Entry>
    const sessions: PD.PersistentDict<KdnSessions.Session>
    const node: string
    const sessionTtl: int

    ghost predicate Valid() {
      (index as object) != (sessions as object)
    }

    constructor (index: PD.PersistentDict<Entry>,
                 sessions: PD.PersistentDict<KdnSessions.Session>, node: string, sessionTtl: int)
      requires (index as object) != (sessions as object)
      ensures Valid() && this.index == index && this.sessions == sessions
      ensures this.node == node && this.sessionTtl == sessionTtl
    {
      this.index, this.sessions, this.node, this.sessionTtl := index, sessions, node, sessionTtl;
    }

    // ----- sessions ----------------------------------------------------------------------------

    /** `_session_update`. */
    method SessionUpdate(id: string, fp: int, route: string, now: int) returns (overlap: bool)
      modifies sessions
      ensures overlap == KdnSessions.Overlap(old(sessions.data), id, fp)
      ensures sessions.data == KdnSessions.AfterTurn(old(sessions.data), id, fp, route, now)
      ensures KdnDisk.PerformsTurn(old(sessions.Now()), sessions.Now(), id, fp, route, now)
    {
      var key := KdnSessions.SessionKey(id);
      var entry := KdnSessions.Session(id, route, 0, [], 0, now, now);
      if key in sessions.data {
        entry := sessions.data[key];
      }
      var seen := entry.seen;
      overlap := fp in seen;
      if !overlap {
        seen := seen + [fp];
      }
      entry := entry.(seen := seen);
      entry := entry.(turnCount := entry.turnCount + 1);
      entry := entry.(lastSeen := now);
      var stop := sessions.Put(key, entry);
      assert entry == KdnSessions.AfterTurn(old(sessions.data), id, fp, route, now)[key];
      assert sessions.Now() == PD.Step(old(sessions.Now()), PD.Op.Put(key, entry, stop));
    }

    /** The keys of the expired sessions, each rebuilt from the entry itself. */
    method CollectExpired(now: int) returns (expired: seq<string>)
      ensures Elements(expired) == KdnSessions.ExpiredKeys(sessions.data, sessionTtl, now)
      ensures KdnSessions.WellKeyed(sessions.data) ==> Distinct(expired)
    {
      var keys := Enumerate(sessions.data.Keys);
      expired := [];
      for i := 0 to |keys|
        invariant forall k :: k in expired <==> RebuiltFrom(sessions.data, keys[..i], sessionTtl, now, k)
        invariant KdnSessions.WellKeyed(sessions.data) ==> Distinct(expired)
      {
        assert keys[i] in Elements(keys);
        var e := sessions.data[keys[i]];
        RebuiltStep(sessions.data, keys, sessionTtl, now, i);
        if KdnSessions.Expired(e, sessionTtl, now) {
          expired := expired + [KdnSessions.SessionKey(e.sessionId)];
        }
      }
      assert keys[..|keys|] == keys;
      RebuiltFromAll(sessions.data, keys, sessionTtl, now, expired);
    }

    /** Deletes the given keys one by one. */
    method DeleteSessions(keys: seq<string>) returns (ghost stops: KdnDisk.Stops)
      modifies sessions
      ensures |stops| == |keys| && sessions.Now() == PD.Replay(old(sessions.Now()), KdnDisk.DeleteSteps(keys, stops))
      ensures sessions.data == old(sessions.data) - Elements(keys)
    {
      stops := [];
      for i := 0 to |keys|
        invariant |stops| == i
        invariant sessions.Now() == PD.Replay(old(sessions.Now()), KdnDisk.DeleteSteps(keys[..i], stops))
      {
        var found, stop := sessions.Delete(keys[i]);
        KdnDisk.DeleteOneMore(keys[..i], stops, keys[i], stop);
        assert keys[..i + 1] == keys[..i] + [keys[i]];
        stops := stops + [stop];
      }
      assert keys[..|keys|] == keys;
      KdnDisk.DeleteStepsData(old(sessions.Now()), keys, stops);
    }

    /** `_session_evict_expired`: collect the expired keys, then delete them one by one. */
    method SessionEvictExpired(now: int) returns (removed: nat)
      modifies sessions
      ensures sessions.data == KdnSessions.AfterSweep(old(sessions.data), sessionTtl, now)
      ensures KdnSessions.WellKeyed(old(sessions.data)) ==> removed == |old(sessions.data)| - |sessions.data|
      ensures KdnDisk.PerformsSweep(old(sessions.Now()), sessions.Now(), sessionTtl, now)
    {
      var expired := CollectExpired(now);
      ghost var stops := DeleteSessions(expired);
      removed := |expired|;
      if KdnSessions.WellKeyed(old(sessions.data)) {
        DistinctSize(expired);
        SweepSize(old(sessions.data), sessionTtl, now);
      }
    }

    // ----- the index ---------------------------------------------------------------------------

    /** `kdn_query`; the clock is read for the session, in whole seconds, and again for the expiry. */
    method Query(fp: int, model: string, route: string, session: Option<string>, sessionNow: int, w: World)
      returns (answer: Answer)
      requires Valid()
      modifies index, sessions
      ensures answer == Lookup(old(index.data), w, node, fp, model)
      ensures index.data == Apply(old(index.data), Op.Query(fp, model), w, node, true)
      ensures KdnDisk.Performs(old(index.Now()), index.Now(), Request(Op.Query(fp, model), w), node)
      ensures sessions.data == if session.Some? && session.value != ""
                               then KdnSessions.AfterTurn(old(sessions.data), session.value, fp, route, sessionNow)
                               else old(sessions.data)
    {
      if session.Some? && session.value != "" {
        var overlap := SessionUpdate(session.value, fp, route, sessionNow);
      }
      ghost var request := Request(Op.Query(fp, model), w);
      var key := IdxKey(fp, model);
      if key !in index.data {
        KdnDisk.PerformsNothing(index.Now(), request, node);
        return Miss;
      }
      var entry := index.data[key];
      if entry.ttl.Some? && entry.ttl.value != 0 && w.now > entry.createdAt + entry.ttl.value as real {
        var found, stop := index.Delete(key);
        KdnDisk.PerformsOne(old(index.Now()), request, node, PD.Op.Delete(key, stop), stop);
        return Miss;
      }
      if Stale(entry, w) {
        var found, stop := index.Delete(key);
        KdnDisk.PerformsOne(old(index.Now()), request, node, PD.Op.Delete(key, stop), stop);
        return Miss;
      }
      KdnDisk.PerformsNothing(index.Now(), request, node);
      answer := Hit(entry.cacheId, if entry.ttft.Given? then entry.ttft.ms else Some(200),
                    FirstNonEmpty(entry.nodeHint, node));
    }

    /** `_resolve_fingerprint`. */
    method Resolve(fingerprint: Option<int>, prompt: Option<seq<Fnv.byte>>) returns (fp: Option<int>)
      ensures fp == if fingerprint.Some? then fingerprint
                    else if prompt.Some? then Some(Fnv.Fingerprint(prompt.value)) else None
    {
      if fingerprint.Some? { return fingerprint; }
      if prompt.Some? {
        var h := Fnv.ComputeFingerprint(prompt.value);
        return Some(h);
      }
      fp := None;
    }

    /** Writing the entry of a store. */
    method StoreEntry(op: Op, w: World)
      requires op.Store?
      modifies index
      ensures index.data == Apply(old(index.data), op, w, node, true)
      ensures KdnDisk.Performs(old(index.Now()), index.Now(), Request(op, w), node)
    {
      var entry := Entry(op.id, Some(op.fp), op.model, op.routeKey, FirstNonEmpty(op.nodeHint, node), Given(op.ttft),
                         op.chunkHash, op.file, op.sessionId, op.ttl, w.now, Ready);
      var stop := index.Put(IdxKey(op.fp, op.model), entry);
      ghost var step := PD.Op.Put(IdxKey(op.fp, op.model), entry, stop);
      KdnDisk.PerformsOne(old(index.Now()), Request(op, w), node, step, stop);
    }

    /** `kdn_store`; `found` lists the files that match the chunk hash, sorted. */
    method Store(fingerprint: Option<int>, prompt: Option<seq<Fnv.byte>>, model: string, route: string,
                 nodeHint: Option<string>, ttft: Option<int>, chunkHash: Option<string>, file: Option<string>,
                 session: Option<string>, ttl: Option<int>, found: seq<string>, id: string, w: World)
      returns (reply: Reply<Op>)
      modifies index
      ensures reply.BadRequest? <==> fingerprint.None? && prompt.None?
      ensures !reply.NotFound?
      ensures reply.BadRequest? ==> index.Now() == old(index.Now())
      ensures reply.Ok? ==>
                && reply.value == Op.Store(if fingerprint.Some? then fingerprint.value
                                           else Fnv.Fingerprint(prompt.value), model, route, nodeHint, ttft, chunkHash,
                                           if file.None? && chunkHash.Some? && chunkHash.value != "" && found != []
                                           then Some(found[0]) else file,
                                           session, ttl, id)
                && index.data == Apply(old(index.data), reply.value, w, node, true)
                && KdnDisk.Performs(old(index.Now()), index.Now(), Request(reply.value, w), node)
    {
      var fp := Resolve(fingerprint, prompt);
      if fp.None? { return BadRequest; }
      var recorded := file;
      if recorded.None? && chunkHash.Some? && chunkHash.value != "" {
        if found != [] {
          recorded := Some(found[0]);
        }
      }
      var op := Op.Store(fp.value, model, route, nodeHint, ttft, chunkHash, recorded, session, ttl, id);
      StoreEntry(op, w);
      reply := Ok(op);
    }

    /** Leaving a ready entry or writing a placeholder. */
    method WarmupEntry(op: Op, w: World) returns (report: (string, Status))
      requires op.Warmup?
      modifies index
      ensures index.data == Apply(old(index.data), op, w, node, true) && report == WarmupReport(old(index.data), op)
      ensures KdnDisk.Performs(old(index.Now()), index.Now(), Request(op, w), node)
    {
      var key := IdxKey(op.fp, op.model);
      if key in index.data && index.data[key].status == Ready {
        KdnDisk.PerformsNothing(index.Now(), Request(op, w), node);
        return (index.data[key].cacheId, Ready);
      }
      var entry := Entry(op.id, Some(op.fp), op.model, op.routeKey, FirstNonEmpty(None, node), Unset, None, None,
                         op.sessionId, None, w.now, Pending);
      var stop := index.Put(key, entry);
      KdnDisk.PerformsOne(old(index.Now()), Request(op, w), node, PD.Op.Put(key, entry, stop), stop);
      report := (op.id, Pending);
    }

    /** `kdn_warmup`. */
    method Warmup(fingerprint: Option<int>, prompt: Option<seq<Fnv.byte>>, model: string, route: string,
                  session: Option<string>, id: string, w: World)
      returns (reply: Reply<(string, Status)>)
      modifies index
      ensures reply.BadRequest? <==> fingerprint.None? && prompt.None?
      ensures !reply.NotFound?
      ensures reply.BadRequest? ==> index.Now() == old(index.Now())
      ensures reply.Ok? ==>
                var fp := if fingerprint.Some? then fingerprint.value else Fnv.Fingerprint(prompt.value);
                var op := Op.Warmup(fp, model, route, session, id);
                && index.data == Apply(old(index.data), op, w, node, true)
                && reply.value == WarmupReport(old(index.data), op)
                && KdnDisk.Performs(old(index.Now()), index.Now(), Request(op, w), node)
    {
      var fp := Resolve(fingerprint, prompt);
      if fp.None? { return BadRequest; }
      var report := WarmupEntry(Op.Warmup(fp.value, model, route, session, id), w);
      reply := Ok(report);
    }

    /** One turn of the loop over the listing. */
    method ScanFile(op: Op, i: nat, imported: nat, skipped: nat, ghost start: PD.State<Entry>,
                    ghost stops: KdnDisk.Stops)
      returns (imported': nat, skipped': nat, ghost stops': KdnDisk.Stops)
      requires op.Scan? && i < |op.listing| == |op.ids| && |stops| == i
      requires index.Now() == KdnDisk.InScan(start, op, node, stops, i)
      requires imported == KdnHistory.Imported(start.data, op, node, i) && imported + skipped == i
      modifies index
      ensures |stops'| == i + 1 && index.Now() == KdnDisk.InScan(start, op, node, stops', i + 1)
      ensures imported' == KdnHistory.Imported(start.data, op, node, i + 1) && imported' + skipped' == i + 1
    {
      KdnDisk.ScanStepsData(start, op, node, stops, i);
      var f := op.listing[i];
      var key := FileKey(f);
      if key in index.data {
        imported', skipped', stops' := imported, skipped + 1, stops + [PD.Completed];
        KdnDisk.ScanOneMore(start, op, node, stops, PD.Completed);
      } else {
        var stop := index.Put(key, ScannedEntry(f, op, op.ids[i], node));
        imported', skipped', stops' := imported + 1, skipped, stops + [stop];
        KdnDisk.ScanOneMore(start, op, node, stops, stop);
      }
    }

    /** The loop over the listing. */
    method ScanFiles(op: Op) returns (imported: nat, skipped: nat, ghost stops: KdnDisk.Stops)
      requires op.Scan? && |op.listing| == |op.ids|
      modifies index
      ensures |stops| == |op.listing|
      ensures index.Now() == KdnDisk.InScan(old(index.Now()), op, node, stops, |op.listing|)
      ensures imported == KdnHistory.Imported(old(index.data), op, node, |op.listing|)
      ensures imported + skipped == |op.listing|
    {
      imported, skipped, stops := 0, 0, [];
      ghost var start := index.Now();
      for i := 0 to |op.listing|
        invariant |stops| == i && index.Now() == KdnDisk.InScan(start, op, node, stops, i)
        invariant imported == KdnHistory.Imported(start.data, op, node, i) && imported + skipped == i
      {
        imported, skipped, stops := ScanFile(op, i, imported, skipped, start, stops);
      }
    }

    /** `scan_lmcache`: every listed file is either imported or skipped. */
    method ScanLmcache(op: Op, w: World) returns (scanned: nat, imported: nat, skipped: nat)
      requires op.Scan? && |op.listing| == |op.ids|
      modifies index
      ensures index.data == Scanned(old(index.data), op, node, |op.listing|)
      ensures imported == KdnHistory.Imported(old(index.data), op, node, |op.listing|)
      ensures imported + skipped == scanned == |op.listing|
      ensures KdnDisk.Performs(old(index.Now()), index.Now(), Request(op, w), node)
    {
      ghost var stops;
      imported, skipped, stops := ScanFiles(op);
      KdnDisk.ScanStepsData(old(index.Now()), op, node, stops, |op.listing|);
      KdnDisk.PerformsScan(old(index.Now()), op, node, stops, w);
      scanned := |op.listing|;
    }

    /** `find_key_by("cache_id", id)`: the first entry, in some order, that has the id. */
    method FindKeyById(id: string) returns (key: Option<string>)
      ensures key.Some? ==> key.value in index.data && index.data[key.value].cacheId == id
      ensures key.None? ==> forall k :: k in index.data ==> index.data[k].cacheId != id
    {
      var keys := Enumerate(index.data.Keys);
      for i := 0 to |keys|
        invariant forall j :: 0 <= j < i ==> keys[j] in index.data && index.data[keys[j]].cacheId != id
      {
        assert keys[i] in Elements(keys);
        if index.data[keys[i]].cacheId == id { return Some(keys[i]); }
      }
      forall k | k in index.data ensures index.data[k].cacheId != id {
        assert k in Elements(keys);
      }
      key := None;
    }

    /** `kdn_evict`: with unique ids, exactly the entry with that id goes. */
    method EvictEntry(id: string) returns (reply: Reply<string>)
      modifies index
      ensures reply.NotFound? <==> forall k :: k in old(index.data) ==> old(index.data)[k].cacheId != id
      ensures reply.NotFound? ==> index.data == old(index.data)
      ensures !reply.NotFound? ==>
                && reply == Ok(id)
                && exists k :: k in old(index.data) && old(index.data)[k].cacheId == id
                               && index.data == old(index.data) - {k}
      ensures KdnHistory.UniqueIds(old(index.data)) ==>
                && index.data == Evicted(old(index.data), id)
                && forall w :: KdnDisk.Performs(old(index.Now()), index.Now(), Request(Op.Evict(id), w), node)
    {
      var key := FindKeyById(id);
      if key.None? {
        KdnDisk.PerformsNoEviction(index.Now(), id, node);
        assert Evicted(index.data, id) == index.data;
        return NotFound;
      }
      var found, stop := index.Delete(key.value);
      if KdnHistory.UniqueIds(old(index.data)) {
        KdnHistory.EvictRemovesOne(old(index.data), id, key.value);
        KdnDisk.PerformsEviction(old(index.Now()), id, node, key.value, stop);
      }
      reply := Ok(id);
    }

    /** `kdn_stats`: every entry is counted as ready or as pending. */
    method Stats() returns (total: nat, ready: nat, pending: nat)
      ensures total == |index.data| && ready + pending == total
      ensures ready == |set k | k in index.data && index.data[k].status == Ready|
    {
      total, ready, pending := |index.data|, 0, 0;
      var keys := Enumerate(index.data.Keys);
      DistinctSize(keys);
      for i := 0 to |keys|
        invariant ready + pending == i && ready == |ReadyAmong(index.data, keys[..i])|
      {
        assert keys[i] in Elements(keys);
        ReadyAmongStep(index.data, keys, i);
        if index.data[keys[i]].status == Ready {
          ready := ready + 1;
        } else {
          pending := pending + 1;
        }
      }
      assert keys[..|keys|] == keys;
      ReadyAmongAll(index.data, keys);
    }
  }
}
