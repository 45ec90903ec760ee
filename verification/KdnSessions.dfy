/** The session tracker of the KDN server as a value, and its meaning in terms of the history of turns. */
module KdnSessions {
  import opened FirstSeen
  import opened Options
  import opened Sequences

  datatype Session = Session(
    sessionId: string,
    routeKey: string,
    turnCount: int,
    seen: seq<int>,
    consecutiveFailures: int,
    createdAt: int,
    lastSeen: int)

  type Sessions = map<string, Session>

  function SessionKey(id: string): string {
    "sess:" + id
  }

  lemma SessionKeyInjective(a: string, b: string)
    ensures SessionKey(a) == SessionKey(b) <==> a == b
  {
    assert SessionKey(a)[5..] == a && SessionKey(b)[5..] == b;
  }

  // ----- one turn, one sweep -------------------------------------------------------------------

  function Current(sessions: Sessions, id: string, route: string, now: int): Session {
    if SessionKey(id) in sessions then sessions[SessionKey(id)] else Session(id, route, 0, [], 0, now, now)
  }

  /** What `_session_update` returns. */
  predicate Overlap(sessions: Sessions, id: string, fp: int) {
    SessionKey(id) in sessions && fp in sessions[SessionKey(id)].seen
  }

  function AfterTurn(sessions: Sessions, id: string, fp: int, route: string, now: int): Sessions {
    var e := Current(sessions, id, route, now);
    sessions[SessionKey(id) := e.(seen := if fp in e.seen then e.seen else e.seen + [fp],
                                  turnCount := e.turnCount + 1,
                                  lastSeen := now)]
  }

  predicate Expired(e: Session, ttl: int, now: int) {
    e.lastSeen + ttl < now
  }

  /** The keys `_session_evict_expired` deletes, rebuilt from the entries themselves. */
  function ExpiredKeys(sessions: Sessions, ttl: int, now: int): set<string> {
    set k | k in sessions && Expired(sessions[k], ttl, now) :: SessionKey(sessions[k].sessionId)
  }

  function AfterSweep(sessions: Sessions, ttl: int, now: int): Sessions {
    sessions - ExpiredKeys(sessions, ttl, now)
  }

  // ----- histories -----------------------------------------------------------------------------

  datatype Event = Turn(id: string, fp: int, route: string, now: int) | Sweep(now: int)

  function Run(events: seq<Event>, ttl: int): Sessions {
    if events == [] then map[]
    else
      var before, e := Run(events[..|events| - 1], ttl), events[|events| - 1];
      match e
      case Turn(id, fp, route, now) => AfterTurn(before, id, fp, route, now)
      case Sweep(now) => AfterSweep(before, ttl, now)
  }

  /** When session `id` last had a turn (0 if never). */
  function LastTurn(events: seq<Event>, id: string): int {
    if events == [] then 0
    else
      var e := events[|events| - 1];
      if e.Turn? && e.id == id then e.now else LastTurn(events[..|events| - 1], id)
  }

  /** The fingerprints of the turns of session `id` since it was last evicted, told from the history: a
      sweep ends the session when its last turn is more than `ttl` seconds old. */
  function Live(events: seq<Event>, ttl: int, id: string): seq<int> {
    if events == [] then []
    else
      var init, e := events[..|events| - 1], events[|events| - 1];
      match e
      case Turn(i, fp, _, _) => if i == id then Live(init, ttl, id) + [fp] else Live(init, ttl, id)
      case Sweep(now) => if LastTurn(init, id) + ttl < now then [] else Live(init, ttl, id)
  }

  ghost predicate WellKeyed(sessions: Sessions) {
    forall k :: k in sessions ==> k == SessionKey(sessions[k].sessionId)
  }

  lemma {:induction false} RunWellKeyed(events: seq<Event>, ttl: int)
    ensures WellKeyed(Run(events, ttl))
  {
    if events != [] {
      RunWellKeyed(events[..|events| - 1], ttl);
    }
  }

  /** An entry tells the history of its session. */
  ghost predicate Tells(sessions: Sessions, id: string, live: seq<int>, last: int) {
    && (SessionKey(id) in sessions <==> live != [])
    && (SessionKey(id) in sessions ==>
          var e := sessions[SessionKey(id)];
          e.sessionId == id && e.seen == Dedup(live) && e.turnCount == |live| && e.lastSeen == last)
  }

  lemma TurnTells(sessions: Sessions, id: string, live: seq<int>, last: int, fp: int, route: string, now: int)
    requires Tells(sessions, id, live, last)
    ensures Tells(AfterTurn(sessions, id, fp, route, now), id, live + [fp], now)
  {
    DedupMembers(live);
    AppendOne(live, fp);
    assert Dedup<int>([]) == [];
  }

  lemma SweepTells(sessions: Sessions, id: string, live: seq<int>, last: int, ttl: int, now: int)
    requires WellKeyed(sessions) && Tells(sessions, id, live, last)
    ensures Tells(AfterSweep(sessions, ttl, now), id, if last + ttl < now then [] else live, last)
  {
    var key := SessionKey(id);
    if key in sessions {
      assert key in ExpiredKeys(sessions, ttl, now) <==> Expired(sessions[key], ttl, now) by {
        forall k | k in sessions && SessionKey(sessions[k].sessionId) == key ensures k == key {}
      }
    }
  }

  /** Over any interleaving of sessions and sweeps, each entry holds exactly what happened in its own
      session since it was last evicted: its distinct fingerprints, its turns and its last turn. */
  lemma {:induction false} SessionTellsHistory(events: seq<Event>, ttl: int, id: string)
    ensures Tells(Run(events, ttl), id, Live(events, ttl, id), LastTurn(events, id))
  {
    if events != [] {
      var init, e := events[..|events| - 1], events[|events| - 1];
      SessionTellsHistory(init, ttl, id);
      match e
      case Turn(i, fp, route, now) =>
        SessionKeyInjective(i, id);
        if i == id {
          TurnTells(Run(init, ttl), id, Live(init, ttl, id), LastTurn(init, id), fp, route, now);
        }
      case Sweep(now) =>
        RunWellKeyed(init, ttl);
        SweepTells(Run(init, ttl), id, Live(init, ttl, id), LastTurn(init, id), ttl, now);
    }
  }

  /** The first turn of session `id` since it was last evicted. */
  function Opening(events: seq<Event>, ttl: int, id: string): (o: Option<Event>)
    ensures o.Some? ==> o.value.Turn? && o.value.id == id && o.value in events
  {
    if events == [] then None
    else
      var init, e := events[..|events| - 1], events[|events| - 1];
      var before := Opening(init, ttl, id);
      match e
      case Turn(i, _, _, _) => if i == id && before.None? then Some(e) else before
      case Sweep(now) => if LastTurn(init, id) + ttl < now then None else before
  }

  lemma SweptIff(sessions: Sessions, id: string, ttl: int, now: int)
    requires WellKeyed(sessions) && SessionKey(id) in sessions
    ensures SessionKey(id) in ExpiredKeys(sessions, ttl, now) <==> sessions[SessionKey(id)].lastSeen + ttl < now
  {
    var key := SessionKey(id);
    forall k | k in sessions && SessionKey(sessions[k].sessionId) == key ensures k == key {}
    if Expired(sessions[key], ttl, now) { assert SessionKey(sessions[key].sessionId) == key; }
  }

  /** An entry keeps the route and the time of the turn that opened it, and never counts a failure. */
  lemma {:induction false} EntryKeepsOpening(events: seq<Event>, ttl: int, id: string)
    ensures var sessions, o := Run(events, ttl), Opening(events, ttl, id);
            && (SessionKey(id) in sessions <==> o.Some?)
            && (o.Some? ==> var e := sessions[SessionKey(id)];
                            e.routeKey == o.value.route && e.createdAt == o.value.now && e.consecutiveFailures == 0)
  {
    if events != [] {
      var init, e := events[..|events| - 1], events[|events| - 1];
      EntryKeepsOpening(init, ttl, id);
      match e
      case Turn(i, fp, route, now) => SessionKeyInjective(i, id);
      case Sweep(now) =>
        RunWellKeyed(init, ttl);
        SessionTellsHistory(init, ttl, id);
        if SessionKey(id) in Run(init, ttl) { SweptIff(Run(init, ttl), id, ttl, now); }
    }
  }

  /** A turn is reported as an overlap if and only if its fingerprint occurred in an earlier turn of the
      same session since that session was last evicted. */
  lemma OverlapIffSeenBefore(events: seq<Event>, ttl: int, id: string, fp: int)
    ensures Overlap(Run(events, ttl), id, fp) <==> fp in Live(events, ttl, id)
  {
    SessionTellsHistory(events, ttl, id);
    DedupMembers(Live(events, ttl, id));
  }

  // ----- the documented reading ----------------------------------------------------------------

  /** Event `i` is a turn of session `id` with the fingerprint. */
  ghost predicate TurnAt(events: seq<Event>, i: nat, id: string, fp: int) {
    i < |events| && events[i].Turn? && events[i].id == id && events[i].fp == fp
  }

  /** Event `j` is a sweep that evicts session `id`, if there is anything to evict. */
  ghost predicate EvictsAt(events: seq<Event>, j: nat, ttl: int, id: string) {
    j < |events| && events[j].Sweep? && LastTurn(events[..j], id) + ttl < events[j].now
  }

  ghost predicate SurvivingTurnAt(events: seq<Event>, i: nat, ttl: int, id: string, fp: int) {
    TurnAt(events, i, id, fp) && forall j: nat :: i < j ==> !EvictsAt(events, j, ttl, id)
  }

  lemma EvictsAtPrefix(events: seq<Event>, j: nat, ttl: int, id: string)
    requires j < |events| - 1
    ensures EvictsAt(events[..|events| - 1], j, ttl, id) == EvictsAt(events, j, ttl, id)
  {
    assert events[..|events| - 1][..j] == events[..j];
  }

  lemma SurvivesOneMore(events: seq<Event>, i: nat, ttl: int, id: string, fp: int)
    requires i < |events| - 1
    ensures SurvivingTurnAt(events, i, ttl, id, fp)
            <==> SurvivingTurnAt(events[..|events| - 1], i, ttl, id, fp) && !EvictsAt(events, |events| - 1, ttl, id)
  {
    var init := events[..|events| - 1];
    if SurvivingTurnAt(events, i, ttl, id, fp) {
      forall j: nat | i < j ensures !EvictsAt(init, j, ttl, id) {
        if j < |init| { EvictsAtPrefix(events, j, ttl, id); }
      }
    }
    if SurvivingTurnAt(init, i, ttl, id, fp) && !EvictsAt(events, |init|, ttl, id) {
      forall j: nat | i < j ensures !EvictsAt(events, j, ttl, id) {
        if j < |init| { EvictsAtPrefix(events, j, ttl, id); }
      }
    }
  }

  /** The live fingerprints are those of the turns after which no sweep evicted the session. */
  lemma {:induction false} LiveIffSurviving(events: seq<Event>, ttl: int, id: string, fp: int)
    ensures fp in Live(events, ttl, id) <==> exists i: nat :: SurvivingTurnAt(events, i, ttl, id, fp)
  {
    if events != [] {
      var init, e := events[..|events| - 1], events[|events| - 1];
      LiveIffSurviving(init, ttl, id, fp);
      assert events[..|init|] == init;
      if TurnAt(events, |init|, id, fp) {
        assert SurvivingTurnAt(events, |init|, ttl, id, fp);
      }
      if i: nat :| SurvivingTurnAt(init, i, ttl, id, fp) { SurvivesOneMore(events, i, ttl, id, fp); }
      if i: nat :| SurvivingTurnAt(events, i, ttl, id, fp) {
        if i < |init| { SurvivesOneMore(events, i, ttl, id, fp); }
      }
    }
  }

  /** A turn is an overlap if and only if an earlier turn of the session had its fingerprint and no sweep
      since has evicted the session. */
  lemma OverlapIffSurviving(events: seq<Event>, ttl: int, id: string, fp: int)
    ensures Overlap(Run(events, ttl), id, fp) <==> exists i: nat :: SurvivingTurnAt(events, i, ttl, id, fp)
  {
    OverlapIffSeenBefore(events, ttl, id, fp);
    LiveIffSurviving(events, ttl, id, fp);
  }

  ghost predicate OccurredInSession(events: seq<Event>, id: string, fp: int) {
    exists i: nat :: TurnAt(events, i, id, fp)
  }

  /** The documentation calls a turn an overlap if its fingerprint occurred in the session at all.  That is
      what is reported, if and only if the fingerprint never occurred, or occurred after the last sweep that
      evicted the session. */
  lemma DocumentedReadingIff(events: seq<Event>, ttl: int, id: string, fp: int)
    ensures (Overlap(Run(events, ttl), id, fp) <==> OccurredInSession(events, id, fp))
            <==> !OccurredInSession(events, id, fp) || exists i: nat :: SurvivingTurnAt(events, i, ttl, id, fp)
  {
    OverlapIffSurviving(events, ttl, id, fp);
  }

  /** A run in which the two differ: a turn, a sweep that evicts the session, the same fingerprint again. */
  lemma RepeatAfterEvictionIsNoOverlap()
    ensures var events := [Turn("s", 7, "r", 0), Sweep(10)];
            OccurredInSession(events, "s", 7) && !Overlap(Run(events, 5), "s", 7)
  {
    var events := [Turn("s", 7, "r", 0), Sweep(10)];
    assert TurnAt(events, 0, "s", 7);
    assert events[..1] == [Turn("s", 7, "r", 0)];
    assert EvictsAt(events, 1, 5, "s");
    OverlapIffSurviving(events, 5, "s", 7);
  }

  // ----- counting overlaps ---------------------------------------------------------------------

  /** How many turns of session `id` were reported as overlaps since it was last evicted. */
  function Reported(events: seq<Event>, ttl: int, id: string): nat {
    if events == [] then 0
    else
      var init, e := events[..|events| - 1], events[|events| - 1];
      var before := Reported(init, ttl, id);
      match e
      case Turn(i, fp, _, _) => if i == id && Overlap(Run(init, ttl), id, fp) then before + 1 else before
      case Sweep(now) => if LastTurn(init, id) + ttl < now then 0 else before
  }

  lemma {:induction false} ReportedAreRepeats(events: seq<Event>, ttl: int, id: string)
    ensures Reported(events, ttl, id) == Repeats(Live(events, ttl, id))
  {
    if events != [] {
      var init, e := events[..|events| - 1], events[|events| - 1];
      ReportedAreRepeats(init, ttl, id);
      if e.Turn? && e.id == id {
        OverlapIffSeenBefore(init, ttl, id, e.fp);
        AppendOne(Live(init, ttl, id), e.fp);
      }
    }
  }

  /** The fingerprint list never holds a duplicate, and the dashboard's `max(0, turns - unique)` never
      clamps: it is the exact number of turns reported as overlaps since the session was last evicted. */
  lemma DashboardCountIsExact(events: seq<Event>, ttl: int, id: string)
    requires SessionKey(id) in Run(events, ttl)
    ensures var e := Run(events, ttl)[SessionKey(id)];
            Distinct(e.seen) && e.turnCount - |e.seen| == Reported(events, ttl, id)
  {
    SessionTellsHistory(events, ttl, id);
    DedupMembers(Live(events, ttl, id));
    DedupPlusRepeats(Live(events, ttl, id));
    ReportedAreRepeats(events, ttl, id);
  }
}
