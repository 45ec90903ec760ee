/** What writing records does to the forest: which calls change place, which keep their whole chain of
    ancestors, and which join or leave the forest. */
module CallMoves {
  import opened CallForest
  import opened Options
  import opened Sequences

  /** The record of `a` names `id` as its parent, recorded or not. */
  ghost predicate NamesParent(calls: Calls, a: string, id: string)
    requires a in calls
  {
    calls[a].parent == Some(id) && id != ""
  }

  /** `after` is `calls` with the records under the given ids written, new ones or over old ones. */
  ghost predicate Overwrites(calls: Calls, after: Calls, written: set<string>) {
    && after.Keys == calls.Keys + written
    && forall k :: k in calls && k !in written ==> after[k] == calls[k]
  }

  /** One of the written records is on the chain of `x`. */
  ghost predicate MeetsWritten(after: Calls, x: string, written: set<string>) {
    exists w :: w in written && OnChain(after, x, w)
  }

  /** An ancestor of `x`, or `x` itself, named one of the written ids as its parent. */
  ghost predicate NamedWritten(calls: Calls, x: string, written: set<string>) {
    exists a, w :: w in written && OnChain(calls, x, a) && NamesParent(calls, a, w)
  }

  ghost predicate SameChain(calls: Calls, after: Calls, x: string)
    requires x in calls && x in after
  {
    forall n: nat :: Up(after, x, n) == Up(calls, x, n)
  }

  // ----- any set of written records ------------------------------------------------------------

  lemma UnwrittenParent(calls: Calls, after: Calls, written: set<string>, x: string, n: nat)
    requires Overwrites(calls, after, written) && x in calls && !MeetsWritten(after, x, written)
    requires Up(after, x, n) == Up(calls, x, n) && Up(after, x, n).Some?
    ensures ParentOf(after, Up(after, x, n).value) == ParentOf(calls, Up(after, x, n).value)
  {
    var y := Up(after, x, n).value;
    assert OnChain(after, x, y);
    var p := calls[y].parent;
    if p.Some? && p.value != "" && p.value in after {
      assert Up(after, x, n + 1) == p;
      assert OnChain(after, x, p.value);
    }
  }

  /** Until a chain meets a written record, it runs as before. */
  lemma {:induction false} ChainUpToWritten(calls: Calls, after: Calls, written: set<string>, x: string, n: nat)
    requires Overwrites(calls, after, written) && x in calls
    ensures Up(after, x, n) == Up(calls, x, n) || MeetsWritten(after, x, written)
  {
    if n > 0 {
      ChainUpToWritten(calls, after, written, x, n - 1);
      var below := Up(after, x, n - 1);
      if !MeetsWritten(after, x, written) && below.Some? {
        assert OnChain(after, x, below.value);
        UnwrittenParent(calls, after, written, x, n - 1);
      }
    }
  }

  lemma {:induction false} SamePrefix(calls: Calls, after: Calls, written: set<string>, x: string, n: nat)
    requires Overwrites(calls, after, written) && x in calls && Up(after, x, n).Some?
    requires forall m: nat :: m <= n && Up(after, x, m).Some? ==> Up(after, x, m).value !in written
    ensures Up(after, x, n) == Up(calls, x, n)
  {
    if n > 0 {
      SamePrefix(calls, after, written, x, n - 1);
      assert Up(after, x, n).value !in written;
    }
  }

  /** The step onto the first written record comes from a call that named it. */
  lemma {:induction false} FirstMeeting(calls: Calls, after: Calls, written: set<string>, x: string, n: nat)
    requires Overwrites(calls, after, written) && x in calls && x !in written
    requires Up(after, x, n).Some? && Up(after, x, n).value in written
    ensures NamedWritten(calls, x, written)
  {
    var a := Up(after, x, n - 1).value;
    if m: nat :| m < n && Up(after, x, m).Some? && Up(after, x, m).value in written {
      FirstMeeting(calls, after, written, x, m);
    } else {
      SamePrefix(calls, after, written, x, n - 1);
      assert OnChain(calls, x, a) && NamesParent(calls, a, Up(after, x, n).value);
    }
  }

  lemma NamedIsMet(calls: Calls, after: Calls, written: set<string>, x: string, a: string, w: string)
    requires Overwrites(calls, after, written) && w in written
    requires OnChain(calls, x, a) && NamesParent(calls, a, w)
    ensures MeetsWritten(after, x, written)
  {
    var n: nat :| Up(calls, x, n) == Some(a);
    ChainUpToWritten(calls, after, written, x, n);
    if Up(after, x, n) == Some(a) {
      assert a !in written ==> Up(after, x, n + 1) == Some(w);
      assert if a in written then OnChain(after, x, a) else OnChain(after, x, w);
    }
  }

  lemma SameChainSameRoot(calls: Calls, after: Calls, x: string)
    requires x in calls && x in after && SameChain(calls, after, x)
    ensures Rooted(after, x) <==> Rooted(calls, x)
  {
    forall n: nat ensures EndsAt(after, x, n) <==> EndsAt(calls, x, n) {
      assert Up(after, x, n + 1) == Up(calls, x, n + 1);
    }
  }

  /** Which of the other calls change place when records are written: exactly those with an ancestor that
      named one of the written ids as its parent.  Every other call keeps its whole chain, and its place on
      or off the forest. */
  lemma WrittenRecordsMove(calls: Calls, after: Calls, written: set<string>, x: string)
    requires Overwrites(calls, after, written) && x in calls && x !in written
    ensures MeetsWritten(after, x, written) <==> NamedWritten(calls, x, written)
    ensures !MeetsWritten(after, x, written) ==> SameChain(calls, after, x) && (Rooted(after, x) <==> Rooted(calls, x))
  {
    if NamedWritten(calls, x, written) {
      var a, w :| w in written && OnChain(calls, x, a) && NamesParent(calls, a, w);
      NamedIsMet(calls, after, written, x, a, w);
    }
    if MeetsWritten(after, x, written) {
      var w :| w in written && OnChain(after, x, w);
      var n: nat :| Up(after, x, n) == Some(w);
      FirstMeeting(calls, after, written, x, n);
    } else {
      forall n: nat ensures Up(after, x, n) == Up(calls, x, n) {
        ChainUpToWritten(calls, after, written, x, n);
      }
      SameChainSameRoot(calls, after, x);
    }
  }

  lemma SameChainMeets(calls: Calls, after: Calls, x: string, a: string)
    requires x in calls && x in after && a in after && SameChain(calls, after, x)
    ensures OnChain(calls, x, a) ==> OnChain(after, x, a)
  {
    if OnChain(calls, x, a) {
      var n: nat :| Up(calls, x, n) == Some(a);
      assert Up(after, x, n) == Up(calls, x, n);
    }
  }

  // ----- one record ----------------------------------------------------------------------------

  ghost predicate NamedOnChain(calls: Calls, x: string, id: string) {
    exists a :: OnChain(calls, x, a) && NamesParent(calls, a, id)
  }

  lemma OneOverwrites(calls: Calls, id: string, r: Call)
    ensures Overwrites(calls, calls[id := r], {id})
  {
  }

  lemma OneMet(calls: Calls, after: Calls, x: string, id: string)
    ensures MeetsWritten(after, x, {id}) <==> OnChain(after, x, id)
    ensures NamedWritten(calls, x, {id}) <==> NamedOnChain(calls, x, id)
  {
    if OnChain(after, x, id) { assert id in {id}; }
    if NamedOnChain(calls, x, id) {
      var a :| OnChain(calls, x, a) && NamesParent(calls, a, id);
      assert id in {id};
    }
  }

  /** The effect of one record on the other calls.  Those with an ancestor that names its id hang below it
      from now on and share its fate; all others keep their whole chain. */
  lemma RecordMoves(calls: Calls, id: string, r: Call, x: string)
    requires x in calls && x != id
    ensures var after := calls[id := r];
            && (OnChain(after, x, id) <==> NamedOnChain(calls, x, id))
            && (!OnChain(after, x, id) ==> SameChain(calls, after, x))
            && (Rooted(after, x) <==> if OnChain(after, x, id) then Rooted(after, id) else Rooted(calls, x))
  {
    var after := calls[id := r];
    OneOverwrites(calls, id, r);
    WrittenRecordsMove(calls, after, {id}, x);
    OneMet(calls, after, x, id);
    if OnChain(after, x, id) {
      var n: nat :| Up(after, x, n) == Some(id);
      DepthAlongChain(after, x, n, id);
    }
  }

  /** The written record itself is on the forest if and only if it has no recorded parent, or its parent is
      another call that is on the forest and none of whose ancestors names the written id: otherwise the
      record closes a cycle, or hangs below one. */
  lemma RecordIsRootedIff(calls: Calls, id: string, r: Call)
    ensures var after := calls[id := r];
            Rooted(after, id) <==>
              var p := ParentOf(after, id);
              p.None? || (p.value != id && Rooted(calls, p.value) && !NamedOnChain(calls, p.value, id))
  {
    var after := calls[id := r];
    var p := ParentOf(after, id);
    if p.None? {
      RootDepth(after, id);
    } else {
      ChildDepth(after, id, p.value);
      if p.value != id {
        RecordMoves(calls, id, r, p.value);
        if Rooted(after, id) && OnChain(after, p.value, id) { OnChainRooted(after, p.value, id); }
        if OnChain(after, p.value, id) && Rooted(calls, p.value) {
          assert !Rooted(after, id);
        }
      }
    }
  }

  /** A record takes a call off the forest exactly if the call is the written one or hangs below it, and the
      record closes a cycle or hangs below one. */
  lemma RecordTakesOffIff(calls: Calls, id: string, r: Call, x: string)
    requires x in calls && Rooted(calls, x)
    ensures !Rooted(calls[id := r], x) <==> (x == id || NamedOnChain(calls, x, id)) && !Rooted(calls[id := r], id)
  {
    if x != id { RecordMoves(calls, id, r, x); }
  }

  lemma HangsBelowRoot(calls: Calls, x: string, root: string)
    requires OnChain(calls, x, root) && ParentOf(calls, root).None?
    ensures Rooted(calls, x) && Up(calls, x, Depth(calls, x)) == Some(root)
  {
    RootDepth(calls, root);
    var n: nat :| Up(calls, x, n) == Some(root);
    DepthAlongChain(calls, x, n, root);
  }

  lemma NamedWasRootOrRecorded(calls: Calls, id: string, x: string)
    requires NamedOnChain(calls, x, id)
    ensures Rooted(calls, x) || OnChain(calls, x, id)
  {
    var a :| OnChain(calls, x, a) && NamesParent(calls, a, id);
    if id in calls {
      var n: nat :| Up(calls, x, n) == Some(a);
      assert Up(calls, x, n + 1) == Some(id);
    } else {
      RootDepth(calls, a);
      OnChainRooted(calls, x, a);
    }
  }

  /** A record without a parent becomes the root of everything that hangs below it, also of calls that were
      on or below a cycle, and takes nothing off the forest. */
  lemma RootRecordMoves(calls: Calls, id: string, r: Call, x: string)
    requires x in calls && x != id && r.parent.None?
    ensures var after := calls[id := r];
            && (OnChain(after, x, id) <==> NamedOnChain(calls, x, id))
            && (OnChain(after, x, id) ==> Rooted(after, x) && Up(after, x, Depth(after, x)) == Some(id))
            && (!OnChain(after, x, id) ==> SameChain(calls, after, x))
            && (Rooted(after, x) <==> Rooted(calls, x) || OnChain(calls, x, id))
  {
    var after := calls[id := r];
    RecordMoves(calls, id, r, x);
    if OnChain(after, x, id) {
      HangsBelowRoot(after, x, id);
      NamedWasRootOrRecorded(calls, id, x);
    } else {
      SameChainMeets(calls, after, x, id);
    }
  }
}
