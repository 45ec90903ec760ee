/** Parent pointers of recorded calls, as a value: which nodes hang off a root, the nested forest they
    form, and that every such node occurs in it exactly once. */
module CallForest {
  import opened Options
  import opened Sequences

  datatype Status = Pending | Done

  datatype Call = Call(name: string, args: string, status: Status, response: Option<string>, parent: Option<string>)

  type Calls = map<string, Call>

  /** The parent a call hangs under; a parent that was never recorded counts as none. */
  function ParentOf(calls: Calls, id: string): Option<string>
    requires id in calls
  {
    var p := calls[id].parent;
    if p.Some? && p.value != "" && p.value in calls then p else None
  }

  /** The recorded calls, in the given order, whose parent is `parent`. */
  function Under(order: seq<string>, calls: Calls, parent: Option<string>): (s: seq<string>)
    requires forall i :: 0 <= i < |order| ==> order[i] in calls
    ensures |s| <= |order|
    ensures forall i :: 0 <= i < |s| ==> s[i] in calls && ParentOf(calls, s[i]) == parent
  {
    if order == [] then []
    else
      var id := order[|order| - 1];
      Under(order[..|order| - 1], calls, parent) + if ParentOf(calls, id) == parent then [id] else []
  }

  ghost predicate Orders(order: seq<string>, calls: Calls) {
    && Distinct(order)
    && (forall i :: 0 <= i < |order| ==> order[i] in calls)
    && (forall id :: id in calls ==> id in order)
  }

  lemma {:induction false} UnderMembers(order: seq<string>, calls: Calls, parent: Option<string>)
    requires Distinct(order) && forall i :: 0 <= i < |order| ==> order[i] in calls
    ensures Distinct(Under(order, calls, parent))
    ensures forall c :: c in Under(order, calls, parent) <==> c in order && c in calls && ParentOf(calls, c) == parent
  {
    if order != [] {
      var init, id := order[..|order| - 1], order[|order| - 1];
      UnderMembers(init, calls, parent);
      assert forall c :: c in order <==> c in init || c == id;
      assert id !in init;
    }
  }

  lemma {:induction false} UnderHas(order: seq<string>, calls: Calls, parent: Option<string>, i: nat) returns (a: nat)
    requires forall k :: 0 <= k < |order| ==> order[k] in calls
    requires i < |order| && ParentOf(calls, order[i]) == parent
    ensures a < |Under(order, calls, parent)| && Under(order, calls, parent)[a] == order[i]
  {
    var init := order[..|order| - 1];
    if i < |init| { a := UnderHas(init, calls, parent, i); } else { a := |Under(init, calls, parent)|; }
  }

  /** Siblings keep the order of the records. */
  lemma {:induction false} UnderKeepsOrder(order: seq<string>, calls: Calls, parent: Option<string>, i: nat, j: nat)
    returns (a: nat, b: nat)
    requires forall k :: 0 <= k < |order| ==> order[k] in calls
    requires i < j < |order| && ParentOf(calls, order[i]) == ParentOf(calls, order[j]) == parent
    ensures a < b < |Under(order, calls, parent)|
    ensures Under(order, calls, parent)[a] == order[i] && Under(order, calls, parent)[b] == order[j]
  {
    var init := order[..|order| - 1];
    if j < |init| {
      a, b := UnderKeepsOrder(init, calls, parent, i, j);
    } else {
      a := UnderHas(init, calls, parent, i);
      b := |Under(init, calls, parent)|;
    }
  }

  // ----- ancestors -----------------------------------------------------------------------------

  /** The `n`-th ancestor. */
  function Up(calls: Calls, id: string, n: nat): (a: Option<string>)
    requires id in calls
    ensures a.Some? ==> a.value in calls
  {
    if n == 0 then Some(id)
    else
      var below := Up(calls, id, n - 1);
      if below.None? then None else ParentOf(calls, below.value)
  }

  /** The parent chain of `id` ends after exactly `n` steps. */
  ghost predicate EndsAt(calls: Calls, id: string, n: nat)
    requires id in calls
  {
    Up(calls, id, n).Some? && Up(calls, id, n + 1).None?
  }

  ghost predicate Rooted(calls: Calls, id: string)
    requires id in calls
  {
    exists n :: EndsAt(calls, id, n)
  }

  ghost function Depth(calls: Calls, id: string): (n: nat)
    requires id in calls && Rooted(calls, id)
    ensures EndsAt(calls, id, n)
  {
    var n :| EndsAt(calls, id, n);
    n
  }

  lemma {:induction false} UpPrefix(calls: Calls, id: string, m: nat, n: nat)
    requires id in calls && m <= n && Up(calls, id, n).Some?
    ensures Up(calls, id, m).Some?
  {
    if m < n { UpPrefix(calls, id, m, n - 1); }
  }

  lemma {:induction false} UpCompose(calls: Calls, id: string, m: nat, n: nat)
    requires id in calls && Up(calls, id, m).Some?
    ensures Up(calls, id, m + n) == Up(calls, Up(calls, id, m).value, n)
  {
    if n > 0 { UpCompose(calls, id, m, n - 1); }
  }

  lemma EndUnique(calls: Calls, id: string, m: nat, n: nat)
    requires id in calls && EndsAt(calls, id, m) && EndsAt(calls, id, n)
    ensures m == n
  {
    if m < n { UpPrefix(calls, id, m + 1, n); }
    if n < m { UpPrefix(calls, id, n + 1, m); }
  }

  /** Going up one step takes one off the depth, and rootedness is shared along a chain. */
  lemma DepthAlongChain(calls: Calls, id: string, n: nat, a: string)
    requires id in calls && a in calls && Up(calls, id, n) == Some(a)
    ensures Rooted(calls, id) <==> Rooted(calls, a)
    ensures Rooted(calls, id) ==> Depth(calls, id) == n + Depth(calls, a)
  {
    if Rooted(calls, id) {
      var d := Depth(calls, id);
      if d < n { UpPrefix(calls, id, d + 1, n); }
      UpCompose(calls, id, n, d - n);
      UpCompose(calls, id, n, d - n + 1);
      assert EndsAt(calls, a, d - n);
      EndUnique(calls, a, d - n, Depth(calls, a));
    }
    if Rooted(calls, a) {
      var d := Depth(calls, a);
      UpCompose(calls, id, n, d);
      UpCompose(calls, id, n, d + 1);
      assert EndsAt(calls, id, n + d);
    }
  }

  lemma RootDepth(calls: Calls, id: string)
    requires id in calls && ParentOf(calls, id).None?
    ensures Rooted(calls, id) && Depth(calls, id) == 0
  {
    assert Up(calls, id, 0) == Some(id) && Up(calls, id, 1).None?;
    assert EndsAt(calls, id, 0);
    EndUnique(calls, id, 0, Depth(calls, id));
  }

  lemma ChildDepth(calls: Calls, id: string, p: string)
    requires id in calls && ParentOf(calls, id) == Some(p)
    ensures p in calls && (Rooted(calls, id) <==> Rooted(calls, p))
    ensures Rooted(calls, id) ==> Depth(calls, id) == Depth(calls, p) + 1
  {
    assert Up(calls, id, 0) == Some(id);
    assert Up(calls, id, 1) == Some(p);
    DepthAlongChain(calls, id, 1, p);
  }

  /** The first `n` ancestors. */
  ghost function ChainOf(calls: Calls, id: string, n: nat): seq<string>
    requires id in calls && Up(calls, id, n).Some?
  {
    if n == 0 then [id]
    else
      UpPrefix(calls, id, n - 1, n);
      ChainOf(calls, id, n - 1) + [Up(calls, id, n).value]
  }

  lemma {:induction false} ChainIndex(calls: Calls, id: string, n: nat)
    requires id in calls && Up(calls, id, n).Some?
    ensures |ChainOf(calls, id, n)| == n + 1
    ensures forall i :: 0 <= i <= n ==> Up(calls, id, i) == Some(ChainOf(calls, id, n)[i])
    ensures forall i :: 0 <= i <= n ==> ChainOf(calls, id, n)[i] in calls
  {
    if n > 0 {
      UpPrefix(calls, id, n - 1, n);
      ChainIndex(calls, id, n - 1);
    }
  }

  lemma DepthBound(calls: Calls, id: string)
    requires id in calls && Rooted(calls, id)
    ensures Depth(calls, id) < |calls|
  {
    var d := Depth(calls, id);
    var chain := ChainOf(calls, id, d);
    ChainIndex(calls, id, d);
    forall i, j | 0 <= i < j < |chain| ensures chain[i] != chain[j] {
      DepthAlongChain(calls, id, i, chain[i]);
      DepthAlongChain(calls, id, j, chain[j]);
    }
    if |chain| > |calls| {
      Pigeonhole(chain, calls.Keys);
    }
  }

  lemma {:induction false} NeverEnds(calls: Calls, id: string, n: nat)
    requires id in calls && !Rooted(calls, id)
    ensures Up(calls, id, n).Some?
  {
    if n > 0 {
      NeverEnds(calls, id, n - 1);
      assert !EndsAt(calls, id, n - 1);
    }
  }

  /** A call is off the forest exactly when its parent chain runs into a cycle. */
  lemma UnrootedIffOnOrBelowCycle(calls: Calls, id: string)
    requires id in calls
    ensures !Rooted(calls, id)
            <==> exists i: nat, j: nat :: i < j && Up(calls, id, i).Some? && Up(calls, id, i) == Up(calls, id, j)
  {
    if i: nat, j: nat :| i < j && Up(calls, id, i).Some? && Up(calls, id, i) == Up(calls, id, j) {
      DepthAlongChain(calls, id, i, Up(calls, id, i).value);
      DepthAlongChain(calls, id, j, Up(calls, id, j).value);
    }
    if !Rooted(calls, id) {
      NeverEnds(calls, id, |calls|);
      var chain := ChainOf(calls, id, |calls|);
      ChainIndex(calls, id, |calls|);
      Pigeonhole(chain, calls.Keys);
      var i: nat, j: nat :| i < j < |chain| && chain[i] == chain[j];
      assert Up(calls, id, i) == Up(calls, id, j);
    }
  }

  // ----- the forest ----------------------------------------------------------------------------

  datatype Tree = Node(id: string, call: Call, children: seq<Tree>)

  ghost function Subtrees(order: seq<string>, calls: Calls, parent: string, ids: seq<string>): (ts: seq<Tree>)
    requires Orders(order, calls) && parent in calls && Rooted(calls, parent)
    requires forall i :: 0 <= i < |ids| ==> ids[i] in calls && ParentOf(calls, ids[i]) == Some(parent)
    ensures |ts| == |ids|
    decreases |calls| - Depth(calls, parent), 0, |ids|
  {
    if ids == [] then []
    else
      var id := ids[|ids| - 1];
      ChildDepth(calls, id, parent);
      DepthBound(calls, id);
      Subtrees(order, calls, parent, ids[..|ids| - 1]) + [Subtree(order, calls, id)]
  }

  /** The nested form of a rooted call.  The recursion ends because depths grow and are bounded. */
  ghost function Subtree(order: seq<string>, calls: Calls, id: string): (t: Tree)
    requires Orders(order, calls) && id in calls && Rooted(calls, id)
    ensures t.id == id && t.call == calls[id]
    decreases |calls| - Depth(calls, id), 1, 0
  {
    DepthBound(calls, id);
    UnderMembers(order, calls, Some(id));
    Node(id, calls[id], Subtrees(order, calls, id, Under(order, calls, Some(id))))
  }

  lemma SubtreesStep(order: seq<string>, calls: Calls, id: string, i: nat)
    requires Orders(order, calls) && id in calls && Rooted(calls, id) && i < |Under(order, calls, Some(id))|
    ensures var kids := Under(order, calls, Some(id));
            && Rooted(calls, kids[i]) && Depth(calls, kids[i]) == Depth(calls, id) + 1
            && Depth(calls, kids[i]) < |calls|
            && Subtrees(order, calls, id, kids[..i + 1])
               == Subtrees(order, calls, id, kids[..i]) + [Subtree(order, calls, kids[i])]
  {
    var kids := Under(order, calls, Some(id));
    ChildDepth(calls, kids[i], id);
    DepthBound(calls, kids[i]);
    assert kids[..i + 1][..i] == kids[..i];
  }

  ghost function RootTrees(order: seq<string>, calls: Calls, ids: seq<string>): (ts: seq<Tree>)
    requires Orders(order, calls)
    requires forall i :: 0 <= i < |ids| ==> ids[i] in calls && ParentOf(calls, ids[i]).None?
    ensures |ts| == |ids|
  {
    if ids == [] then []
    else
      RootDepth(calls, ids[|ids| - 1]);
      RootTrees(order, calls, ids[..|ids| - 1]) + [Subtree(order, calls, ids[|ids| - 1])]
  }

  lemma RootTreesStep(order: seq<string>, calls: Calls, i: nat)
    requires Orders(order, calls) && i < |Under(order, calls, None)|
    ensures var roots := Under(order, calls, None);
            && Rooted(calls, roots[i])
            && RootTrees(order, calls, roots[..i + 1])
               == RootTrees(order, calls, roots[..i]) + [Subtree(order, calls, roots[i])]
  {
    var roots := Under(order, calls, None);
    RootDepth(calls, roots[i]);
    assert roots[..i + 1][..i] == roots[..i];
  }

  /** What `buildTree` returns: the subtrees of the calls without a recorded parent. */
  ghost function Forest(order: seq<string>, calls: Calls): seq<Tree>
    requires Orders(order, calls)
  {
    UnderMembers(order, calls, None);
    RootTrees(order, calls, Under(order, calls, None))
  }

  // ----- how often a call occurs ---------------------------------------------------------------

  function OccurrencesIn(ts: seq<Tree>, id: string): nat {
    if ts == [] then 0 else OccurrencesIn(ts[..|ts| - 1], id) + Occurrences(ts[|ts| - 1], id)
  }

  function Occurrences(t: Tree, id: string): nat {
    (if t.id == id then 1 else 0) + OccurrencesIn(t.children, id)
  }

  /** `a` is `x` or one of its ancestors. */
  ghost predicate OnChain(calls: Calls, x: string, a: string) {
    x in calls && a in calls && exists n: nat :: Up(calls, x, n) == Some(a)
  }

  /** 1 if some id of the list is on the chain of `x`. */
  ghost function Share(calls: Calls, x: string, ids: seq<string>): nat {
    if exists i :: 0 <= i < |ids| && OnChain(calls, x, ids[i]) then 1 else 0
  }

  lemma OnChainRooted(calls: Calls, x: string, a: string)
    requires OnChain(calls, x, a) && Rooted(calls, a)
    ensures Rooted(calls, x) && Depth(calls, a) <= Depth(calls, x)
  {
    var n: nat :| Up(calls, x, n) == Some(a);
    DepthAlongChain(calls, x, n, a);
  }

  /** A chain passes through at most one of several siblings, and through at most one root. */
  lemma SiblingsApart(calls: Calls, x: string, parent: Option<string>, a: string, b: string)
    requires a in calls && b in calls && a != b && ParentOf(calls, a) == ParentOf(calls, b) == parent
    requires parent.Some? ==> Rooted(calls, parent.value)
    ensures !(OnChain(calls, x, a) && OnChain(calls, x, b))
  {
    if OnChain(calls, x, a) && OnChain(calls, x, b) {
      if parent.Some? {
        ChildDepth(calls, a, parent.value);
        ChildDepth(calls, b, parent.value);
      } else {
        RootDepth(calls, a);
        RootDepth(calls, b);
      }
      var m: nat :| Up(calls, x, m) == Some(a);
      var n: nat :| Up(calls, x, n) == Some(b);
      DepthAlongChain(calls, x, m, a);
      DepthAlongChain(calls, x, n, b);
    }
  }

  /** The chain of `x` passes through `p` other than at `x` itself exactly when it passes through a child
      of `p`. */
  lemma ChainThroughChild(order: seq<string>, calls: Calls, x: string, p: string)
    requires Orders(order, calls) && p in calls && Rooted(calls, p)
    ensures Share(calls, x, Under(order, calls, Some(p))) == if OnChain(calls, x, p) && x != p then 1 else 0
  {
    var kids := Under(order, calls, Some(p));
    UnderMembers(order, calls, Some(p));
    if OnChain(calls, x, p) && x != p {
      var n: nat :| Up(calls, x, n) == Some(p);
      var c := Up(calls, x, n - 1).value;
      assert c in kids;
      assert OnChain(calls, x, c);
    }
    forall i | 0 <= i < |kids| && OnChain(calls, x, kids[i]) ensures OnChain(calls, x, p) && x != p {
      assert kids[i] in kids;
      var n: nat :| Up(calls, x, n) == Some(kids[i]);
      assert Up(calls, x, n + 1) == Some(p);
      ChildDepth(calls, kids[i], p);
      OnChainRooted(calls, x, kids[i]);
    }
  }

  lemma ShareStep(calls: Calls, x: string, ids: seq<string>)
    requires ids != []
    requires forall i :: 0 <= i < |ids| - 1 ==> !(OnChain(calls, x, ids[i]) && OnChain(calls, x, ids[|ids| - 1]))
    ensures Share(calls, x, ids)
            == Share(calls, x, ids[..|ids| - 1]) + if OnChain(calls, x, ids[|ids| - 1]) then 1 else 0
  {
    var init := ids[..|ids| - 1];
    if i :| 0 <= i < |init| && OnChain(calls, x, init[i]) {
      assert OnChain(calls, x, ids[i]);
    }
  }

  lemma {:induction false} SubtreesOccurrences(order: seq<string>, calls: Calls, parent: string,
                                               ids: seq<string>, x: string)
    requires Orders(order, calls) && parent in calls && Rooted(calls, parent) && Distinct(ids)
    requires forall i :: 0 <= i < |ids| ==> ids[i] in calls && ParentOf(calls, ids[i]) == Some(parent)
    ensures OccurrencesIn(Subtrees(order, calls, parent, ids), x) == Share(calls, x, ids)
    decreases |calls| - Depth(calls, parent), 0, |ids|
  {
    if ids != [] {
      var init, id := ids[..|ids| - 1], ids[|ids| - 1];
      ChildDepth(calls, id, parent);
      DepthBound(calls, id);
      SubtreesOccurrences(order, calls, parent, init, x);
      SubtreeOccurrences(order, calls, id, x);
      var ts := Subtrees(order, calls, parent, ids);
      assert ts[..|ts| - 1] == Subtrees(order, calls, parent, init);
      forall i | 0 <= i < |init| ensures !(OnChain(calls, x, ids[i]) && OnChain(calls, x, id)) {
        SiblingsApart(calls, x, Some(parent), ids[i], id);
      }
      ShareStep(calls, x, ids);
    }
  }

  lemma {:induction false} SubtreeOccurrences(order: seq<string>, calls: Calls, id: string, x: string)
    requires Orders(order, calls) && id in calls && Rooted(calls, id)
    ensures Occurrences(Subtree(order, calls, id), x) == if OnChain(calls, x, id) then 1 else 0
    decreases |calls| - Depth(calls, id), 1, 0
  {
    DepthBound(calls, id);
    var kids := Under(order, calls, Some(id));
    UnderMembers(order, calls, Some(id));
    SubtreesOccurrences(order, calls, id, kids, x);
    ChainThroughChild(order, calls, x, id);
    if x == id { assert Up(calls, x, 0) == Some(id); }
  }

  lemma {:induction false} RootsOccurrences(order: seq<string>, calls: Calls, ids: seq<string>, x: string)
    requires Orders(order, calls) && Distinct(ids)
    requires forall i :: 0 <= i < |ids| ==> ids[i] in calls && ParentOf(calls, ids[i]).None?
    ensures OccurrencesIn(RootTrees(order, calls, ids), x) == Share(calls, x, ids)
  {
    if ids != [] {
      var init, id := ids[..|ids| - 1], ids[|ids| - 1];
      RootsOccurrences(order, calls, init, x);
      RootDepth(calls, id);
      SubtreeOccurrences(order, calls, id, x);
      var ts := RootTrees(order, calls, ids);
      assert ts[..|ts| - 1] == RootTrees(order, calls, init);
      forall i | 0 <= i < |init| ensures !(OnChain(calls, x, ids[i]) && OnChain(calls, x, id)) {
        SiblingsApart(calls, x, None, ids[i], id);
      }
      ShareStep(calls, x, ids);
    }
  }

  /** The forest holds every call whose parent chain ends exactly once, and no other call. */
  lemma EachRootedCallOnce(order: seq<string>, calls: Calls, x: string)
    requires Orders(order, calls)
    ensures OccurrencesIn(Forest(order, calls), x) == if x in calls && Rooted(calls, x) then 1 else 0
  {
    var roots := Under(order, calls, None);
    UnderMembers(order, calls, None);
    RootsOccurrences(order, calls, roots, x);
    forall i | 0 <= i < |roots| && OnChain(calls, x, roots[i]) ensures x in calls && Rooted(calls, x) {
      assert roots[i] in roots;
      RootDepth(calls, roots[i]);
      OnChainRooted(calls, x, roots[i]);
    }
    if x in calls && Rooted(calls, x) {
      var top := Up(calls, x, Depth(calls, x)).value;
      assert ParentOf(calls, top).None?;
      assert top in roots;
      assert OnChain(calls, x, top);
    }
  }

  // ----- reading the parents off ---------------------------------------------------------------

  ghost predicate AllUnder(calls: Calls, parent: Option<string>, ts: seq<Tree>)
    decreases ts
  {
    ts == [] ||
    var t := ts[|ts| - 1];
    && AllUnder(calls, parent, ts[..|ts| - 1])
    && Faithful(calls, t) && ParentOf(calls, t.id) == parent
  }

  /** Every node carries its own record, and hangs under the parent that record names. */
  ghost predicate Faithful(calls: Calls, t: Tree)
    decreases t
  {
    t.id in calls && t.call == calls[t.id] && AllUnder(calls, Some(t.id), t.children)
  }

  lemma AllUnderAppend(calls: Calls, parent: Option<string>, ts: seq<Tree>, t: Tree)
    requires AllUnder(calls, parent, ts) && Faithful(calls, t) && ParentOf(calls, t.id) == parent
    ensures AllUnder(calls, parent, ts + [t])
  {
    assert (ts + [t])[..|ts|] == ts;
  }

  lemma {:induction false} SubtreesFaithful(order: seq<string>, calls: Calls, parent: string, ids: seq<string>)
    requires Orders(order, calls) && parent in calls && Rooted(calls, parent)
    requires forall i :: 0 <= i < |ids| ==> ids[i] in calls && ParentOf(calls, ids[i]) == Some(parent)
    ensures AllUnder(calls, Some(parent), Subtrees(order, calls, parent, ids))
    decreases |calls| - Depth(calls, parent), 0, |ids|
  {
    if ids != [] {
      var init, id := ids[..|ids| - 1], ids[|ids| - 1];
      ChildDepth(calls, id, parent);
      DepthBound(calls, id);
      SubtreesFaithful(order, calls, parent, init);
      SubtreeFaithful(order, calls, id);
      AllUnderAppend(calls, Some(parent), Subtrees(order, calls, parent, init), Subtree(order, calls, id));
    }
  }

  lemma {:induction false} SubtreeFaithful(order: seq<string>, calls: Calls, id: string)
    requires Orders(order, calls) && id in calls && Rooted(calls, id)
    ensures Faithful(calls, Subtree(order, calls, id))
    decreases |calls| - Depth(calls, id), 1, 0
  {
    DepthBound(calls, id);
    UnderMembers(order, calls, Some(id));
    SubtreesFaithful(order, calls, id, Under(order, calls, Some(id)));
  }

  lemma {:induction false} RootTreesFaithful(order: seq<string>, calls: Calls, ids: seq<string>)
    requires Orders(order, calls)
    requires forall i :: 0 <= i < |ids| ==> ids[i] in calls && ParentOf(calls, ids[i]).None?
    ensures AllUnder(calls, None, RootTrees(order, calls, ids))
  {
    if ids != [] {
      var init, id := ids[..|ids| - 1], ids[|ids| - 1];
      RootTreesFaithful(order, calls, init);
      RootDepth(calls, id);
      SubtreeFaithful(order, calls, id);
      AllUnderAppend(calls, None, RootTrees(order, calls, init), Subtree(order, calls, id));
    }
  }

  /** Reading the nesting back gives every call its recorded parent, and a root has none that was
      recorded. */
  lemma ForestFaithful(order: seq<string>, calls: Calls)
    requires Orders(order, calls)
    ensures AllUnder(calls, None, Forest(order, calls))
  {
    UnderMembers(order, calls, None);
    RootTreesFaithful(order, calls, Under(order, calls, None));
  }
}
