/** The agent listener: recorded calls updated by events, and the object graph `buildTree` links up and
    the JSON printer walks. */
module CallListener {
  import opened CallForest
  import opened CallMoves
  import opened Options
  import opened Sequences

  /** Names every JavaScript object inherits: looking one of them up in a table that does not hold it
      still finds something. */
  const INHERITED: set<string> := {"constructor", "__defineGetter__", "__defineSetter__", "hasOwnProperty",
                                   "__lookupGetter__", "__lookupSetter__", "isPrototypeOf",
                                   "propertyIsEnumerable", "toString", "valueOf", "toLocaleString", "__proto__"}

  predicate Truthy(s: Option<string>) {
    s.Some? && s.value != ""
  }

  /** JavaScript's `a || b` on optional strings. */
  function Or(a: Option<string>, b: Option<string>): Option<string> {
    if Truthy(a) then a else b
  }

  /** `a || b` with a default that is always there. */
  function OrElse(a: Option<string>, b: string): string {
    if Truthy(a) then a.value else b
  }

  /** `... || null`. */
  function OrNull(a: Option<string>): Option<string> {
    if Truthy(a) then a else None
  }

  datatype Part =
    | FunctionCall(id: Option<string>, callId: Option<string>, name: Option<string>, agentName: Option<string>,
                   args: string, argParent: Option<string>, argParentCall: Option<string>, parent: Option<string>)
    | OtherPart

  function CallId(p: Part, generated: string): string
    requires p.FunctionCall?
  {
    OrElse(Or(p.id, p.callId), generated)
  }

  function CallRecord(p: Part): Call
    requires p.FunctionCall?
  {
    Call(OrElse(Or(p.name, p.agentName), "sub-agent"), p.args, Pending, None,
         OrNull(Or(Or(p.argParent, p.argParentCall), p.parent)))
  }

  /** The records after the first `n` parts of a call event; a repeated id replaces the old record. */
  function AfterParts(calls: Calls, parts: seq<Part>, generated: seq<string>, n: nat): Calls
    requires n <= |parts| == |generated|
  {
    if n == 0 then calls
    else
      var before, p := AfterParts(calls, parts, generated, n - 1), parts[n - 1];
      if p.FunctionCall? then before[CallId(p, generated[n - 1]) := CallRecord(p)] else before
  }

  /** The records after a response with the given id: a known call keeps its place, an unknown one becomes
      a root. */
  function AfterResponse(calls: Calls, id: Option<string>, name: Option<string>, content: string): Calls {
    if !Truthy(id) then calls
    else if id.value in calls then calls[id.value := calls[id.value].(response := Some(content), status := Done)]
    else if id.value in INHERITED then calls
    else calls[id.value := Call(OrElse(name, id.value), "{}", Done, Some(content), None)]
  }

  /** The records after a final answer: a finished record without a parent, under the event's id. */
  function AfterFinal(calls: Calls, id: string, text: string): Calls {
    calls[id := Call("final", "{}", Done, Some(text), None)]
  }

  // ----- objects -------------------------------------------------------------------------------

  class TreeNode {
    const id: string
    const call: Call
    var children: seq<TreeNode>

    constructor (id: string, call: Call)
      ensures this.id == id && this.call == call && children == []
    {
      this.id, this.call, children := id, call, [];
    }
  }

  type Table = map<string, TreeNode>

  function Objects(table: Table, ids: seq<string>): (s: seq<TreeNode>)
    requires forall i :: 0 <= i < |ids| ==> ids[i] in table
    ensures |s| == |ids| && forall i :: 0 <= i < |ids| ==> s[i] == table[ids[i]]
  {
    seq(|ids|, i requires 0 <= i < |ids| => table[ids[i]])
  }

  /** The objects of the first `n` calls that hang under `id`. */
  function KidsOf(table: Table, order: seq<string>, calls: Calls, n: nat, id: string): seq<TreeNode>
    requires (forall i :: 0 <= i < |order| ==> order[i] in calls) && n <= |order| && table.Keys == calls.Keys
  {
    Objects(table, Under(order[..n], calls, Some(id)))
  }

  ghost predicate Children(table: Table, order: seq<string>, calls: Calls, n: nat, id: string)
    requires Orders(order, calls) && n <= |order| && table.Keys == calls.Keys && id in table
    reads table[id]
  {
    table[id].children == KidsOf(table, order, calls, n, id)
  }

  /** One object per call, and the first `n` calls of the order linked under their parents. */
  ghost predicate Linked(table: Table, order: seq<string>, calls: Calls, n: nat)
    requires Orders(order, calls) && n <= |order|
    reads table.Values
  {
    && table.Keys == calls.Keys
    && (forall id :: id in table ==> table[id].id == id && table[id].call == calls[id])
    && (forall id :: id in table ==> Children(table, order, calls, n, id))
  }

  lemma UnderStep(order: seq<string>, calls: Calls, i: nat, parent: Option<string>)
    requires Orders(order, calls) && i < |order|
    ensures Under(order[..i + 1], calls, parent)
            == Under(order[..i], calls, parent) + if ParentOf(calls, order[i]) == parent then [order[i]] else []
  {
    assert order[..i + 1][..i] == order[..i];
  }

  /** Looking the parent up finds an inherited property instead of a node. */
  predicate ParentIsInherited(calls: Calls, id: string)
    requires id in calls
  {
    Truthy(calls[id].parent) && calls[id].parent.value !in calls && calls[id].parent.value in INHERITED
  }

  // ----- linking -------------------------------------------------------------------------------

  lemma ObjectsAppend(table: Table, ids: seq<string>, id: string)
    requires id in table && forall i :: 0 <= i < |ids| ==> ids[i] in table
    ensures Objects(table, ids + [id]) == Objects(table, ids) + [table[id]]
  {
  }

  lemma KidsStep(table: Table, keys: seq<string>, calls: Calls, i: nat, id: string)
    requires Orders(keys, calls) && i < |keys| && table.Keys == calls.Keys
    ensures KidsOf(table, keys, calls, i + 1, id)
            == KidsOf(table, keys, calls, i, id) + if ParentOf(calls, keys[i]) == Some(id) then [table[keys[i]]] else []
  {
    UnderStep(keys, calls, i, Some(id));
    ObjectsAppend(table, Under(keys[..i], calls, Some(id)), keys[i]);
  }

  /** `idToNode[n.parent_id].children.push(n)`. */
  method Push(keys: seq<string>, calls: Calls, table: Table, i: nat, parent: string)
    requires Orders(keys, calls) && i < |keys| && Linked(table, keys, calls, i)
    requires ParentOf(calls, keys[i]) == Some(parent)
    modifies table.Values
    ensures Linked(table, keys, calls, i + 1)
  {
    var p, n := table[parent], table[keys[i]];
    forall q | q in table ensures old(Children(table, keys, calls, i, q)) {}
    p.children := p.children + [n];
    forall q | q in table ensures Children(table, keys, calls, i + 1, q) {
      KidsStep(table, keys, calls, i, q);
      assert old(Children(table, keys, calls, i, q));
      assert q != parent ==> table[q].id != p.id;
    }
  }

  lemma NoPush(keys: seq<string>, calls: Calls, table: Table, i: nat)
    requires Orders(keys, calls) && i < |keys| && Linked(table, keys, calls, i)
    requires ParentOf(calls, keys[i]).None?
    ensures Linked(table, keys, calls, i + 1)
  {
    forall q | q in table ensures Children(table, keys, calls, i + 1, q) {
      KidsStep(table, keys, calls, i, q);
      assert Children(table, keys, calls, i, q);
    }
  }

  /** One turn of the linking loop; it throws when the parent is not recorded but is an inherited name. */
  method LinkOne(keys: seq<string>, calls: Calls, table: Table, i: nat) returns (thrown: bool)
    requires Orders(keys, calls) && i < |keys| && Linked(table, keys, calls, i)
    modifies table.Values
    ensures thrown <==> ParentIsInherited(calls, keys[i])
    ensures !thrown ==> Linked(table, keys, calls, i + 1)
  {
    var parent := calls[keys[i]].parent;
    if Truthy(parent) && parent.value in table {
      Push(keys, calls, table, i, parent.value);
      return false;
    }
    if Truthy(parent) && parent.value in INHERITED {
      return true;
    }
    NoPush(keys, calls, table, i);
    thrown := false;
  }

  ghost predicate NoneInherited(calls: Calls, ids: seq<string>) {
    forall id :: id in ids && id in calls ==> !ParentIsInherited(calls, id)
  }

  lemma NoneInheritedStep(calls: Calls, ids: seq<string>, i: nat)
    requires i < |ids| && NoneInherited(calls, ids[..i]) && ids[i] in calls && !ParentIsInherited(calls, ids[i])
    ensures NoneInherited(calls, ids[..i + 1])
  {
    assert ids[..i + 1] == ids[..i] + [ids[i]];
  }

  /** Hang every object under its parent's object. */
  method LinkChildren(keys: seq<string>, calls: Calls, table: Table) returns (thrown: bool)
    requires Orders(keys, calls) && Linked(table, keys, calls, 0)
    modifies table.Values
    ensures thrown ==> exists id :: id in calls && ParentIsInherited(calls, id)
    ensures !thrown ==> NoneInherited(calls, keys) && Linked(table, keys, calls, |keys|)
  {
    thrown := false;
    for i := 0 to |keys|
      invariant !thrown && Linked(table, keys, calls, i) && NoneInherited(calls, keys[..i])
    {
      thrown := LinkOne(keys, calls, table, i);
      if thrown { return; }
      NoneInheritedStep(calls, keys, i);
    }
    assert keys[..|keys|] == keys;
  }

  lemma KeysOrder(keys: seq<string>, calls: Calls)
    requires Distinct(keys) && Elements(keys) == calls.Keys
    ensures Orders(keys, calls)
  {
    forall i | 0 <= i < |keys| ensures keys[i] in calls { assert keys[i] in Elements(keys); }
    forall id | id in calls ensures id in keys { assert id in Elements(keys); }
  }

  class CallListener {
    var nodes: Calls

    constructor ()
      ensures nodes == map[]
    {
      nodes := map[];
    }

    /** `/reset`. */
    method Reset()
      modifies this
      ensures nodes == map[]
    {
      nodes := map[];
    }

    /** `/chat/call`: one record per function call in the event. */
    method RecordCalls(parts: seq<Part>, generated: seq<string>)
      requires |parts| == |generated|
      modifies this
      ensures nodes == AfterParts(old(nodes), parts, generated, |parts|)
    {
      for i := 0 to |parts|
        invariant nodes == AfterParts(old(nodes), parts, generated, i)
      {
        var p := parts[i];
        if p.FunctionCall? {
          var id := CallId(p, generated[i]);
          nodes := nodes[id := CallRecord(p)];
        }
      }
    }

    /** `/chat/function`. */
    method RecordResponse(id: Option<string>, callId: Option<string>, name: Option<string>, content: string)
      modifies this
      ensures nodes == AfterResponse(old(nodes), Or(id, callId), name, content)
    {
      var key := Or(id, callId);
      if Truthy(key) {
        if key.value in nodes {
          nodes := nodes[key.value := nodes[key.value].(response := Some(content))];
          nodes := nodes[key.value := nodes[key.value].(status := Done)];
        } else if key.value !in INHERITED {
          nodes := nodes[key.value := Call(OrElse(name, key.value), "{}", Done, Some(content), None)];
        }
      }
    }

    /** `/chat/final`: a root of its own. */
    method RecordFinal(eventId: Option<string>, generated: string, text: string)
      modifies this
      ensures nodes == AfterFinal(old(nodes), OrElse(eventId, generated), text)
    {
      nodes := nodes[OrElse(eventId, generated) := Call("final", "{}", Done, Some(text), None)];
    }

    /** One object per record, no links yet. */
    method MakeObjects(keys: seq<string>) returns (table: Table)
      requires Orders(keys, nodes)
      ensures fresh(table.Values) && Linked(table, keys, nodes, 0)
    {
      table := map[];
      for i := 0 to |keys|
        invariant forall id :: id in table ==> fresh(table[id])
        invariant forall id :: id in table <==> exists j :: 0 <= j < i && keys[j] == id
        invariant forall id :: id in table ==>
                    id in nodes && table[id].id == id && table[id].call == nodes[id] && table[id].children == []
      {
        var n := new TreeNode(keys[i], nodes[keys[i]]);
        table := table[keys[i] := n];
      }
      assert table.Keys == nodes.Keys;
    }

    /** The objects of the calls without a recorded parent. */
    method CollectRoots(keys: seq<string>, table: Table) returns (roots: seq<TreeNode>)
      requires Orders(keys, nodes) && table.Keys == nodes.Keys
      ensures roots == Objects(table, Under(keys, nodes, None))
    {
      roots := [];
      for i := 0 to |keys|
        invariant roots == Objects(table, Under(keys[..i], nodes, None))
      {
        var parent := nodes[keys[i]].parent;
        UnderStep(keys, nodes, i, None);
        if !(Truthy(parent) && parent.value in table) {
          ObjectsAppend(table, Under(keys[..i], nodes, None), keys[i]);
          roots := roots + [table[keys[i]]];
        }
      }
      assert keys[..|keys|] == keys;
    }

    /** `buildTree`.  It throws exactly when some parent is not recorded but is an inherited name;
        otherwise it returns the roots of a freshly linked object graph over all records. */
    method BuildTree() returns (thrown: bool, roots: seq<TreeNode>, ghost order: seq<string>, ghost table: Table)
      ensures thrown <==> exists id :: id in nodes && ParentIsInherited(nodes, id)
      ensures Orders(order, nodes)
      ensures !thrown ==> Linked(table, order, nodes, |order|) && fresh(table.Values)
      ensures !thrown ==> roots == Objects(table, Under(order, nodes, None))
    {
      var keys := Enumerate(nodes.Keys);
      KeysOrder(keys, nodes);
      var idToNode := MakeObjects(keys);
      order, table, roots := keys, idToNode, [];
      thrown := LinkChildren(keys, nodes, idToNode);
      if thrown { return; }
      forall id | id in nodes ensures !ParentIsInherited(nodes, id) {
        assert id in keys;
      }
      roots := CollectRoots(keys, idToNode);
    }

    /** Nesting one object, as `JSON.stringify` does: it follows the links until it meets no children. */
    method Nest(n: TreeNode, ghost order: seq<string>, ghost calls: Calls, ghost table: Table) returns (t: Tree)
      requires Orders(order, calls) && Linked(table, order, calls, |order|)
      requires n.id in calls && table[n.id] == n && Rooted(calls, n.id)
      ensures t == Subtree(order, calls, n.id)
      decreases |calls| - Depth(calls, n.id)
    {
      var children: seq<Tree> := [];
      ghost var ids := Under(order, calls, Some(n.id));
      assert order[..|order|] == order;
      assert Children(table, order, calls, |order|, n.id);
      for i := 0 to |n.children|
        invariant children == Subtrees(order, calls, n.id, ids[..i])
      {
        SubtreesStep(order, calls, n.id, i);
        var child := Nest(n.children[i], order, calls, table);
        children := children + [child];
      }
      assert ids[..|ids|] == ids;
      t := Node(n.id, n.call, children);
    }

    method NestAll(roots: seq<TreeNode>, ghost order: seq<string>, ghost table: Table) returns (forest: seq<Tree>)
      requires Orders(order, nodes) && Linked(table, order, nodes, |order|)
      requires roots == Objects(table, Under(order, nodes, None))
      ensures forest == Forest(order, nodes)
    {
      forest := [];
      ghost var ids := Under(order, nodes, None);
      for i := 0 to |roots|
        invariant forest == RootTrees(order, nodes, ids[..i])
      {
        RootTreesStep(order, nodes, i);
        var t := Nest(roots[i], order, nodes, table);
        forest := forest + [t];
      }
      assert ids[..|ids|] == ids;
    }

    /** `GET /tree`: the printed forest, unless building it throws. */
    method PrintTree() returns (thrown: bool, forest: seq<Tree>, ghost order: seq<string>)
      ensures thrown <==> exists id :: id in nodes && ParentIsInherited(nodes, id)
      ensures Orders(order, nodes) && (!thrown ==> forest == Forest(order, nodes))
    {
      var roots;
      ghost var table;
      thrown, roots, order, table := BuildTree();
      if thrown {
        forest := [];
      } else {
        forest := NestAll(roots, order, table);
      }
    }
  }

  // ----- responses -----------------------------------------------------------------------------

  ghost predicate SameParent(a: Calls, b: Calls, k: string) {
    k in a && k in b && ParentOf(a, k) == ParentOf(b, k)
  }

  ghost predicate SameParents(a: Calls, b: Calls) {
    forall k :: k in a ==> SameParent(a, b, k)
  }

  lemma {:induction false} SameParentsSameChains(a: Calls, b: Calls, id: string, n: nat)
    requires a.Keys == b.Keys && id in a && SameParents(a, b)
    ensures Up(a, id, n) == Up(b, id, n)
  {
    if n > 0 {
      SameParentsSameChains(a, b, id, n - 1);
      if Up(a, id, n - 1).Some? { assert SameParent(a, b, Up(a, id, n - 1).value); }
    }
  }

  /** A response to a recorded call moves nothing: every call keeps its parent and its place on or off the
      forest, and only the answered record changes. */
  lemma ResponseMovesNothing(calls: Calls, id: string, name: Option<string>, content: string, x: string)
    requires id in calls && id != "" && x in calls
    ensures var after := AfterResponse(calls, Some(id), name, content);
            && after.Keys == calls.Keys
            && ParentOf(after, x) == ParentOf(calls, x)
            && (Rooted(after, x) <==> Rooted(calls, x))
            && (x != id ==> after[x] == calls[x])
            && after[id].status == Done && after[id].response == Some(content)
  {
    var after := AfterResponse(calls, Some(id), name, content);
    forall n: nat ensures EndsAt(after, x, n) <==> EndsAt(calls, x, n) {
      SameParentsSameChains(calls, after, x, n);
      SameParentsSameChains(calls, after, x, n + 1);
    }
  }

  /** A response with an unknown id becomes a root of the forest, below which everything that names it is
      gathered; no other record changes, and nothing leaves the forest. */
  lemma UnknownResponseIsRoot(order: seq<string>, calls: Calls, id: string, name: Option<string>, content: string,
                              x: string)
    requires id != "" && id !in calls && id !in INHERITED && x in calls
    requires Orders(order, AfterResponse(calls, Some(id), name, content))
    ensures var after := AfterResponse(calls, Some(id), name, content);
            && id in Under(order, after, None) && Overwrites(calls, after, {id})
            && (OnChain(after, x, id) <==> NamedOnChain(calls, x, id))
            && (OnChain(after, x, id) ==> Rooted(after, x) && Up(after, x, Depth(after, x)) == Some(id))
            && (!OnChain(after, x, id) ==> SameChain(calls, after, x))
            && (Rooted(after, x) <==> Rooted(calls, x))
  {
    var after := AfterResponse(calls, Some(id), name, content);
    UnderMembers(order, after, None);
    RootRecordMoves(calls, id, after[id], x);
  }

  // ----- final answers -------------------------------------------------------------------------

  /** A final record becomes a root of the forest, whatever it replaces, and no other record changes. */
  lemma FinalRecordIsRoot(order: seq<string>, calls: Calls, id: string, text: string)
    requires Orders(order, AfterFinal(calls, id, text))
    ensures var after := AfterFinal(calls, id, text);
            id in Under(order, after, None) && Overwrites(calls, after, {id})
  {
    UnderMembers(order, AfterFinal(calls, id, text), None);
  }

  /** Which other calls change place when a final answer is recorded: exactly those with an ancestor that
      names its id as parent.  They end up in the tree under the final record, also those that were on or
      below a cycle before; every other call keeps its whole chain. */
  lemma FinalRecordMoves(calls: Calls, id: string, text: string, x: string)
    requires x in calls && x != id
    ensures var after := AfterFinal(calls, id, text);
            && (OnChain(after, x, id) <==> NamedOnChain(calls, x, id))
            && (OnChain(after, x, id) ==> Rooted(after, x) && Up(after, x, Depth(after, x)) == Some(id))
            && (!OnChain(after, x, id) ==> SameChain(calls, after, x))
            && (Rooted(after, x) <==> Rooted(calls, x) || OnChain(calls, x, id))
  {
    RootRecordMoves(calls, id, AfterFinal(calls, id, text)[id], x);
  }

  // ----- call events ---------------------------------------------------------------------------

  /** The ids the first `n` parts of an event write. */
  function IdsWritten(parts: seq<Part>, generated: seq<string>, n: nat): set<string>
    requires n <= |parts| == |generated|
  {
    set i | 0 <= i < n && parts[i].FunctionCall? :: CallId(parts[i], generated[i])
  }

  /** Part `i` is the last of the first `n` that writes `id`. */
  ghost predicate LastWriter(parts: seq<Part>, generated: seq<string>, n: nat, id: string, i: nat)
    requires n <= |parts| == |generated|
  {
    && i < n && parts[i].FunctionCall? && CallId(parts[i], generated[i]) == id
    && forall j :: i < j < n && parts[j].FunctionCall? ==> CallId(parts[j], generated[j]) != id
  }

  lemma IdsWrittenStep(parts: seq<Part>, generated: seq<string>, n: nat)
    requires n < |parts| == |generated|
    ensures IdsWritten(parts, generated, n + 1)
            == IdsWritten(parts, generated, n)
               + if parts[n].FunctionCall? then {CallId(parts[n], generated[n])} else {}
  {
  }

  /** An event does not touch the records of ids it does not write. */
  lemma {:induction false} EventOverwrites(calls: Calls, parts: seq<Part>, generated: seq<string>, n: nat)
    requires n <= |parts| == |generated|
    ensures Overwrites(calls, AfterParts(calls, parts, generated, n), IdsWritten(parts, generated, n))
  {
    if n > 0 {
      EventOverwrites(calls, parts, generated, n - 1);
      IdsWrittenStep(parts, generated, n - 1);
    }
  }

  /** Under each id it leaves the pending record of its last part with that id. */
  lemma {:induction false} EventWritesLast(calls: Calls, parts: seq<Part>, generated: seq<string>, n: nat, i: nat)
    requires i < n <= |parts| == |generated| && parts[i].FunctionCall?
    requires LastWriter(parts, generated, n, CallId(parts[i], generated[i]), i)
    ensures var after, id := AfterParts(calls, parts, generated, n), CallId(parts[i], generated[i]);
            id in after && after[id] == CallRecord(parts[i])
  {
    if i < n - 1 { EventWritesLast(calls, parts, generated, n - 1, i); }
  }

  /** What a whole call event does to the calls it does not write: exactly those with an ancestor that names
      one of the written ids come to hang below a written record; all others keep their whole chain and
      their place on or off the forest. */
  lemma EventMoves(calls: Calls, parts: seq<Part>, generated: seq<string>, x: string)
    requires |parts| == |generated| && x in calls && x !in IdsWritten(parts, generated, |parts|)
    ensures var after, written := AfterParts(calls, parts, generated, |parts|), IdsWritten(parts, generated, |parts|);
            && Overwrites(calls, after, written)
            && (MeetsWritten(after, x, written) <==> NamedWritten(calls, x, written))
            && (!MeetsWritten(after, x, written) ==> SameChain(calls, after, x)
                                                     && (Rooted(after, x) <==> Rooted(calls, x)))
  {
    EventOverwrites(calls, parts, generated, |parts|);
    WrittenRecordsMove(calls, AfterParts(calls, parts, generated, |parts|), IdsWritten(parts, generated, |parts|), x);
  }

  /** Part by part: what part `n` of an event takes off the forest. */
  lemma PartTakesOffIff(calls: Calls, parts: seq<Part>, generated: seq<string>, n: nat, x: string)
    requires n < |parts| == |generated| && parts[n].FunctionCall?
    requires x in AfterParts(calls, parts, generated, n) && Rooted(AfterParts(calls, parts, generated, n), x)
    ensures var before, after := AfterParts(calls, parts, generated, n), AfterParts(calls, parts, generated, n + 1);
            var id := CallId(parts[n], generated[n]);
            var p := ParentOf(after, id);
            !Rooted(after, x) <==>
              && (x == id || NamedOnChain(before, x, id))
              && p.Some? && (p.value == id || !Rooted(before, p.value) || NamedOnChain(before, p.value, id))
  {
    var before, id, r := AfterParts(calls, parts, generated, n), CallId(parts[n], generated[n]), CallRecord(parts[n]);
    RecordTakesOffIff(before, id, r, x);
    RecordIsRootedIff(before, id, r);
  }

  /** Such an event: `b` hangs below the root `a`, and one part records `a` again with the parent `b`.  Both
      calls leave the forest. */
  lemma RepeatedCallTakesBothOff()
    ensures var a, b := Call("x", "", Pending, None, None), Call("y", "", Pending, None, Some("a"));
            var calls := map["a" := a, "b" := b];
            var part := FunctionCall(Some("a"), None, None, None, "", Some("b"), None, None);
            var after := AfterParts(calls, [part], ["g"], 1);
            && Rooted(calls, "a") && Rooted(calls, "b")
            && "a" in after && "b" in after && !Rooted(after, "a") && !Rooted(after, "b")
  {
    var a, b := Call("x", "", Pending, None, None), Call("y", "", Pending, None, Some("a"));
    var calls := map["a" := a, "b" := b];
    var part := FunctionCall(Some("a"), None, None, None, "", Some("b"), None, None);
    assert AfterParts(calls, [part], ["g"], 0) == calls;
    RootDepth(calls, "a");
    ChildDepth(calls, "b", "a");
    assert Up(calls, "b", 0) == Some("b");
    assert OnChain(calls, "b", "b") && NamesParent(calls, "b", "a");
    PartTakesOffIff(calls, [part], ["g"], 0, "a");
    PartTakesOffIff(calls, [part], ["g"], 0, "b");
  }

  /** An event after which the tree cannot be built: the parent is not recorded, but every object inherits
      a property of that name. */
  lemma InheritedParentBreaksTree()
    ensures var part := FunctionCall(Some("c"), None, None, None, "", Some("toString"), None, None);
            var after := AfterParts(map[], [part], ["g"], 1);
            "c" in after && ParentIsInherited(after, "c")
  {
    var part := FunctionCall(Some("c"), None, None, None, "", Some("toString"), None, None);
    assert AfterParts(map[], [part], ["g"], 0) == map[];
    var after := AfterParts(map[], [part], ["g"], 1);
    assert after == map["c" := CallRecord(part)] && CallRecord(part).parent == Some("toString");
    assert "toString" in INHERITED;
    assert "c" in after && ParentIsInherited(after, "c");
  }
}
