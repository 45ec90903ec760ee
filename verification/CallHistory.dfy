/** What the listener's records say, told from the history of events: under which id a call is recorded, what
    its record holds, and when it counts as done. */
module CallHistory {
  import opened CallForest
  import opened CallListener
  import opened Options
  import opened Sequences

  datatype Event =
    | CallEvent(parts: seq<Part>, generated: seq<string>)
    | ResponseEvent(id: Option<string>, callId: Option<string>, name: Option<string>, content: string)
    | FinalEvent(eventId: Option<string>, drawn: string, text: string)
    | ResetEvent

  predicate Valid(e: Event) {
    e.CallEvent? ==> |e.parts| == |e.generated|
  }

  function Apply(calls: Calls, e: Event): Calls
    requires Valid(e)
  {
    match e
    case CallEvent(parts, generated) => AfterParts(calls, parts, generated, |parts|)
    case ResponseEvent(id, callId, name, content) => AfterResponse(calls, Or(id, callId), name, content)
    case FinalEvent(eventId, drawn, text) => AfterFinal(calls, OrElse(eventId, drawn), text)
    case ResetEvent => map[]
  }

  ghost predicate ValidEvents(events: seq<Event>) {
    forall i :: 0 <= i < |events| ==> Valid(events[i])
  }

  ghost function Run(events: seq<Event>): Calls
    requires ValidEvents(events)
  {
    if events == [] then map[] else Apply(Run(events[..|events| - 1]), events[|events| - 1])
  }

  // ----- ids and records in the fields of the events -------------------------------------------

  predicate Given(s: Option<string>) {
    match s
    case Some(text) => |text| > 0
    case None => false
  }

  /** The id a part records its call under: its own id, else its call id, else the one drawn for it. */
  predicate RecordsUnder(p: Part, drawn: string, id: string) {
    && p.FunctionCall?
    && id == if Given(p.id) then p.id.value else if Given(p.callId) then p.callId.value else drawn
  }

  /** The parent a part names: the parent id among its arguments first, then the parent call id among them,
      then its own. */
  function NamedParent(p: Part): Option<string>
    requires p.FunctionCall?
  {
    if Given(p.argParent) then p.argParent
    else if Given(p.argParentCall) then p.argParentCall
    else if Given(p.parent) then p.parent
    else None
  }

  function CallName(p: Part): string
    requires p.FunctionCall?
  {
    if Given(p.name) then p.name.value else if Given(p.agentName) then p.agentName.value else "sub-agent"
  }

  lemma RecordsUnderIff(p: Part, drawn: string, id: string)
    ensures RecordsUnder(p, drawn, id) <==> p.FunctionCall? && CallId(p, drawn) == id
  {
  }

  /** What a call event leaves under an id it writes: a pending record without a response, from its last part
      with that id. */
  lemma CallRecordInFields(calls: Calls, e: Event, i: nat, id: string)
    requires e.CallEvent? && Valid(e) && i < |e.parts| && RecordsUnder(e.parts[i], e.generated[i], id)
    requires forall j :: i < j < |e.parts| ==> !RecordsUnder(e.parts[j], e.generated[j], id)
    ensures var p, after := e.parts[i], Apply(calls, e);
            && id in after
            && after[id].status == Pending && after[id].response == None
            && after[id].name == CallName(p) && after[id].args == p.args && after[id].parent == NamedParent(p)
  {
    RecordsUnderIff(e.parts[i], e.generated[i], id);
    forall j | i < j < |e.parts| && e.parts[j].FunctionCall? ensures CallId(e.parts[j], e.generated[j]) != id {
      RecordsUnderIff(e.parts[j], e.generated[j], id);
    }
    assert LastWriter(e.parts, e.generated, |e.parts|, id, i);
    EventWritesLast(calls, e.parts, e.generated, |e.parts|, i);
  }

  /** The id a response is for: its own id, else its call id. */
  function ResponseFor(e: Event): Option<string>
    requires e.ResponseEvent?
  {
    if Given(e.id) then e.id else if Given(e.callId) then e.callId else None
  }

  /** What a response with an unknown id leaves: a finished record with the answer, named after the response,
      else after its id, without arguments and without a parent. */
  lemma UnknownResponseInFields(calls: Calls, e: Event, id: string)
    requires e.ResponseEvent? && ResponseFor(e) == Some(id) && id !in calls && id !in INHERITED
    ensures Apply(calls, e)
            == calls[id := Call(if Given(e.name) then e.name.value else id, "{}", Done, Some(e.content), None)]
  {
  }

  // ----- pending and done ----------------------------------------------------------------------

  /** The event writes or answers the record with this id. */
  ghost predicate Touches(e: Event, id: string)
    requires Valid(e)
  {
    match e
    case CallEvent(parts, generated) => exists i :: 0 <= i < |parts| && RecordsUnder(parts[i], generated[i], id)
    case ResponseEvent(_, _, _, _) => ResponseFor(e) == Some(id)
    case FinalEvent(eventId, drawn, _) => id == if Given(eventId) then eventId.value else drawn
    case ResetEvent => false
  }

  /** Event `j` is the last one that touches the id, and no reset follows. */
  ghost predicate LastTouch(events: seq<Event>, j: nat, id: string)
    requires ValidEvents(events)
  {
    && j < |events| && Touches(events[j], id)
    && forall k :: j < k < |events| ==> !Touches(events[k], id) && !events[k].ResetEvent?
  }

  lemma UntouchedKept(calls: Calls, e: Event, id: string)
    requires Valid(e) && !Touches(e, id) && !e.ResetEvent?
    ensures id in Apply(calls, e) <==> id in calls
    ensures id in calls ==> Apply(calls, e)[id] == calls[id]
  {
    if e.CallEvent? {
      var n := |e.parts|;
      EventOverwrites(calls, e.parts, e.generated, n);
      forall i | 0 <= i < n && e.parts[i].FunctionCall? ensures CallId(e.parts[i], e.generated[i]) != id {
        RecordsUnderIff(e.parts[i], e.generated[i], id);
      }
      assert id !in IdsWritten(e.parts, e.generated, n);
    }
  }

  lemma {:induction false} LastPart(e: Event, n: nat, id: string) returns (i: nat)
    requires e.CallEvent? && Valid(e) && n <= |e.parts|
    requires exists j :: 0 <= j < n && RecordsUnder(e.parts[j], e.generated[j], id)
    ensures i < n && RecordsUnder(e.parts[i], e.generated[i], id)
    ensures forall j :: i < j < n ==> !RecordsUnder(e.parts[j], e.generated[j], id)
  {
    i := n - 1;
    if !RecordsUnder(e.parts[i], e.generated[i], id) { i := LastPart(e, n - 1, id); }
  }

  /** A record is pending exactly if its last event was the call itself, then without a response; it is done
      exactly if its last event was a response or a final answer, and then holds what that event said. */
  ghost predicate SaysWhat(c: Call, e: Event) {
    match e
    case CallEvent(_, _) => c.status == Pending && c.response == None
    case ResponseEvent(_, _, _, content) => c.status == Done && c.response == Some(content)
    case FinalEvent(_, _, text) => c == Call("final", "{}", Done, Some(text), None)
    case ResetEvent => false
  }

  lemma TouchedSays(calls: Calls, e: Event, id: string)
    requires Valid(e) && Touches(e, id) && id in Apply(calls, e)
    ensures SaysWhat(Apply(calls, e)[id], e)
  {
    if e.CallEvent? {
      var i := LastPart(e, |e.parts|, id);
      CallRecordInFields(calls, e, i, id);
    }
  }

  lemma {:induction false} StatusTellsLastEvent(events: seq<Event>, id: string) returns (j: nat)
    requires ValidEvents(events) && id in Run(events)
    ensures LastTouch(events, j, id) && SaysWhat(Run(events)[id], events[j])
  {
    var init, last := events[..|events| - 1], events[|events| - 1];
    if Touches(last, id) {
      j := |init|;
      TouchedSays(Run(init), last, id);
    } else {
      UntouchedKept(Run(init), last, id);
      j := StatusTellsLastEvent(init, id);
      forall k | j < k < |events| ensures !Touches(events[k], id) && !events[k].ResetEvent? {
        if k < |init| { assert events[k] == init[k]; }
      }
    }
  }

  /** And an id that was called or finally answered since the last reset is recorded. */
  lemma {:induction false} TouchedIsRecorded(events: seq<Event>, j: nat, id: string)
    requires ValidEvents(events) && LastTouch(events, j, id)
    requires events[j].ResponseEvent? ==> id !in INHERITED
    ensures id in Run(events)
  {
    var init, last := events[..|events| - 1], events[|events| - 1];
    if j == |init| {
      if last.CallEvent? {
        var i := LastPart(last, |last.parts|, id);
        CallRecordInFields(Run(init), last, i, id);
      }
    } else {
      assert events[|init|] == last;
      UntouchedKept(Run(init), last, id);
      forall k | j < k < |init| ensures !Touches(init[k], id) && !init[k].ResetEvent? {
        assert events[k] == init[k];
      }
      TouchedIsRecorded(init, j, id);
    }
  }
}
