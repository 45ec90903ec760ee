# OpenGateway: verified models of its stateful and graph-shaped parts

OpenGateway routes requests between agents and models. Around the gateway stand a dashboard, a
knowledge-delivery server (KDN) that indexes cached inference state, a listener that shows trees of agent
calls, an agent registry and a demonstration authorization server. This project models the parts of them
that carry real invariants and proves what they are for:

- **Task graphs** (`DagGraph`, `KahnLayers`, `LongestWalks`, `DagPlacement`, `DagLayout`,
  `DagValidation`): the dashboard's layered drawing of a task graph, for every edge list - parallel edges,
  self-loops, undeclared endpoints - and the gateway's depth-first cycle check. Columns are longest-walk
  lengths, the nodes Kahn's queue never reaches are exactly those on or below a cycle, and for every edge
  list the gateway accepts a graph if and only if the layout leaves nothing stuck and no walk from a
  declared node meets an undeclared one twice.
- **KDN server** (`Fnv`, `PersistentDict`, `KdnKeys`, `KdnIndex`, `KdnSweep`, `KdnHistory`,
  `KdnChunks`, `KdnSessions`, `KdnDisk`, `KdnServer`): fingerprints, the crash-safe dictionary, the cache index with its
  deletion on read, the per-session overlap detector, and what a restart finds after a crash inside a request.
  One request is one atomic step, because no handler awaits; only its disk steps can be cut off.
- **Call forest** (`CallForest`, `CallMoves`, `CallListener`, `CallHistory`): recorded calls with parent
  pointers from outside, what each event does to the forest and what the records say of the events, the object graph built from it, and its printer.
- **Traffic statistics** (`Rounding`, `TrafficStats`, `FirstSeen`, `ReuseEvents`): the two moving
  averages, the per-route table, and the recall counts.
- **Registry** (`Registry`) and **authorization codes** (`AuthServer`).

Code that works by updating variables is modelled by classes and methods with loops, each proved against a
function of the inputs or the old state; the properties are lemmas about those functions. `Sequences`,
`Options` and `Reals` hold what several modules share (pigeonhole, stable sort, optional values, signs of
products). Functions that the methods share with their specification are pinned by laws that name neither. The clock, the existing files, the identifiers drawn at
random, the signatures and the logarithm are parameters. Floating-point numbers are reals; `round` is
half-to-even on reals.

`dafny verify dfyconfig.toml` checks everything.

## Where code and documentation disagree

The model follows the code in each case.

- `dashboard/charts.py:698` calls the unprocessed nodes "disconnected"; they are the nodes on or below a
  cycle (`LongestWalks.UnprocessedIffStuck`), while disconnected nodes are processed as sources
  (`LongestWalks.SourceIsProcessed`).
- `crates/agentgateway/src/task_router/dag.rs:89` says the cycle involves the named node; the node only
  reaches the cycle (`DagValidation.NamedNodeMayBeOffTheCycle`).  The message is right under every order of
  declaration if and only if every declared node that reaches a cycle lies on one
  (`DagValidation.NamedNodeAlwaysOnCycleIff`).
- `kdn/kdn_server.py:335` promises a hit only for available state; the status is never looked at, so a
  pending placeholder is a hit (`KdnHistory.PendingEntryHits`).  The entry behind a hit is ready if and only
  if the prompt was last written by a store (`KdnHistory.HitIsReadyIffStored`).
- `kdn/kdn_server.py:559-561` reports an entry as ready without looking at its expiry or its file
  (`KdnHistory.WarmupReportsDeadEntry`).  A query of the same moment then misses if and only if the prompt
  was last written by a store whose entry is dead (`KdnHistory.WarmupReportsDeadIffStoredDead`).
- `kdn/kdn_server.py:231` says a fingerprint overlaps if and only if it occurred in the session
  (`KdnSessions.RepeatAfterEvictionIsNoOverlap` is a run in which it occurred and does not).  It overlaps if
  and only if it occurred and no sweep since has evicted the session (`KdnSessions.OverlapIffSurviving`), so
  the documented reading holds if and only if it never occurred, or occurred after the last evicting sweep
  (`KdnSessions.DocumentedReadingIff`).

## When deletion on read shows

`kdn_query` deletes the dead entries it finds.  For every run, a query tells the difference from an index that
never deletes on read if and only if a warmup wrote the prompt's placeholder over an entry that only such an
index still held as ready, or the prompt has no entry and the file of the one it lost has come back before
the time to live passed (`KdnSweep.DeletionShowsIff`).  Both happen (`KdnSweep.WarmupAfterDropShows`,
`KdnSweep.FileComingBackShows`).

## Model

| member | source | states |
|---|---|---|
| KahnLayers.BuildAdjacency | dashboard/charts.py:668-676 | for any edge list, both adjacency maps list exactly the edges between declared nodes, once per edge, in edge order |
| KahnLayers.AssignLayers | dashboard/charts.py:678-696 | the worklist ends; every node is enqueued at most once and only after all its predecessors; every node whose predecessors are all done is done; each layer is one more than the deepest predecessor |
| KahnLayers.Release | dashboard/charts.py:693-696 | one decrement per parallel edge; a node joins the queue exactly when its last unprocessed predecessor is done, and never twice |
| LongestWalks.UnprocessedIffStuck | dashboard/charts.py:684-700 | a declared node is left unprocessed if and only if some walk into it meets a node twice |
| LongestWalks.SourceIsProcessed | dashboard/charts.py:680-700 | a node without incoming edges, a disconnected one in particular, is processed and gets layer 0 |
| LongestWalks.LayerIsLongest | dashboard/charts.py:687-692 | the layer of a processed node is the length of the longest walk into it |
| DagPlacement.PlaceNodes | dashboard/charts.py:709-722 | layer by layer, every node gets a slot of its own layer, in order of a rank that no later placement changes |
| DagPlacement.KeyIsRank | dashboard/charts.py:710-715 | the sort key used when a layer is reached already is the barycenter of the finished drawing; no predecessor of a processed node is met unplaced, and every predecessor of a node on or below a cycle is, with the default 0.5 |
| DagLayout.Layout | dashboard/charts.py:656-731 | nothing for no nodes, the centre for one; otherwise x is 1.2 times the longest-walk length (0 on or below cycles), the nodes of a column fill equal slots, one each, ordered by the mean final height of their predecessors, and no two nodes coincide |
| DagLayout.LowerPredsDrawnLower | dashboard/charts.py:709-722 | of two nodes off the cycles in one column, the one all of whose predecessors are drawn lower than all of the other's is drawn lower |
| DagPlacement.MeanOfOne | dashboard/charts.py:710-715 | the key of a node with one placed predecessor is that predecessor's height |
| DagPlacement.MeanOfConcat | dashboard/charts.py:710-715 | the key is a mean: two lists of predecessors enter that of both together by their lengths |
| DagLayout.ColumnSpreadsEvenly | dashboard/charts.py:716-722 | the heights of a column of c nodes are the odd multiples of 1/(2c), each taken once |
| DagLayout.XIsLongestWalk | dashboard/charts.py:724-731 | x is 1.2 times the number of edges of a longest walk into the node |
| DagLayout.EdgesPointRight | dashboard/charts.py:687-692 | every edge into a node off the cycles comes from a node off the cycles and is drawn strictly left to right |
| DagLayout.ColumnsWithoutGap | dashboard/charts.py:687-731 | the x-coordinates in use are exactly 0, 1.2, 2.4, ... up to the last, with no gap |
| DagLayout.SourcesBelowStuck | dashboard/charts.py:698-722 | in the leftmost column all sources are drawn below all nodes on or below cycles |
| DagLayout.HeightsInside | dashboard/charts.py:721-722 | every height lies strictly between 0 and 1 |
| DagValidation.CycleSearch.Dfs | crates/agentgateway/src/task_router/dag.rs:62-85 | answering no extends a finishing order that covers the node; answering yes means the walk the recursion is on starts at a node that reaches a cycle |
| DagValidation.ValidateAcyclic | crates/agentgateway/src/task_router/dag.rs:44-93 | rejects if and only if some declared node reaches a cycle, and names the first such node |
| DagValidation.AcceptedHasNoStuckNode | crates/agentgateway/src/task_router/router.rs:209-213 | a task graph the gateway accepts is drawn without a node falling back to the leftmost column |
| DagValidation.AcceptedIffNothingStuckOrUndeclared | crates/agentgateway/src/task_router/dag.rs:44-93 | for every edge list, acceptance is equivalent to the layout leaving nothing stuck and no walk from a declared node meeting an undeclared node twice |
| DagValidation.AcceptedIffNothingStuck | crates/agentgateway/src/task_router/dag.rs:44-93 | when all edges join declared nodes, acceptance is equivalent to the layout leaving nothing stuck |
| DagValidation.UndeclaredNodeSeparatesThem | crates/agentgateway/src/task_router/dag.rs:52-57 | a concrete cycle through an undeclared node, which the gateway rejects while the layout leaves nothing stuck |
| DagValidation.NamedNodeAlwaysOnCycleIff | crates/agentgateway/src/task_router/dag.rs:87-91 | over all orders of declaration, the named node always lies on a cycle if and only if every declared node that reaches a cycle lies on one |
| DagValidation.NamedNodeMayBeOffTheCycle | crates/agentgateway/src/task_router/dag.rs:87-91 | a concrete rejection that names a node which is on no cycle |
| Fnv.Fnv1a64 | kdn/kdn_server.py:104-110 | the loop computes the fold of 64-bit rounds, and the state stays below 2^64 |
| Fnv.FollowsDraft | kdn/kdn_server.py:100-110 | the offset basis, then exclusive or before multiplication, with the constants of section 2 of draft-eastlake-fnv |
| Fnv.RoundBijective | kdn/kdn_server.py:107-109 | for a fixed byte a round permutes the 64-bit states, with an explicit inverse |
| Fnv.SuffixCancels | kdn/kdn_server.py:104-110 | two strings collide if and only if they collide after appending any common suffix |
| Fnv.OneByteChangesHash | kdn/kdn_server.py:104-110 | byte strings that differ in exactly one position never share a hash |
| Fnv.FingerprintSeesPrefix | kdn/kdn_server.py:113-115 | changing one byte changes the fingerprint if and only if it is one of the first 512 |
| Fnv.GatewayFingerprint | crates/agentgateway/src/knowledge/working_memory.rs:172-181 | the gateway's own loop and constants give the KDN's hash on every input |
| PersistentDict.PersistentDict.Put | kdn/kdn_server.py:164-167 | memory is updated even if the flush stops anywhere; memory and disk make exactly one step of the crash model |
| PersistentDict.PersistentDict.Delete | kdn/kdn_server.py:169-175 | reports whether the key was there; deleting a missing key touches neither memory nor disk |
| PersistentDict.PersistentDict.Flush | kdn/kdn_server.py:148-156 | the disk after a flush that stopped before any of its steps, or completed |
| PersistentDict.RestartLoadsLastSync | kdn/kdn_server.py:137-175 | after any run with failing writes and crashes between any two disk steps, a restart loads the memory contents as of the last completed flush; a flush that completes brings the disk level with memory, whatever failed before |
| PersistentDict.FileNeverTorn | kdn/kdn_server.py:148-156 | the index file itself is never torn |
| PersistentDict.NoFailureNoLoss | kdn/kdn_server.py:137-175 | if every flush completes, memory and disk agree and a restart changes nothing |
| KdnKeys.KeyRoundTrip | kdn/kdn_server.py:201-202 | fingerprint and model can be read back from every key, for any integer and any model name |
| KdnKeys.KeyInjective | kdn/kdn_server.py:201-202 | two prompts share a key if and only if they are the same prompt |
| KdnKeys.HexIsSixteenDigits | kdn/kdn_server.py:201-202 | a 64-bit fingerprint is written with exactly sixteen lower-case hexadecimal digits |
| KdnKeys.SomeKeys | kdn/kdn_server.py:201-202 | two keys as they stand in the index file |
| KdnKeys.ChunkKeysApart | kdn/kdn_server.py:607 | no prompt key is a chunk key, and chunk keys tell their hashes apart |
| KdnSweep.AnsweredAlikeIff | kdn/kdn_server.py:453-489 | in every run with fresh ids, whatever clock and files do, a query is answered as by an index that never deletes on read if and only if the prompt's entry has the same origin in both, or is gone from the one and dead in the other |
| KdnSweep.DeletionShowsIff | kdn/kdn_server.py:453-575 | in every run with fresh ids and a clock that does not run backwards, deletion on read shows if and only if the prompt's entry is a placeholder written over one that would have been ready, or is gone while its file is back before the time to live passed |
| KdnSweep.AnsweredAlikeIffNotRewarmed | kdn/kdn_server.py:453-575 | per prompt and for every run in which the clock does not run backwards and the prompt's missing file stays away, warmups included: the answers differ if and only if the entry is the placeholder of a warmup that would otherwise have found a ready entry |
| KdnSweep.SweepingIsInvisible | kdn/kdn_server.py:453-489 | hence every prompt none of whose own warmups followed the loss of its entry is answered as by an index that never deletes on read |
| KdnSweep.LostEntryShowsIffFileIsBack | kdn/kdn_server.py:470-476 | a prompt that lost its entry to a query is answered differently if and only if the entry's file exists again and its time to live has not passed |
| KdnSweep.WarmupAfterDropShows | kdn/kdn_server.py:559-561 | a concrete run in which a warmup makes the deletion visible |
| KdnSweep.FileComingBackShows | kdn/kdn_server.py:470-476 | a concrete run in which a file that comes back makes the deletion visible |
| KdnHistory.EntryIsOrigins | kdn/kdn_server.py:497-575 | after any run from an empty index, with deletion on read or without, the entry under a prompt's key is exactly what the last surviving store or warmup of that prompt wrote |
| KdnHistory.HitComesFromOrigin | kdn/kdn_server.py:454-489 | a query hits if and only if that origin exists and its entry is alive, and answers from it |
| KdnHistory.AnswerInRequestFields | kdn/kdn_server.py:454-489 | a query hits if and only if the prompt was last written by a warmup, or by a store whose time to live has not passed and whose file exists; it answers that request's id, its milliseconds (200 for a warmup) and its node, else the server's |
| KdnHistory.QueryDropsIff | kdn/kdn_server.py:460-476 | a query deletes the entry of its prompt if and only if a store wrote it whose time to live has passed or whose file is gone |
| KdnHistory.WarmupReportInRequestFields | kdn/kdn_server.py:559-575 | a warmup reports the id of the prompt's last store as ready, or its own as pending |
| KdnHistory.HitIsReadyIffStored | kdn/kdn_server.py:454-489 | after any run, the entry behind a hit is ready if and only if the prompt was last written by a store |
| KdnHistory.PendingEntryHits | kdn/kdn_server.py:564-573 | a concrete prompt that was only warmed up, and hits |
| KdnHistory.WarmupReportsDeadIffStoredDead | kdn/kdn_server.py:559-575 | after any run, a query right after a warmup answers the id the warmup reported, and misses if and only if the prompt was last written by a store whose entry is dead |
| KdnHistory.WarmupReportsDeadEntry | kdn/kdn_server.py:559-561 | a concrete warmup that reports an expired entry as ready |
| KdnHistory.IdsStayUnique | kdn/kdn_server.py:515-532 | with an oracle that never repeats an identifier, cache ids stay unique in every index a run reaches, with deletion on read or without |
| KdnHistory.EvictRemovesOne | kdn/kdn_server.py:699-705 | with unique ids an eviction removes exactly one entry |
| KdnHistory.PendingAfterReadyNeedsDeletion | kdn/kdn_server.py:559-573 | a key that is ready and later pending was absent in between |
| KdnHistory.ScannedKeys | kdn/kdn_server.py:602-627 | a scan adds the chunk keys of its files and no other key |
| KdnHistory.ImportedCountsNewEntries | kdn/kdn_server.py:602-627 | the import count is the number of entries added, also when several files share a chunk hash |
| KdnChunks.ChunkHashIff | kdn/kdn_server.py:604-605 | the chunk of a file is the fifth field of its name, or the whole name with fewer than four separators |
| KdnChunks.ScanImportsEachChunkOnce | kdn/kdn_server.py:602-627 | a scan imports exactly one entry for each chunk that a file name stands for and that is not indexed, however many files share it |
| KdnChunks.ScanEntryInFields | kdn/kdn_server.py:612-626 | the entry of a new chunk is ready, never expires, and has the path and the time of the first file that stands for it |
| KdnHistory.SecondScanIdle | kdn/kdn_server.py:602-627 | scanning the same files again imports nothing and changes nothing |
| KdnHistory.ScanKeepsAnswers | kdn/kdn_server.py:598-635 | a scan changes the answer to no query |
| KdnSessions.SessionTellsHistory | kdn/kdn_server.py:228-271 | over any interleaving of sessions and sweeps, an entry holds the distinct fingerprints, the number and the time of its own turns since its last eviction, and exists exactly if there were any |
| KdnSessions.EntryKeepsOpening | kdn/kdn_server.py:237-246 | an entry keeps the route and the time of the first turn since the last eviction, and never counts a failure |
| KdnSessions.OverlapIffSeenBefore | kdn/kdn_server.py:248-257 | a turn is an overlap if and only if its fingerprint occurred in the session since its last eviction |
| KdnSessions.OverlapIffSurviving | kdn/kdn_server.py:228-271 | a turn is an overlap if and only if some earlier turn of the session had its fingerprint and no sweep since has evicted the session |
| KdnSessions.DocumentedReadingIff | kdn/kdn_server.py:231 | the documented reading, that the fingerprint occurred in the session, is what is reported if and only if it never occurred or occurred after the last evicting sweep |
| KdnSessions.RepeatAfterEvictionIsNoOverlap | kdn/kdn_server.py:228-271 | a concrete run in which a fingerprint of the session is no overlap |
| KdnSessions.DashboardCountIsExact | dashboard/app.py:666-671 | turns minus distinct fingerprints is the number of turns that were reported as overlaps since the session was last evicted, so the clamp at 0 never acts |
| KdnDisk.StepsData | kdn/kdn_server.py:423-705 | with unique ids, the disk steps a request takes leave in memory what the request does to the index |
| KdnDisk.ServedSteps | kdn/kdn_server.py:423-705 | requests served one after the other, each with its own outcome on disk, take together the steps of the run |
| KdnDisk.RestartLoadsMoment | kdn/kdn_server.py:137-175 | after a crash between or inside any requests, a restart loads the index as of the last level moment, which is that of a request prefix or of a scan cut off after some of its files |
| KdnDisk.RescanCompletes | kdn/kdn_server.py:598-635 | repeating a scan that was cut off leaves the index an uninterrupted scan would have left, up to the new ids, and imports exactly what was missing |
| KdnDisk.SweepCrash | kdn/kdn_server.py:260-271 | after a crash inside a session sweep, a restart finds what it would have found before, or the sessions without some of the expired ones |
| KdnDisk.SweepAgain | kdn/kdn_server.py:260-271 | sweeping again, then or later, leaves exactly what the uninterrupted sweep followed by the later one would have |
| KdnServer.KdnServer.SessionUpdate | kdn/kdn_server.py:228-257 | the field-by-field update makes one turn of the session model |
| KdnServer.KdnServer.SessionEvictExpired | kdn/kdn_server.py:260-271 | deleting the collected keys one by one makes one sweep, and reports how many sessions went |
| KdnServer.KdnServer.Query | kdn/kdn_server.py:423-489 | the answer, the entry dropped if dead, and the turn recorded if a session is named, with one reading of the clock for the session and one for the expiry |
| KdnServer.KdnServer.Store | kdn/kdn_server.py:497-543 | fails without a fingerprint source; otherwise writes a ready entry under the prompt's key, with the first matching file when none was given |
| KdnServer.KdnServer.Warmup | kdn/kdn_server.py:551-575 | leaves a ready entry alone, dead or alive, else writes a placeholder, and reports that entry's id and status |
| KdnServer.KdnServer.ScanLmcache | kdn/kdn_server.py:583-635 | imported and skipped add up to the files scanned, and the index is the scan's |
| KdnServer.KdnServer.EvictEntry | kdn/kdn_server.py:699-705 | not found if and only if no entry has the id; otherwise exactly one entry with it goes |
| KdnServer.KdnServer.Stats | kdn/kdn_server.py:652-667 | every entry is counted once, as ready or as pending |
| CallForest.EachRootedCallOnce | ui/agent-listener/server.js:31-49 | for any parent pointers, the nested output holds every call whose parent chain ends exactly once and no other call |
| CallForest.UnrootedIffOnOrBelowCycle | ui/agent-listener/server.js:40-47 | a call is missing exactly when its parent chain runs into a cycle |
| CallForest.ForestFaithful | ui/agent-listener/server.js:40-48 | reading the nesting back gives every call its recorded parent |
| CallForest.UnderKeepsOrder | ui/agent-listener/server.js:39-48 | calls under one parent keep the order of the records |
| CallListener.LinkChildren | ui/agent-listener/server.js:39-44 | every object's children become, in place and in order, the objects of the calls that name it as parent |
| CallListener.CallListener.BuildTree | ui/agent-listener/server.js:31-49 | a fresh object graph over all records and its roots, cycles included; it throws if and only if some parent is not recorded but is a name every object inherits |
| CallListener.CallListener.Nest | ui/agent-listener/server.js:73 | following the links from a rooted object ends, and gives the subtree of its call |
| CallListener.CallListener.PrintTree | ui/agent-listener/server.js:69-75 | the printed tree is the forest |
| CallMoves.RecordMoves | ui/agent-listener/server.js:119-174 | a record written under an id moves exactly the other calls with an ancestor that names the id as parent: they hang below it and share its fate; all others keep their whole chain |
| CallMoves.RecordIsRootedIff | ui/agent-listener/server.js:119-137 | the written record is on the forest if and only if it has no recorded parent, or its parent is another call on the forest none of whose ancestors names the id |
| CallListener.EventWritesLast | ui/agent-listener/server.js:119-137 | under each id an event leaves the pending record of its last part with that id |
| CallHistory.CallRecordInFields | ui/agent-listener/server.js:119-137 | a call event leaves a pending record without response under the part's id, else call id, else a drawn one, with the part's arguments, its name, else the agent's, else a default, and the parent named first by the arguments |
| CallHistory.StatusTellsLastEvent | ui/agent-listener/server.js:106-174 | in every run of events, a record is pending without a response exactly if the last event that wrote or answered it is a call, and else done with what that response or final answer said |
| CallHistory.TouchedIsRecorded | ui/agent-listener/server.js:106-174 | an id called, answered or finished since the last reset is recorded |
| CallListener.EventMoves | ui/agent-listener/server.js:119-137 | a call event keeps every record it does not write; of those calls, exactly the ones with an ancestor that names a written id come to hang below a written record, and all others keep their whole chain and their place on or off the forest |
| CallListener.PartTakesOffIff | ui/agent-listener/server.js:119-137 | a part takes a call off the forest if and only if it writes that call or one its ancestors name, with a parent that is unrooted, the call itself or a call below it |
| CallListener.RepeatedCallTakesBothOff | ui/agent-listener/server.js:119-137 | a concrete event that records a call again and takes it and its child off the tree |
| CallListener.InheritedParentBreaksTree | ui/agent-listener/server.js:31-49 | a concrete event after which building the tree throws |
| CallListener.UnknownResponseIsRoot | ui/agent-listener/server.js:146-161 | a response with an unknown id becomes a root, gathers the calls that name it, changes no other record and takes nothing off the forest |
| CallHistory.UnknownResponseInFields | ui/agent-listener/server.js:146-156 | the record an unknown response leaves, field by field |
| CallListener.FinalRecordIsRoot | ui/agent-listener/server.js:169-174 | a final record becomes a root of the forest, whatever record it replaces, and no other record changes |
| CallListener.FinalRecordMoves | ui/agent-listener/server.js:169-174 | which other calls it moves: exactly those with an ancestor that names its id as parent, which end up in its tree even from a cycle; every other call keeps its whole chain |
| CallListener.ResponseMovesNothing | ui/agent-listener/server.js:157-160 | a response to a recorded call changes no other record and no call's place on or off the forest |
| TrafficStats.BuildEwma | dashboard/api_client.py:160-173 | beside each entry, the rounded average of its own route's latencies so far, however routes interleave |
| TrafficStats.ComputeStats | dashboard/api_client.py:176-200 | one row per route in order of first appearance, computed from that route's own entries |
| TrafficStats.RouteIndependent | dashboard/api_client.py:176-200 | the row of a route is the whole table of that route's traffic alone |
| TrafficStats.TotalsAddUp | dashboard/api_client.py:191 | the totals of all rows of a table add up to the length of the stream |
| TrafficStats.RowsBalance | dashboard/api_client.py:187-195 | in every row successes and failures add up to a positive total, and neither is negative |
| TrafficStats.RowCounts | dashboard/api_client.py:191-195 | the successes and failures of a row are the numbers of positions in the stream with that route and outcome |
| TrafficStats.RowsInOrder | dashboard/api_client.py:180-200 | rows stand in the order in which their routes first appear |
| TrafficStats.ExactIsWeightedSum | dashboard/api_client.py:160-173 | the average in closed form: the latest latency weighs 0.1, each one before 0.9 times the next, and the first all that is left |
| TrafficStats.WeightsAddUp | dashboard/api_client.py:160-173 | the weights of the closed form add up to 1 |
| Rounding.HalfEvenTie | dashboard/api_client.py:200 | a tie is rounded to the even neighbour |
| TrafficStats.StepwiseInRange | dashboard/api_client.py:196-200 | the average rounded at every step stays within the smallest and largest latency |
| TrafficStats.StepwiseNearExact | dashboard/api_client.py:160-200 | rounding at every step never accumulates an error of 0.05 |
| TrafficStats.TwoAveragesAgree | dashboard/api_client.py:160-200 | the two averages of a latency sequence, as shown, differ by at most 0.05 |
| TrafficStats.TimelineMatchesTable | dashboard/api_client.py:160-200 | in any stream, a route's last timeline value and its table value differ by at most 0.05 |
| ReuseEvents.WmReuseEvents | dashboard/charts.py:325-345 | one point per later sighting in time order; the clamp on the delay changes nothing |
| ReuseEvents.FirstTimesMeaning | dashboard/charts.py:327-337 | the first-seen table holds, for each fingerprint that occurs, the time of its first entry |
| ReuseEvents.PointOfSighting | dashboard/charts.py:332-345 | each later sighting is drawn at its own time and domain, with the time since the first sighting |
| ReuseEvents.RecallCount | dashboard/app.py:316-321 | the sum of the surplus multiplicities is the number of repeated sightings |
| ReuseEvents.PointsMatchRecalls | dashboard/charts.py:325-345 | the chart plots exactly as many points as the dashboard counts recalls |
| Registry.ScoreAgent | agents/airbnb_planner_multiagent-main/mock_registry.py:171-194 | the score does not depend on the order of the query tokens, and neither the clamp nor the zero guard changes it |
| Registry.RatioInUnit | agents/airbnb_planner_multiagent-main/mock_registry.py:182-194 | the unclamped score lies in [0,1] and is 1 if and only if every query token is an agent token found inside a tag |
| Registry.SingleTokenScores | agents/airbnb_planner_multiagent-main/mock_registry.py:182-194 | one query token scores 1 in a tag, 0.75 in the name, 0.5 elsewhere and 0 if it is no token of the agent |
| Registry.FrequencyCountsTexts | agents/airbnb_planner_multiagent-main/mock_registry.py:163 | the document frequency is the number of texts that contain the token |
| Registry.ContainsIff | agents/airbnb_planner_multiagent-main/mock_registry.py:163 | a text contains a token if and only if the token stands at some position of it |
| Registry.RarerWeighsMore | agents/airbnb_planner_multiagent-main/mock_registry.py:160-164 | a token found only in texts that have another one too weighs at least as much, for every monotone logarithm |
| Registry.CommonestWeight | agents/airbnb_planner_multiagent-main/mock_registry.py:160-164 | a token of every text weighs 1 |
| Registry.RarestWeight | agents/airbnb_planner_multiagent-main/mock_registry.py:160-164 | a token of no text weighs 1 more than the logarithm of the number of texts and one |
| Registry.RarerMatchScoresHigher | agents/airbnb_planner_multiagent-main/mock_registry.py:182-194 | of two agents that each match one of two query tokens in a tag, the one with the rarer token scores no lower, before and after rounding |
| Registry.RarerMatchReturnedFirst | agents/airbnb_planner_multiagent-main/mock_registry.py:327-346 | so it is cut from the list while the other is returned only if their rounded scores are equal |
| Registry.AgentTokens | agents/airbnb_planner_multiagent-main/mock_registry.py:178-180 | an agent's tokens are those of its name, its description and its tags |
| Registry.QueryTokensOf | agents/airbnb_planner_multiagent-main/mock_registry.py:173-174 | the query tokens are those of the keyword and of the task |
| Registry.LettersAreOneToken | agents/airbnb_planner_multiagent-main/mock_registry.py:153-157 | a maximal run of letters is one token |
| Registry.OtherCharacters | agents/airbnb_planner_multiagent-main/mock_registry.py:153-157 | a Han character is a token of its own, and any other character only separates |
| Registry.IdfAtLeastOne | agents/airbnb_planner_multiagent-main/mock_registry.py:160-164 | every inverse document frequency is at least 1 |
| Registry.Fallback | agents/airbnb_planner_multiagent-main/mock_registry.py:327-346 | for every top_k, nothing cut off outranks anything returned, ties keep the registered order, and no agent is lost or doubled |
| Registry.BestIsUnique | agents/airbnb_planner_multiagent-main/mock_registry.py:341-346 | scores, registration order and top_k settle the returned list: no second list meets the contract of the fallback |
| Registry.RoundedScores | agents/airbnb_planner_multiagent-main/mock_registry.py:338 | rounding to four decimals swaps no two agents and stays in [0,1] |
| Registry.RoundedNear | agents/airbnb_planner_multiagent-main/mock_registry.py:338 | the ranked score is within 0.00005 of the exact one |
| AuthServer.AuthServer.HandleAuthorize | examples/mcp-authentication/auth_server.py:215-263 | records a code for a known client, admitting the built-in demo client, and otherwise changes nothing |
| AuthServer.AuthServer.HandleToken | examples/mcp-authentication/auth_server.py:392-514 | the checks, the deletion of the code before signing, and both tokens stored or none |
| AuthServer.PairIsLegitimate | examples/mcp-authentication/auth_server.py:414-424 | whoever gets a token pair presents an unexpired code as the client and with the redirect URI recorded when it was issued |
| AuthServer.CodeIssuedIff | examples/mcp-authentication/auth_server.py:226-254 | over every run, a code is issued if and only if one is asked for by a client that registered before, or by the built-in one |
| AuthServer.InvalidGrantIff | examples/mcp-authentication/auth_server.py:410-424 | over every run, a code request is refused if and only if no unused code of the last ten minutes was issued to that client and redirect URI |
| AuthServer.PairHolds | examples/mcp-authentication/auth_server.py:429-474 | a pair is, in this order, the access token for one hour and the refresh token for thirty days, both for the client, resource and scope of the issuing request, and stored so |
| AuthServer.RenewalHolds | examples/mcp-authentication/auth_server.py:476-506 | a renewal is one access token for one hour, for the client that asks |
| AuthServer.CodeUsedOnce | examples/mcp-authentication/auth_server.py:426-427 | in every run a code is used up at most once, also when signing then fails |
| AuthServer.TokenCount | examples/mcp-authentication/auth_server.py:460-499 | stored tokens are two per redemption and one per renewal |
| AuthServer.TokenNamesItsClient | examples/mcp-authentication/auth_server.py:434-499 | every stored token names the client it was issued for |

## Left out

- HTTP, FastAPI, server-sent events, logging and figure building: input and output only.
- Text encodings: JSON syntax, UTF-8, case folding and path globbing; prompts are bytes, registry texts are already in lower case, and an unencodable string that makes a flush raise something other than an OSError is not modelled.
- IEEE rounding: numbers are reals.
- KdnSweep.AnsweredAlikeIff: the run starts from an empty index and has no restart in it; what a restart loads is `KdnDisk.RestartLoadsMoment`.
- KdnHistory.EntryIsOrigins: an eviction step removes every entry with the id, where the code stops at the first one it finds; the two are the same while ids are unique (`KdnHistory.IdsStayUnique`, `KdnServer.KdnServer.EvictEntry`).
- KdnSweep.AnsweredAlikeIffNotRewarmed: describes evictions only while ids are unique, for the same reason.
- PersistentDict.PersistentDict.Put: stored values are immutable, so aliasing of a dictionary handed out by `get` is not captured, nor is contention for its lock.
- KdnServer.KdnServer.ScanLmcache: a file that vanishes between listing and stat is not modelled.
- CallListener.CallListener.BuildTree: the order of keys in a JavaScript object is left open (any order), and an id that is itself `__proto__` is not modelled.
- CallListener.UnknownResponseIsRoot: a response whose id is an inherited name lands on a built-in object; the model only says that no record changes.
- DagLayout.Layout: the iteration order of a Python set is left open (any order).
- AuthServer.AuthServer.HandleToken: decoding the Basic header is outside; the presented client is a parameter. Signing is an opaque call that may fail. The clock is read once per request, where the code reads it for the expiry and again for the lifetimes.
- `_build_sessions` of the dashboard's mock data picks sessions at random; its bookkeeping is that of `KdnSessions`.
- `route_via_gateway` of the registry: a network call, followed by the same stable sort and cut as the fallback.
- The gateway's other Rust components and the generated Go accessors.
