/** The KDN cache index as a value: entries, the environment a request sees, and what each handler does to
    the index and answers. */
module KdnIndex {
  import opened KdnKeys
  import opened Options

  datatype Status = Ready | Pending

  /** `ttft_saved_ms` is a key that warmup entries lack and that a store may set to null. */
  datatype Ttft = Unset | Given(ms: Option<int>)

  datatype Entry = Entry(
    cacheId: string,
    fingerprint: Option<int>,
    model: string,
    routeKey: string,
    nodeHint: Option<string>,
    ttft: Ttft,
    chunkHash: Option<string>,
    file: Option<string>,
    sessionId: Option<string>,
    ttl: Option<int>,
    createdAt: real,
    status: Status)

  type Index = map<string, Entry>

  /** What a request can observe outside the index: the clock and the existing files. */
  datatype World = World(now: real, files: set<string>)

  /** A `*.pt` file met by a scan: its path, its name without the suffix, its modification time. */
  datatype PtFile = PtFile(path: string, stem: string, mtime: real)

  /** Requests with the fingerprint already resolved; `id` and `ids` are the identifiers drawn while
      handling the request (one per listed file for a scan). */
  datatype Op =
    | Store(fp: int, model: string, routeKey: string, nodeHint: Option<string>, ttft: Option<int>,
            chunkHash: Option<string>, file: Option<string>, sessionId: Option<string>, ttl: Option<int>,
            id: string)
    | Warmup(fp: int, model: string, routeKey: string, sessionId: Option<string>, id: string)
    | Scan(listing: seq<PtFile>, model: string, routeKey: string, ms: int, ids: seq<string>)
    | Evict(cacheId: string)
    | Query(fp: int, model: string)

  /** `a or b or None` on optional strings: the empty string is as good as absent. */
  function FirstNonEmpty(a: Option<string>, b: string): Option<string> {
    if a.Some? && a.value != "" then a else if b != "" then Some(b) else None
  }

  // ----- liveness of an entry ------------------------------------------------------------------

  /** A time to live of null or 0 never expires. */
  predicate Expired(e: Entry, w: World) {
    e.ttl.Some? && e.ttl.value != 0 && w.now > e.createdAt + e.ttl.value as real
  }

  /** `_file_still_valid` fails: a file is recorded and no longer exists. */
  predicate Stale(e: Entry, w: World) {
    e.file.Some? && e.file.value != "" && e.file.value !in w.files
  }

  predicate Dead(e: Entry, w: World) {
    Expired(e, w) || Stale(e, w)
  }

  // ----- handlers ------------------------------------------------------------------------------

  datatype Answer = Miss | Hit(cacheId: string, ttft: Option<int>, nodeHint: Option<string>)

  function AnswerFrom(e: Entry, node: string): Answer {
    Hit(e.cacheId, if e.ttft.Given? then e.ttft.ms else Some(200), FirstNonEmpty(e.nodeHint, node))
  }

  /** What `kdn_query` answers.  The status plays no part: a pending placeholder is a hit. */
  function Lookup(index: Index, w: World, node: string, fp: int, model: string): Answer {
    var key := IdxKey(fp, model);
    if key !in index || Dead(index[key], w) then Miss else AnswerFrom(index[key], node)
  }

  /** The index after `kdn_query`, which deletes what it finds dead. */
  function Swept(index: Index, w: World, fp: int, model: string): Index {
    var key := IdxKey(fp, model);
    if key in index && Dead(index[key], w) then index - {key} else index
  }

  function StoredEntry(op: Op, now: real, node: string): Entry
    requires op.Store?
  {
    Entry(op.id, Some(op.fp), op.model, op.routeKey, FirstNonEmpty(op.nodeHint, node), Given(op.ttft),
          op.chunkHash, op.file, op.sessionId, op.ttl, now, Ready)
  }

  function PlaceholderEntry(op: Op, now: real, node: string): Entry
    requires op.Warmup?
  {
    Entry(op.id, Some(op.fp), op.model, op.routeKey, FirstNonEmpty(None, node), Unset, None, None,
          op.sessionId, None, now, Pending)
  }

  /** `kdn_warmup` finds a ready entry, dead or alive. */
  predicate AlreadyReady(index: Index, fp: int, model: string) {
    IdxKey(fp, model) in index && index[IdxKey(fp, model)].status == Ready
  }

  /** What `kdn_warmup` reports: the id and the status of the entry it leaves in the index. */
  function WarmupReport(index: Index, op: Op): (string, Status)
    requires op.Warmup?
  {
    if AlreadyReady(index, op.fp, op.model) then (index[IdxKey(op.fp, op.model)].cacheId, Ready)
    else (op.id, Pending)
  }

  /** `str.split("@")`. */
  function SplitAt(s: string): (parts: seq<string>)
    ensures |parts| >= 1
  {
    if s == [] then [""]
    else
      var rest := SplitAt(s[1..]);
      if s[0] == '@' then [""] + rest else [[s[0]] + rest[0]] + rest[1..]
  }

  /** The chunk hash a file name stands for: its fifth field, or the whole stem when it has fewer. */
  function ChunkHash(stem: string): string {
    var parts := SplitAt(stem);
    if |parts| >= 5 then parts[4] else stem
  }

  function FileKey(f: PtFile): string {
    ChunkKey(ChunkHash(f.stem))
  }

  function ScannedEntry(f: PtFile, op: Op, id: string, node: string): Entry
    requires op.Scan?
  {
    Entry(id, None, op.model, op.routeKey, FirstNonEmpty(None, node), Given(Some(op.ms)),
          Some(ChunkHash(f.stem)), Some(f.path), None, None, f.mtime, Ready)
  }

  /** The index after the first `n` files of a scan. */
  function Scanned(index: Index, op: Op, node: string, n: nat): Index
    requires op.Scan? && n <= |op.listing| == |op.ids|
  {
    if n == 0 then index
    else
      var before := Scanned(index, op, node, n - 1);
      var key := FileKey(op.listing[n - 1]);
      if key in before then before
      else before[key := ScannedEntry(op.listing[n - 1], op, op.ids[n - 1], node)]
  }

  /** All entries but those with the given id. */
  function Evicted(index: Index, id: string): Index {
    map k | k in index && index[k].cacheId != id :: index[k]
  }

  predicate Valid(op: Op) {
    op.Scan? ==> |op.listing| == |op.ids|
  }

  /** One request; `sweep` says whether queries delete the dead entries they find, as the code does. */
  function Apply(index: Index, op: Op, w: World, node: string, sweep: bool): Index
    requires Valid(op)
  {
    match op
    case Store(_, _, _, _, _, _, _, _, _, _) => index[IdxKey(op.fp, op.model) := StoredEntry(op, w.now, node)]
    case Warmup(_, _, _, _, _) =>
      if AlreadyReady(index, op.fp, op.model) then index
      else index[IdxKey(op.fp, op.model) := PlaceholderEntry(op, w.now, node)]
    case Scan(_, _, _, _, _) => Scanned(index, op, node, |op.listing|)
    case Evict(id) => Evicted(index, id)
    case Query(fp, model) => if sweep then Swept(index, w, fp, model) else index
  }

  // ----- runs ----------------------------------------------------------------------------------

  datatype Request = Request(op: Op, world: World)

  type Trace = seq<Request>

  ghost predicate ValidTrace(trace: Trace) {
    forall i :: 0 <= i < |trace| ==> Valid(trace[i].op)
  }

  ghost function Run(start: Index, trace: Trace, node: string, sweep: bool): Index
    requires ValidTrace(trace)
  {
    if trace == [] then start
    else
      var last := trace[|trace| - 1];
      Apply(Run(start, trace[..|trace| - 1], node, sweep), last.op, last.world, node, sweep)
  }

  /** A run of one request more. */
  lemma RunAppend(start: Index, trace: Trace, last: Request, node: string, sweep: bool)
    requires ValidTrace(trace) && Valid(last.op)
    ensures ValidTrace(trace + [last])
    ensures Run(start, trace + [last], node, sweep)
            == Apply(Run(start, trace, node, sweep), last.op, last.world, node, sweep)
  {
    assert (trace + [last])[..|trace|] == trace;
  }
}
