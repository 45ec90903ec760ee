/** `PersistentDict`: a dictionary mirrored to a JSON file by writing a temporary file and renaming it.
    Any disk step may fail (the error is logged and swallowed) and the process may die between any
    two steps. */
module PersistentDict {
  /** A file as a reader would find it.  A file that has been opened for writing but not completely
      written is torn: it does not parse. */
  datatype File<V> = Absent | Torn | Whole(contents: map<string, V>)

  datatype Disk<V> = Disk(file: File<V>, tmp: File<V>)

  /** The first step of a flush that did not happen. */
  datatype Stop = BeforeOpen | BeforeWritten | BeforeReplace | Completed

  /** What `_load` puts in memory: an absent or unreadable file gives the empty dictionary. */
  function Load<V>(disk: Disk<V>): map<string, V> {
    match disk.file
    case Whole(contents) => contents
    case _ => map[]
  }

  /** The disk after a flush of `data` that stopped as given. */
  function Flushed<V>(disk: Disk<V>, data: map<string, V>, stop: Stop): Disk<V> {
    match stop
    case BeforeOpen => disk
    case BeforeWritten => disk.(tmp := Torn)
    case BeforeReplace => disk.(tmp := Whole(data))
    case Completed => Disk(Whole(data), Absent)
  }

  datatype Op<V> = Put(key: string, value: V, stop: Stop) | Delete(key: string, stop: Stop) | Restart

  datatype State<V> = State(data: map<string, V>, disk: Disk<V>)

  function Start<V>(disk: Disk<V>): State<V> {
    State(Load(disk), disk)
  }

  /** One call with the given outcome, or a crash followed by a restart.  A crash inside a flush is a
      call that stopped there, followed by `Restart`. */
  function Step<V>(s: State<V>, op: Op<V>): State<V> {
    match op
    case Put(k, v, stop) =>
      var data := s.data[k := v];
      State(data, Flushed(s.disk, data, stop))
    case Delete(k, stop) =>
      var data := s.data - {k};
      if k in s.data then State(data, Flushed(s.disk, data, stop)) else s
    case Restart => Start(s.disk)
  }

  class PersistentDict<V(==)> {
    var data: map<string, V>
    var disk: Disk<V>

    ghost function Now(): State<V>
      reads this
    {
      State(data, disk)
    }

    constructor (disk: Disk<V>)
      ensures Now() == Start(disk)
    {
      this.disk := disk;
      data := if disk.file.Whole? then disk.file.contents else map[];
    }

    /** `_flush`, step by step; `stop` reports how far the operating system let it get. */
    method Flush() returns (stop: Stop)
      modifies this`disk
      ensures disk == Flushed(old(disk), data, stop)
    {
      if * { return BeforeOpen; }
      disk := disk.(tmp := Torn);
      if * { return BeforeWritten; }
      disk := disk.(tmp := Whole(data));
      if * { return BeforeReplace; }
      disk := disk.(file := disk.tmp, tmp := Absent);
      stop := Completed;
    }

    method Put(key: string, value: V) returns (stop: Stop)
      modifies this
      ensures data == old(data)[key := value]
      ensures Now() == Step(old(Now()), Op.Put(key, value, stop))
    {
      data := data[key := value];
      stop := Flush();
    }

    /** Deleting a missing key does not touch the disk. */
    method Delete(key: string) returns (found: bool, stop: Stop)
      modifies this
      ensures found <==> key in old(data)
      ensures data == old(data) - {key}
      ensures !found ==> disk == old(disk)
      ensures Now() == Step(old(Now()), Op.Delete(key, stop))
    {
      if key !in data {
        found, stop := false, BeforeOpen;
        assert data - {key} == data;
      } else {
        data := data - {key};
        stop := Flush();
        found := true;
      }
    }
  }

  // ----- runs with crashes ---------------------------------------------------------------------

  /** The state after a sequence of operations, one after the other. */
  function Replay<V>(s: State<V>, ops: seq<Op<V>>): State<V> {
    if ops == [] then s else Step(Replay(s, ops[..|ops| - 1]), ops[|ops| - 1])
  }

  lemma {:induction false} ReplayConcat<V>(s: State<V>, a: seq<Op<V>>, b: seq<Op<V>>)
    ensures Replay(s, a + b) == Replay(Replay(s, a), b)
  {
    if b == [] {
      assert a + b == a;
    } else {
      assert (a + b)[..|a + b| - 1] == a + b[..|b| - 1];
      ReplayConcat(s, a, b[..|b| - 1]);
    }
  }

  function Run<V>(disk: Disk<V>, ops: seq<Op<V>>): State<V> {
    Replay(Start(disk), ops)
  }

  /** The operation brought memory and disk level: a flush that ran to its end, or a restart. */
  predicate Syncs<V>(s: State<V>, op: Op<V>) {
    match op
    case Put(_, _, stop) => stop == Completed
    case Delete(k, stop) => k in s.data && stop == Completed
    case Restart => true
  }

  /** How many operations had been performed when memory and disk were last level. */
  function LastSync<V>(disk: Disk<V>, ops: seq<Op<V>>): (k: nat)
    ensures k <= |ops|
  {
    if ops == [] then 0
    else if Syncs(Run(disk, ops[..|ops| - 1]), ops[|ops| - 1]) then |ops|
    else LastSync(disk, ops[..|ops| - 1])
  }

  /** What a restart would load changes only when an operation brings the disk level. */
  lemma StepLoads<V>(s: State<V>, op: Op<V>)
    ensures Load(Step(s, op).disk) == if Syncs(s, op) then Step(s, op).data else Load(s.disk)
  {
  }

  lemma SyncPrefix<V>(disk: Disk<V>, ops: seq<Op<V>>)
    requires ops != [] && !Syncs(Run(disk, ops[..|ops| - 1]), ops[|ops| - 1])
    ensures ops[..LastSync(disk, ops)] == ops[..|ops| - 1][..LastSync(disk, ops[..|ops| - 1])]
  {
  }

  /** Crash safety.  After any run, whatever failed and wherever it died, a restart loads exactly the
      memory contents as of the last completed flush (or restart); so when a flush completes, memory and disk
      are level, however many failed before. */
  lemma {:induction false} RestartLoadsLastSync<V>(disk: Disk<V>, ops: seq<Op<V>>)
    ensures Load(Run(disk, ops).disk) == Run(disk, ops[..LastSync(disk, ops)]).data
    ensures ops != [] && Syncs(Run(disk, ops[..|ops| - 1]), ops[|ops| - 1]) ==>
              Load(Run(disk, ops).disk) == Run(disk, ops).data
  {
    if ops == [] {
      assert ops[..0] == ops;
    } else {
      var init, last := ops[..|ops| - 1], ops[|ops| - 1];
      RestartLoadsLastSync(disk, init);
      StepLoads(Run(disk, init), last);
      if Syncs(Run(disk, init), last) {
        assert ops[..|ops|] == ops;
      } else {
        SyncPrefix(disk, ops);
      }
    }
  }

  /** The file is never torn, even while its temporary sibling is. */
  lemma {:induction false} FileNeverTorn<V>(disk: Disk<V>, ops: seq<Op<V>>)
    requires !disk.file.Torn?
    ensures !Run(disk, ops).disk.file.Torn?
  {
    if ops != [] {
      FileNeverTorn(disk, ops[..|ops| - 1]);
    }
  }

  /** Nothing is lost unless a flush failed: when every flush of the run completed, memory and disk are
      level and a restart changes nothing. */
  lemma {:induction false} NoFailureNoLoss<V>(disk: Disk<V>, ops: seq<Op<V>>)
    requires forall i :: 0 <= i < |ops| && !ops[i].Restart? ==> ops[i].stop == Completed
    ensures Load(Run(disk, ops).disk) == Run(disk, ops).data
    ensures Run(disk, ops + [Restart]).data == Run(disk, ops).data
  {
    assert (ops + [Restart])[..|ops|] == ops;
    if ops != [] {
      NoFailureNoLoss(disk, ops[..|ops| - 1]);
      var s, op := Run(disk, ops[..|ops| - 1]), ops[|ops| - 1];
      if op.Delete? && op.key !in s.data {
        assert s.data - {op.key} == s.data;
      }
    }
  }
}
