/**
 Runs of the durable engine: any sequence of calls and restarts under any
 behaviour of the operating system. The process serves only after a successful
 recovery, as the server runtime arranges (src/server/tcp_server_runtime.cpp:62-77).
 */
module WalRuns {
  import opened ByteStrings
  import opened Core
  import opened WalRecords
  import opened WalCodec
  import opened WalCodecProofs
  import opened WalReader
  import opened WalReplay
  import opened WalWriter
  import opened InMemory
  import opened WalStorage

  /** A process over its file; it serves calls once recovery has succeeded. */
  datatype Node = Node(state: State, serving: bool)

  datatype Op = Client(call: Call) | Restart

  datatype Step = Step(op: Op, io: Io)

  const FRESH := Node(State(Writer(Disk(false, [], 0), false, false), map[], 1), false)

  /** A new process over the same disk, before recovery. */
  ghost function Rebooted(disk: Disk): State
  {
    State(Writer(disk, false, false), map[], 1)
  }

  ghost function Recovered(disk: Disk, config: Config, io: Io): (Node, Status)
  {
    var (state, status) := AfterRecover(Rebooted(disk), config, io);
    (Node(state, status.Ok?), status)
  }

  /** The node after a step, and the answer when a client got one. */
  ghost function Executed(n: Node, config: Config, step: Step): (Node, Option<Answer>)
  {
    match step.op
    case Restart => (Recovered(n.state.writer.disk, config, step.io).0, None)
    case Client(call) =>
      if !n.serving then (n, None) else
      var (state, answer) := ServeDurably(n.state, config, call, step.io);
      (n.(state := state), Some(answer))
  }

  ghost function Ran(n: Node, config: Config, steps: seq<Step>): Node
    decreases |steps|
  {
    if steps == [] then n else Ran(Executed(n, config, steps[0]).0, config, steps[1..])
  }

  ghost function Counted(values: Store, step: Step, answer: Option<Answer>): Store
  {
    if answer.Some? && step.op.Client? then Acknowledged(values, step.op.call, answer.value) else values
  }

  /** `values` changed by the acknowledged mutations of the run and by nothing else. */
  ghost function AcknowledgedBy(n: Node, values: Store, config: Config, steps: seq<Step>): Store
    decreases |steps|
  {
    if steps == [] then values else
    var (next, answer) := Executed(n, config, steps[0]);
    AcknowledgedBy(next, Counted(values, steps[0], answer), config, steps[1..])
  }

  // ----- Appending under failures -----

  /** No write stops halfway: a failing append adds either nothing or the whole record. */
  ghost predicate Complete(io: Io)
  {
    io.WriteFails? ==> io.written == 0
  }

  /** A failing append adds nothing at all. */
  ghost predicate Harmless(config: Config, io: Io)
  {
    Complete(io) && (io.SyncFails? ==> config.policy != FsyncEveryWrite)
  }

  /** An append adds a part of its record; all of it when acknowledged. */
  lemma AppendCases(w: Writer, config: Config, record: WalRecord, io: Io) returns (n: nat)
    requires !w.closed && (w.open ==> w.disk.created)
    ensures
      var (after, status) := Appended(w, config, record, io);
      && !after.closed && (after.open ==> after.disk.created) && (w.disk.created ==> after.disk.created)
      && n <= |Encoded(record)|
      && after.disk.bytes == w.disk.bytes + Torn(record, n)
      && (n > 0 ==> Valid(record) && after.disk.created)
      && (status.Ok? ==> n == |Encoded(record)|)
      && (Complete(io) ==> n == 0 || n == |Encoded(record)|)
      && (Harmless(config, io) && status.Error? ==> n == 0)
      && (config.policy == FsyncEveryWrite && status.Ok? ==> after.disk.synced == |after.disk.bytes|)
      && (status.Error? ==> after.disk.synced == w.disk.synced)
  {
    var data := Encoded(record);
    assert w.disk.bytes + data[..0] == w.disk.bytes;
    assert data[..|data|] == data;
    assert data != [];
    hide Encoded, Validate, Valid;
    var ready := Opened(w, config, io);
    n := if Valid(record) && ready.1.Ok? then |Reached(data, io)| else 0;
    assert Torn(record, n) == if n == 0 then [] else Reached(data, io);
    hide Torn;
  }

  // ----- Whole-run agreement -----

  /** Sequence numbers 1, 2, 3, ... */
  ghost predicate Numbered(log: seq<WalRecord>)
  {
    forall i :: 0 <= i < |log| ==> log[i].sequenceNumber as int == i + 1
  }

  /** The file holds the log's records and nothing else, whatever map and counter are. */
  ghost predicate WholeFile(n: Node, log: seq<WalRecord>)
  {
    var disk := n.state.writer.disk;
    && AllValid(log) && disk.bytes == LogBytes(log) && (!disk.created ==> log == [])
    && (n.state.writer.open ==> disk.created)
    && (n.serving ==> Writable(n.state.writer))
  }

  /** The log on disk, the map in memory and the counter in step, with `values` acknowledged so far. */
  ghost predicate InStep(n: Node, log: seq<WalRecord>, values: Store)
  {
    && WholeFile(n, log)
    && Replay(map[], log) == (values, Ok)
    && (n.serving ==> n.state.values == values && n.state.next == NextSequence(log))
  }

  lemma {:induction false} NumberedMax(log: seq<WalRecord>)
    requires Numbered(log)
    ensures MaxSequence(log) as int == |log|
  {
    if log != [] {
      NumberedMax(log[..|log| - 1]);
    }
  }

  /** The next number makes the sequence of numbers one longer. */
  lemma NumberedFurther(log: seq<WalRecord>, record: WalRecord)
    requires Numbered(log) && record.sequenceNumber == NextSequence(log) && record.sequenceNumber != 0
    ensures Numbered(log + [record])
  {
    NumberedMax(log);
  }

  lemma Extend(log: seq<WalRecord>, values: Store, record: WalRecord)
    requires AllValid(log) && Replay(map[], log) == (values, Ok)
    requires Valid(record) && record.sequenceNumber == NextSequence(log)
    requires record.kind.Del? ==> record.key in values
    ensures AllValid(log + [record])
    ensures LogBytes(log + [record]) == LogBytes(log) + Encoded(record)
    ensures Replay(map[], log + [record])
      == (if record.kind.Set? then values[record.key := record.value] else values - {record.key}, Ok)
    ensures NextSequence(log + [record]) == Increment(record.sequenceNumber)
  {
    hide Encoded, Validate;
    LogBytesSnoc(log, record);
    ReplaySnoc(map[], log, record);
    assert (log + [record])[..|log|] == log;
  }

  /** A mutation is one append, followed, if that is acknowledged, by the same mutation of the map and one count. */
  lemma {:induction false} MutationIsAppend(s: State, config: Config, call: Call, io: Io)
    requires Mutates(call)
    ensures
      var (after, answer) := ServeDurably(s, config, call, io);
      var record := RecordFor(s.next, call);
      if call.RemoveCall? && call.key !in s.values then after == s && answer.status.Error?
      else if !Valid(record) then after == s && answer.status.Error?
      else
        var (writer, status) := Appended(s.writer, config, record, io);
        && answer == Done(status)
        && after == if status.Error? then s.(writer := writer)
                    else State(writer, Acknowledged(s.values, call, answer), Increment(s.next))
  {
    hide Encoded, Validate;
  }

  /** The writer of a serving process. */
  ghost predicate Writable(w: Writer)
  {
    !w.closed && (w.open ==> w.disk.created)
  }

  ghost function NodeAfter(n: Node, config: Config, call: Call, io: Io): Node
  {
    Executed(n, config, Step(Client(call), io)).0
  }

  ghost function DiskAfter(n: Node, config: Config, call: Call, io: Io): Disk
  {
    NodeAfter(n, config, call, io).state.writer.disk
  }

  /** A serving process acknowledges the mutation. */
  ghost predicate Acknowledges(n: Node, config: Config, call: Call, io: Io)
  {
    Executed(n, config, Step(Client(call), io)).1 == Some(Done(Ok))
  }

  /** What one call does to the file: `m` bytes of its record are appended. */
  lemma CallEffect(n: Node, config: Config, call: Call, io: Io) returns (m: nat)
    requires n.serving && Writable(n.state.writer)
    ensures NodeAfter(n, config, call, io).serving && Writable(NodeAfter(n, config, call, io).state.writer)
    ensures n.state.writer.disk.created || m > 0 ==> DiskAfter(n, config, call, io).created
    ensures m == 0 ==>
      DiskAfter(n, config, call, io).bytes == n.state.writer.disk.bytes && !Acknowledges(n, config, call, io)
    ensures m > 0 ==>
      && Mutates(call) && Valid(RecordFor(n.state.next, call)) && (call.RemoveCall? ==> call.key in n.state.values)
      && m <= |Encoded(RecordFor(n.state.next, call))|
      && DiskAfter(n, config, call, io).bytes == n.state.writer.disk.bytes + Torn(RecordFor(n.state.next, call), m)
      && (Acknowledges(n, config, call, io) || Complete(io) ==> m == |Encoded(RecordFor(n.state.next, call))|)
      && (Harmless(config, io) ==> Acknowledges(n, config, call, io))
    ensures Acknowledges(n, config, call, io) && config.policy == FsyncEveryWrite ==>
      DiskAfter(n, config, call, io).synced == |DiskAfter(n, config, call, io).bytes|
    ensures !Acknowledges(n, config, call, io) ==>
      DiskAfter(n, config, call, io).synced == n.state.writer.disk.synced
  {
    m := 0;
    if Mutates(call) {
      var record := RecordFor(n.state.next, call);
      MutationIsAppend(n.state, config, call, io);
      hide ServeDurably, Appended, Validate;
      if (call.SetCall? || call.key in n.state.values) && Valid(record) {
        m := AppendCases(n.state.writer, config, record, io);
        assert n.state.writer.disk.bytes + Torn(record, 0) == n.state.writer.disk.bytes;
        assert Encoded(record) != [];
      }
    }
  }

  /** What one call does to the map and the counter: nothing, unless it is acknowledged. */
  lemma CallCounts(n: Node, config: Config, call: Call, io: Io)
    requires n.serving
    ensures Executed(n, config, Step(Client(call), io)).1.Some?
    ensures NodeAfter(n, config, call, io).state.values
      == Acknowledged(n.state.values, call, Executed(n, config, Step(Client(call), io)).1.value)
    ensures NodeAfter(n, config, call, io).state.next
      == if Acknowledges(n, config, call, io) then Increment(n.state.next) else n.state.next
  {
    if Mutates(call) {
      MutationIsAppend(n.state, config, call, io);
      hide ServeDurably, Appended, Validate;
    }
  }

  /** The call was acknowledged, or it left the file alone. */
  ghost predicate Settled(n: Node, config: Config, call: Call, io: Io)
  {
    var (after, answer) := ServeDurably(n.state, config, call, io);
    answer == Done(Ok) || after.writer.disk.bytes == n.state.writer.disk.bytes
  }

  /** The engine gets as far as appending a record for the call. */
  ghost predicate Logs(s: State, call: Call)
  {
    Mutates(call) && Valid(RecordFor(s.next, call)) && (call.RemoveCall? ==> call.key in s.values)
  }

  /** A write that stops inside a record of that size, or a failed fsync after it. */
  ghost predicate FailsMidway(config: Config, io: Io, size: nat)
  {
    || (io.WriteFails? && 0 < io.written < size)
    || (io.SyncFails? && config.policy == FsyncEveryWrite)
  }

  /** The system fails after bytes of the call's record have reached the file. */
  ghost predicate LeavesBytesBehind(s: State, config: Config, call: Call, io: Io)
  {
    Logs(s, call) && config.path != [] && FailsMidway(config, io, |Encoded(RecordFor(s.next, call))|)
  }

  lemma StrayBytes(w: Writer, config: Config, record: WalRecord, io: Io)
    requires !w.closed && Valid(record)
    ensures
      var (after, status) := Appended(w, config, record, io);
      (status.Error? && after.disk.bytes != w.disk.bytes)
        <==> (config.path != [] && FailsMidway(config, io, |Encoded(record)|))
  {
    var data := Encoded(record);
    assert data != [];
    hide Encoded, Valid;
    PartIsNew(w.disk.bytes, Reached(data, io));
  }

  lemma PartIsNew(before: Bytes, part: Bytes)
    ensures before + part == before <==> part == []
  {
    assert |before + part| == |before| + |part|;
    assert part == [] ==> before + part == before;
  }

  /** Which calls settle can be told beforehand. */
  lemma SettledExactly(n: Node, config: Config, call: Call, io: Io)
    requires Writable(n.state.writer)
    ensures Settled(n, config, call, io) <==> !LeavesBytesBehind(n.state, config, call, io)
  {
    if Mutates(call) {
      MutationIsAppend(n.state, config, call, io);
      hide ServeDurably, Appended, Encoded, FailsMidway;
      if Logs(n.state, call) {
        StrayBytes(n.state.writer, config, RecordFor(n.state.next, call), io);
      }
    }
  }

  lemma HarmlessSettles(n: Node, config: Config, call: Call, io: Io)
    requires Writable(n.state.writer) && Harmless(config, io)
    ensures Settled(n, config, call, io)
  {
    SettledExactly(n, config, call, io);
    hide Settled, Encoded;
  }

  lemma ClientStep(n: Node, config: Config, call: Call, io: Io, log: seq<WalRecord>, values: Store)
    returns (longer: seq<WalRecord>)
    requires n.serving && InStep(n, log, values) && Settled(n, config, call, io)
    ensures
      var (next, answer) := Executed(n, config, Step(Client(call), io));
      && next.serving && answer.Some?
      && InStep(next, longer, Acknowledged(values, call, answer.value))
      && (longer == log || (Mutates(call) && longer == log + [RecordFor(n.state.next, call)]))
  {
    longer := log;
    var m := CallEffect(n, config, call, io);
    CallCounts(n, config, call, io);
    hide ServeDurably, Replay, LogBytes;
    if m > 0 {
      var record := RecordFor(n.state.next, call);
      PartIsNew(n.state.writer.disk.bytes, Torn(record, m));
      assert Torn(record, m) == Encoded(record);
      hide Encoded, Torn;
      Extend(log, values, record);
      longer := log + [record];
    }
  }

  /**
   A mutation keeps log, map and counter in step exactly unless the system fails after bytes of its record have
   reached the file: a torn write leaves a broken line, and a record whose fsync failed is in the file but neither
   in the map nor counted.
   */
  lemma {:induction false} InStepExactly(
      n: Node, config: Config, call: Call, io: Io, log: seq<WalRecord>, values: Store)
    requires n.serving && InStep(n, log, values)
    ensures
      var (next, answer) := Executed(n, config, Step(Client(call), io));
      && answer.Some?
      && ((exists longer :: InStep(next, longer, Acknowledged(values, call, answer.value)))
          <==> !LeavesBytesBehind(n.state, config, call, io))
  {
    SettledExactly(n, config, call, io);
    hide LeavesBytesBehind;
    var (next, answer) := Executed(n, config, Step(Client(call), io));
    if Settled(n, config, call, io) {
      var longer := ClientStep(n, config, call, io, log, values);
    } else {
      var record := RecordFor(n.state.next, call);
      var m := CallEffect(n, config, call, io);
      CallCounts(n, config, call, io);
      hide ServeDurably, Replay, LogBytes, MaxSequence, Torn;
      forall longer
        ensures !InStep(next, longer, Acknowledged(values, call, answer.value))
      {
        if InStep(next, longer, Acknowledged(values, call, answer.value)) {
          StrayRecord(log, longer, record, m);
        }
      }
    }
  }

  /** A file that ends in a part of a record, its line feed missing, does not end a line. */
  lemma TornEndsNoLine(before: Bytes, record: WalRecord, k: nat)
    requires 0 < k < |Encoded(record)|
    ensures !EndsLine(before + Torn(record, k))
  {
    TornHasNoLineFeed(record, k);
    hide Encoded, Torn;
    assert (before + Torn(record, k))[|before| + k - 1] == Torn(record, k)[k - 1];
  }

  /** No log of whole records ends in a torn one, and one that ends in a whole one counts it. */
  lemma {:induction false} StrayRecord(log: seq<WalRecord>, longer: seq<WalRecord>, record: WalRecord, k: nat)
    requires AllValid(log) && AllValid(longer) && Valid(record) && record.sequenceNumber == NextSequence(log)
    requires 0 < k <= |Encoded(record)| && LogBytes(longer) == LogBytes(log) + Torn(record, k)
    ensures NextSequence(longer) == Increment(record.sequenceNumber)
  {
    hide LogBytes, RecordLine;
    if k < |Encoded(record)| {
      LogBytesEndLine(longer);
      TornEndsNoLine(LogBytes(log), record, k);
    } else {
      assert Torn(record, k) == Encoded(record);
      hide Encoded, Torn, ReadLog;
      LogBytesSnoc(log, record);
      ReadOfLog(longer);
      ReadOfLog(log + [record]);
      assert (log + [record])[..|log|] == log;
    }
  }

  lemma TornHasNoLineFeed(record: WalRecord, k: nat)
    requires k < |Encoded(record)|
    ensures FreeOf(Torn(record, k), LF) && |Torn(record, k)| == k
  {
    assert |Encoded(record)| == |RecordLine(record)| + 1;
    TornIsPlain(record, k);
  }

  /**
   Recovery leaves the bytes alone. It serves, when the system does its part, exactly if the file reads and
   replays; it then holds the replayed map and the number after the largest one.
   */
  lemma {:induction false} RecoveryEffect(disk: Disk, config: Config, io: Io, log: seq<WalRecord>)
    requires ReadLog(disk.bytes) == Success(log) && (!disk.created ==> log == [])
    ensures
      var (n, status) := Recovered(disk, config, io);
      && n.state.writer.disk == disk.(created := n.state.writer.disk.created)
      && (disk.created || n.state.writer.open ==> n.state.writer.disk.created)
      && !n.state.writer.closed
      && (n.serving <==> status.Ok?)
      && (n.serving ==> n.state.writer.open && n.state.next == NextSequence(log))
      && (n.serving ==> Replay(map[], log) == (n.state.values, Ok))
      && (io == AllOk && config.path != [] ==> (n.serving <==> Replays(map[], log)))
  {
    FreshOpen(disk, config, io);
    RecoveredCases(disk, config, io, log);
    if log == [] {
      assert MaxSequence(log) == 0 && Replay(map[], log) == (map[], Ok);
    }
    hide ReadLog, Replay, MaxSequence, Opened, PathError, Ascii, Recovered;
  }

  /** Recovery gives up before replaying, or in it, or goes on to open the file. */
  lemma RecoveredCases(disk: Disk, config: Config, io: Io, log: seq<WalRecord>)
    requires ReadLog(disk.bytes) == Success(log)
    ensures
      var (n, status) := Recovered(disk, config, io);
      var (values, replayed) := Replay(map[], log);
      var (writer, opening) := Opened(Writer(disk, false, false), config, io);
      if config.path == [] || io.PathFails? || (disk.created && io.ReadFails?) then
        status.Error? && n == Node(Rebooted(disk), false)
      else if !disk.created then
        status == opening && n == Node(State(writer, map[], 1), opening.Ok?)
      else if replayed.Error? then
        status == replayed && n == Node(Rebooted(disk).(values := values), false)
      else
        status == opening && n == Node(State(writer, values, NextSequence(log)), opening.Ok?)
  {
    hide ReadLog, Replay, Opened, Ascii, MaxSequence;
  }

  /** With which error recovery gives up: the first that applies, in the order of its steps. */
  lemma {:induction false} RecoveryRefusal(disk: Disk, config: Config, io: Io)
    ensures
      var status := Recovered(disk, config, io).1;
      if config.path == [] then status == Error(InvalidArgument, Ascii("WAL file path must not be empty"))
      else if io.PathFails? then status == Error(Unavailable, Ascii(match io.problem
        case ParentMissing => "WAL parent directory does not exists"
        case ParentUninspectable => "failed to inspect WAL parent directory"
        case ParentNoDirectory => "WAL parent path is not a directory"
        case ParentTypeUninspectable => "failed to inspect WAL parent directory type"
        case FileUninspectable => "failed to inspect WAL file"))
      else if disk.created && io.ReadFails? then status == io.error
      else if disk.created && ReadLog(disk.bytes).Failure? then status == ReadLog(disk.bytes).error
      else if disk.created && !Replays(map[], ReadLog(disk.bytes).value) then
        status == Replay(map[], ReadLog(disk.bytes).value).1
      else if io.OpenFails? then
        status == Error(Unavailable, Ascii("failed to open WAL file for append") + Ascii(": ") + io.text)
      else status == Ok
  {
    hide ReadLog, Replay, Ascii, MaxSequence;
  }

  /**
   Recovery of an engine that may have served before: when it succeeds, the map is overridden by the last record of each
   key, and the counter follows the greatest number; without a file the map stays and the counter starts again at 1.
   */
  lemma {:induction false} RecoverOverMap(s: State, config: Config, io: Io)
    requires AfterRecover(s, config, io).1.Ok?
    ensures
      var after := AfterRecover(s, config, io).0;
      && after.writer.open && !after.writer.closed && after.writer.disk.bytes == s.writer.disk.bytes
      && (if !s.writer.disk.created then after.values == s.values && after.next == 1
          else
            && ReadLog(s.writer.disk.bytes).Success?
            && var log := ReadLog(s.writer.disk.bytes).value;
            && Overrides(s.values, log, after.values) && after.next == NextSequence(log))
  {
    hide ReadLog, Ascii, MaxSequence, Overrides, Replay;
    if s.writer.disk.created {
      ReplayOverrides(s.values, ReadLog(s.writer.disk.bytes).value);
    }
  }

  /** Recovering an engine that has just recovered changes nothing. */
  lemma {:induction false} RecoverTwice(disk: Disk, config: Config, io: Io)
    requires disk.created || disk.bytes == []
    requires Recovered(disk, config, io).1.Ok?
    ensures
      var engine := Recovered(disk, config, io).0.state;
      AfterRecover(engine, config, AllOk) == (engine, Ok)
  {
    assert ReadLog([]) == Success([]) && NextSequence([]) == 1 && Replay(map[], []) == (map[], Ok);
    var log := ReadLog(disk.bytes).value;
    hide ReadLog, Ascii, MaxSequence, Replay;
    if disk.created {
      ReplayIdempotent(map[], log);
    }
  }

  lemma FreshOpen(disk: Disk, config: Config, io: Io)
    ensures
      var (w, status) := Opened(Writer(disk, false, false), config, io);
      && w == Writer(disk.(created := w.disk.created), status.Ok?, false)
      && (disk.created || status.Ok? ==> w.disk.created)
      && (io == AllOk && config.path != [] ==> status.Ok?)
  {
    hide Ascii;
  }

  /** A file that does not read is not served. */
  lemma {:induction false} UnreadableIsRefused(disk: Disk, config: Config, io: Io)
    requires disk.created && ReadLog(disk.bytes).Failure?
    ensures !Recovered(disk, config, io).0.serving
  {
    hide ReadLog;
  }

  lemma StepInStep(n: Node, config: Config, step: Step, log: seq<WalRecord>, values: Store)
    returns (longer: seq<WalRecord>)
    requires InStep(n, log, values) && Harmless(config, step.io)
    ensures
      var (next, answer) := Executed(n, config, step);
      && InStep(next, longer, Counted(values, step, answer))
      && log <= longer
      && (Numbered(log) ==> Numbered(longer))
  {
    longer := log;
    match step.op
    case Restart =>
      ReadOfLog(log);
      RecoveryEffect(n.state.writer.disk, config, step.io, log);
      hide Recovered, Replay, LogBytes, ReadLog, Numbered, AllValid;
    case Client(call) =>
      if n.serving {
        HarmlessSettles(n, config, call, step.io);
        longer := ClientStep(n, config, call, step.io, log, values);
        if longer != log && Numbered(log) {
          assert Valid(longer[|log|]);
          NumberedFurther(log, RecordFor(n.state.next, call));
        }
      }
  }

  lemma {:induction false} RunInStep(n: Node, config: Config, steps: seq<Step>, log: seq<WalRecord>, values: Store)
    returns (longer: seq<WalRecord>)
    requires InStep(n, log, values)
    requires forall i :: 0 <= i < |steps| ==> Harmless(config, steps[i].io)
    ensures InStep(Ran(n, config, steps), longer, AcknowledgedBy(n, values, config, steps))
    ensures log <= longer
    ensures Numbered(log) ==> Numbered(longer)
    decreases |steps|
  {
    if steps == [] {
      longer := log;
    } else {
      hide InStep, Executed, Harmless, Numbered;
      var (next, answer) := Executed(n, config, steps[0]);
      var middle := StepInStep(n, config, steps[0], log, values);
      longer := RunInStep(next, config, steps[1..], middle, Counted(values, steps[0], answer));
    }
  }

  /**
   Whole-run agreement. Over any sequence of calls and restarts in which failing appends write nothing, the file
   is exactly the serialized records 1..n, it replays without error to the acknowledged mutations, and a serving
   process holds that map and the next number.
   */
  lemma {:induction false} WholeRun(config: Config, steps: seq<Step>)
    requires forall i :: 0 <= i < |steps| ==> Harmless(config, steps[i].io)
    ensures
      var n, values := Ran(FRESH, config, steps), AcknowledgedBy(FRESH, map[], config, steps);
      var log := ReadLog(n.state.writer.disk.bytes);
      log.Success? && InStep(n, log.value, values) && Numbered(log.value)
  {
    var log := RunInStep(FRESH, config, steps, [], map[]);
    ReadOfLog(log);
  }

  /** Every Del in such a file names a key that is live where it stands. */
  lemma {:induction false} WholeRunDeletesLive(config: Config, steps: seq<Step>, i: nat)
    requires forall k :: 0 <= k < |steps| ==> Harmless(config, steps[k].io)
    ensures
      var log := ReadLog(Ran(FRESH, config, steps).state.writer.disk.bytes);
      log.Success? && (i < |log.value| && log.value[i].kind.Del? ==>
        log.value[i].key in After(map[], log.value[..i]))
  {
    WholeRun(config, steps);
    hide Ran, ReadLog;
    ReplaysExactly(map[], ReadLog(Ran(FRESH, config, steps).state.writer.disk.bytes).value);
  }

  /** A restart after such a run brings back every acknowledged mutation and the counter. */
  lemma {:induction false} RestartRestores(config: Config, steps: seq<Step>)
    requires config.path != []
    requires forall i :: 0 <= i < |steps| ==> Harmless(config, steps[i].io)
    ensures
      var before, values := Ran(FRESH, config, steps), AcknowledgedBy(FRESH, map[], config, steps);
      var after := Executed(before, config, Step(Restart, AllOk)).0;
      && after.serving
      && after.state.values == values
      && after.state.writer.disk.bytes == before.state.writer.disk.bytes
      && (before.serving ==> after.state.values == before.state.values && after.state.next == before.state.next)
  {
    var log := RunInStep(FRESH, config, steps, [], map[]);
    var before, values := Ran(FRESH, config, steps), AcknowledgedBy(FRESH, map[], config, steps);
    hide Ran, AcknowledgedBy;
    ReadOfLog(log);
    RecoveryEffect(before.state.writer.disk, config, AllOk, log);
    hide Recovered, Replay, LogBytes, ReadLog;
  }

  // ----- Why a failed fsync ends the agreement -----

  /**
   Setting a key, deleting it with a failing fsync and deleting it again puts two Dels of that key in the
   file. Both deletes look harmless to the client, but no later recovery gets past the second one.
   */
  lemma {:induction false} UnsyncedDeleteBreaksRecovery(config: Config, key: Bytes, value: Bytes, text: Bytes)
    requires config.path != [] && config.policy == FsyncEveryWrite && key != [] && value != []
    ensures
      var steps := [
        Step(Restart, AllOk),
        Step(Client(SetCall(key, value)), AllOk),
        Step(Client(RemoveCall(key)), SyncFails(text)),
        Step(Client(RemoveCall(key)), AllOk)];
      var n := Ran(FRESH, config, steps);
      n.serving && !Recovered(n.state.writer.disk, config, AllOk).0.serving
  {
    var steps := [
      Step(Restart, AllOk),
      Step(Client(SetCall(key, value)), AllOk),
      Step(Client(RemoveCall(key)), SyncFails(text)),
      Step(Client(RemoveCall(key)), AllOk)];
    var put, del := MakeSetRecord(1, key, value), MakeDelRecord(2, key);
    var n := FourSteps(config, steps);
    var disk0 := Disk(true, [], 0);
    var disk1 := Disk(true, [] + Encoded(put), |Encoded(put)|);
    var disk2 := disk1.(bytes := disk1.bytes + Encoded(del));
    ServeEach(config, key, value, text, disk0, disk1, disk2);
    var disk := Disk(true, disk2.bytes + Encoded(del), |disk2.bytes + Encoded(del)|);
    assert n == Serving(disk, map[key := value] - {key}, 3);
    hide Ran, Executed;
    TwoDeletes(put, del, disk.bytes);
    hide ReadLog, Replay, Encoded;
  }

  ghost function Serving(disk: Disk, values: Store, next: Uint64): Node
  {
    Node(State(Writer(disk, true, false), values, next), true)
  }

  lemma ServeEach(config: Config, key: Bytes, value: Bytes, text: Bytes, disk0: Disk, disk1: Disk, disk2: Disk)
    requires config.path != [] && config.policy == FsyncEveryWrite && key != [] && value != []
    requires disk0 == Disk(true, [], 0)
    requires disk1.bytes == [] + Encoded(MakeSetRecord(1, key, value))
    requires disk1 == Disk(true, disk1.bytes, |disk1.bytes|)
    requires disk2 == disk1.(bytes := disk1.bytes + Encoded(MakeDelRecord(2, key)))
    ensures Executed(FRESH, config, Step(Restart, AllOk)).0 == Serving(disk0, map[], 1)
    ensures Executed(Serving(disk0, map[], 1), config, Step(Client(SetCall(key, value)), AllOk)).0
      == Serving(disk1, map[key := value], 2)
    ensures
      var held := map[key := value];
      Executed(Serving(disk1, held, 2), config, Step(Client(RemoveCall(key)), SyncFails(text))).0
        == Serving(disk2, held, 2)
    ensures
      var held := map[key := value];
      var grown := disk2.bytes + Encoded(MakeDelRecord(2, key));
      Executed(Serving(disk2, held, 2), config, Step(Client(RemoveCall(key)), AllOk)).0
        == Serving(Disk(true, grown, |grown|), held - {key}, 3)
  {
    hide Encoded, Validate;
  }

  lemma {:induction false} TwoDeletes(put: WalRecord, del: WalRecord, bytes: Bytes)
    requires Valid(put) && put.kind.Set? && Valid(del) && del.kind.Del? && put.key == del.key
    requires bytes == [] + Encoded(put) + Encoded(del) + Encoded(del)
    ensures ReadLog(bytes) == Success([put, del, del])
    ensures Replay(map[], [put, del, del]).1.Error?
  {
    LogBytesSnoc([], put);
    LogBytesSnoc([put], del);
    LogBytesSnoc([put, del], del);
    ReplaySnoc(map[], [], put);
    ReplaySnoc(map[], [put], del);
    ReplaySnoc(map[], [put, del], del);
    assert [] + [put] == [put] && [put] + [del] == [put, del] && [put, del] + [del] == [put, del, del];
    assert LogBytes([]) == [];
    ReadOfLog([put, del, del]);
    hide ReadLog, LogBytes, Encoded, Validate;
  }

  lemma FourSteps(config: Config, steps: seq<Step>) returns (n: Node)
    requires |steps| == 4
    ensures n == Ran(FRESH, config, steps)
    ensures
      var a := Executed(FRESH, config, steps[0]).0;
      var b := Executed(a, config, steps[1]).0;
      var c := Executed(b, config, steps[2]).0;
      n == Executed(c, config, steps[3]).0
  {
    hide Executed;
    var a := Executed(FRESH, config, steps[0]).0;
    var b := Executed(a, config, steps[1]).0;
    var c := Executed(b, config, steps[2]).0;
    n := Executed(c, config, steps[3]).0;
    assert steps[1..][1..] == steps[2..] && steps[2..][1..] == steps[3..] && steps[3..][1..] == [];
    assert Ran(c, config, steps[3..]) == Ran(n, config, []);
    assert Ran(b, config, steps[2..]) == Ran(c, config, steps[3..]);
    assert Ran(a, config, steps[1..]) == Ran(b, config, steps[2..]);
  }
}
