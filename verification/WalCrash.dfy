/**
 Crash recovery. A crash keeps some length of the file between what was synced
 and what was written; a record may be cut anywhere.
 */
module WalCrash {
  import opened ByteStrings
  import opened Core
  import opened WalRecords
  import opened WalCodec
  import opened WalCodecProofs
  import opened WalReader
  import opened WalReplay
  import opened WalWriter
  import opened InMemory
  import opened WalStorage
  import opened WalRuns

  /** The records recovery reads from a whole log and `k` bytes of one more record, if it can read them. */
  ghost function Surviving(log: seq<WalRecord>, record: WalRecord, k: nat): Option<seq<WalRecord>>
    requires Valid(record) && k <= |Encoded(record)|
  {
    if k == 0 then Some(log)
    else if k >= |RecordLine(record)| then Some(log + [record])
    else if CutInsideValue(record, k) then
      (TornRecord(record, k);
       Some(log + [record.(value := record.value[..ValueCut(record, k)])]))
    else None
  }

  lemma {:induction false} ReadTorn(log: seq<WalRecord>, record: WalRecord, k: nat)
    requires AllValid(log) && Valid(record) && k <= |Encoded(record)|
    ensures
      var r := ReadLog(LogBytes(log) + Torn(record, k));
      if Surviving(log, record, k).Some? then r == Success(Surviving(log, record, k).value) else r.Failure?
  {
    if k == 0 {
      assert LogBytes(log) + Torn(record, k) == LogBytes(log);
      ReadOfLog(log);
    } else if k == |Encoded(record)| {
      assert Torn(record, k) == Encoded(record);
      WholeTail(log, record);
    } else {
      TornRecord(record, k);
      TornTail(log, record, k);
    }
  }

  lemma WholeTail(log: seq<WalRecord>, record: WalRecord)
    requires AllValid(log) && Valid(record)
    ensures ReadLog(LogBytes(log) + Encoded(record)) == Success(log + [record])
  {
    hide LogBytes, Encoded, ReadLog;
    LogBytesSnoc(log, record);
    ReadOfLog(log + [record]);
  }

  lemma {:induction false} TornTail(log: seq<WalRecord>, record: WalRecord, k: nat)
    requires AllValid(log) && Valid(record) && 0 < k < |Encoded(record)|
    ensures
      var r, line := ReadLog(LogBytes(log) + Torn(record, k)), Decoded(Torn(record, k));
      if line.Success? then r == Success(log + [line.value]) else r.Failure?
  {
    TornHasNoLineFeed(record, k);
    hide LogBytes, Torn, ReadLog, Decoded, Encoded;
    ReadOfLogAndTail(log, Torn(record, k));
  }

  /** Replaying what survives: the old store, the new one, or the new one with a shorter value. */
  lemma ReplaySurviving(log: seq<WalRecord>, values: Store, record: WalRecord, k: nat)
    requires Replay(map[], log) == (values, Ok)
    requires Valid(record) && (record.kind.Del? ==> record.key in values)
    requires k <= |Encoded(record)| && Surviving(log, record, k).Some?
    ensures
      var (recovered, status) := Replay(map[], Surviving(log, record, k).value);
      && status.Ok?
      && (k == 0 ==> recovered == values)
      && (k >= |RecordLine(record)| && k > 0 ==>
            recovered == if record.kind.Set? then values[record.key := record.value] else values - {record.key})
      && (0 < k < |RecordLine(record)| ==>
            && record.kind.Set? && CutInsideValue(record, k) && 0 < ValueCut(record, k) < |record.value|
            && recovered == values[record.key := record.value[..ValueCut(record, k)]])
  {
    TornLengths(record, k);
    hide Encoded, RecordLine, CutInsideValue, Validate;
    var last := if 0 < k < |RecordLine(record)| then record.(value := record.value[..ValueCut(record, k)]) else record;
    ReplaySnoc(map[], log, last);
    hide Replay;
  }

  lemma TornLengths(record: WalRecord, k: nat)
    requires Valid(record) && k <= |Encoded(record)|
    ensures |Encoded(record)| == |RecordLine(record)| + 1
    ensures CutInsideValue(record, k) ==> record.kind.Set? && 0 < ValueCut(record, k) < |record.value|
  {
    if k < |Encoded(record)| {
      TornRecord(record, k);
    }
  }

  // ----- The file at the moment of the crash -----

  /** What the file may hold after a power failure: any length from the synced one on. */
  ghost function Cut(disk: Disk, length: nat): Disk
    requires length <= |disk.bytes|
  {
    disk.(bytes := disk.bytes[..length], synced := length)
  }

  /** A crash in the middle of one logged record: recovery serves exactly if the surviving file reads. */
  lemma {:induction false} RecoverTorn(
      disk: Disk, config: Config, log: seq<WalRecord>, values: Store, record: WalRecord, k: nat)
    requires config.path != [] && disk.created
    requires AllValid(log) && Replay(map[], log) == (values, Ok)
    requires Valid(record) && (record.kind.Del? ==> record.key in values)
    requires k <= |Encoded(record)| && disk.bytes == LogBytes(log) + Torn(record, k)
    ensures
      var n := Recovered(disk, config, AllOk).0;
      var survivors := Surviving(log, record, k);
      && (n.serving <==> survivors.Some?)
      && (n.serving ==>
            Replay(map[], survivors.value) == (n.state.values, Ok) && n.state.next == NextSequence(survivors.value))
  {
    ReadTorn(log, record, k);
    hide LogBytes, Torn, ReadLog, Encoded;
    var survivors := Surviving(log, record, k);
    if survivors.Some? {
      ReplaySurviving(log, values, record, k);
      RecoveryEffect(disk, config, AllOk, survivors.value);
    } else {
      UnreadableIsRefused(disk, config, AllOk);
    }
    hide Surviving, Recovered, Replay;
  }

  /** A SET whose value was cut short. */
  ghost predicate PrefixStored(values: Store, call: Call, recovered: Store)
  {
    call.SetCall? && exists n :: 0 < n <= |call.value| && recovered == values[call.key := call.value[..n]]
  }

  /** The call in flight did not happen, or it happened, or a nonempty prefix of its value was stored. */
  ghost predicate Explained(values: Store, call: Call, recovered: Store)
  {
    || recovered == values
    || recovered == Acknowledged(values, call, Done(Ok))
    || PrefixStored(values, call, recovered)
  }

  ghost predicate Durable(disk: Disk)
  {
    disk.synced == |disk.bytes|
  }

  lemma SurvivorsExplained(log: seq<WalRecord>, values: Store, s: State, call: Call, k: nat)
    requires Mutates(call) && Replay(map[], log) == (values, Ok)
    requires Valid(RecordFor(s.next, call)) && (call.RemoveCall? ==> call.key in values)
    requires k <= |Encoded(RecordFor(s.next, call))| && Surviving(log, RecordFor(s.next, call), k).Some?
    ensures
      var (recovered, status) := Replay(map[], Surviving(log, RecordFor(s.next, call), k).value);
      status.Ok? && Explained(values, call, recovered)
  {
    var record := RecordFor(s.next, call);
    ReplaySurviving(log, values, record, k);
    hide Surviving, Replay, Encoded, RecordLine, CutInsideValue, Valid;
    if 0 < k < |RecordLine(record)| {
      assert call.value[..ValueCut(record, k)] == record.value[..ValueCut(record, k)];
    }
  }

  /** For each key: the last acknowledged value, unless the call in flight was about it. */
  lemma {:induction false} ExplainedByKey(values: Store, call: Call, recovered: Store, key: Bytes)
    requires Explained(values, call, recovered)
    ensures !Mutates(call) || key != call.key ==> Lookup(recovered, key) == Lookup(values, key)
    ensures Mutates(call) && key == call.key ==>
      || Lookup(recovered, key) == Lookup(values, key)
      || Lookup(recovered, key) == (if call.SetCall? then Some(call.value) else None)
      || (call.SetCall? && Lookup(recovered, key).Some? && [] < Lookup(recovered, key).value <= call.value)
  {
    if PrefixStored(values, call, recovered) {
      var n :| 0 < n <= |call.value| && recovered == values[call.key := call.value[..n]];
      assert [] < call.value[..n] <= call.value;
    }
  }

  lemma PartOfRecord(record: WalRecord, m: nat, k: nat)
    requires k <= m <= |Encoded(record)|
    ensures Torn(record, m)[..k] == Torn(record, k)
  {
    hide Encoded;
  }

  /** The file during a call: the whole log, and a part of the record in flight. */
  lemma DuringCall(n: Node, config: Config, call: Call, io: Io, length: nat, log: seq<WalRecord>, values: Store)
    returns (k: nat)
    requires InStep(n, log, values)
    requires |n.state.writer.disk.bytes| <= length <= |DiskAfter(n, config, call, io).bytes|
    ensures n.state.writer.disk.created ==> DiskAfter(n, config, call, io).created
    ensures
      var disk, whole := DiskAfter(n, config, call, io), length == |DiskAfter(n, config, call, io).bytes|;
      && (k == 0 ==> disk.bytes[..length] == LogBytes(log) && !(Acknowledges(n, config, call, io) && whole))
      && (k > 0 ==>
            && Mutates(call) && Valid(RecordFor(n.state.next, call)) && (call.RemoveCall? ==> call.key in values)
            && disk.created && k <= |Encoded(RecordFor(n.state.next, call))|
            && disk.bytes[..length] == LogBytes(log) + Torn(RecordFor(n.state.next, call), k)
            && (Acknowledges(n, config, call, io) && whole ==> k == |Encoded(RecordFor(n.state.next, call))|))
  {
    var whole := LogBytes(log);
    assert whole[..|whole|] == whole;
    k := length - |whole|;
    if n.serving {
      var m := CallEffect(n, config, call, io);
      hide DiskAfter, Acknowledges, Encoded, AllValid, Replay, NextSequence;
      if m > 0 {
        CutWithin(whole, RecordFor(n.state.next, call), m, k);
      }
    }
  }

  lemma CutWithin(whole: Bytes, record: WalRecord, m: nat, k: nat)
    requires k <= m <= |Encoded(record)|
    ensures (whole + Torn(record, m))[..|whole| + k] == whole + Torn(record, k)
    ensures k == 0 ==> (whole + Torn(record, m))[..|whole|] == whole
  {
    hide Encoded;
    TakeOfAppend(whole, Torn(record, m), |whole| + k);
    PartOfRecord(record, m, k);
  }

  /** Under any policy: if the file survives up to where the call began, recovery reports an error or explains it. */
  lemma {:induction false} CrashFrom(
      n: Node, config: Config, call: Call, io: Io, length: nat, log: seq<WalRecord>, values: Store)
    requires config.path != [] && InStep(n, log, values)
    requires |n.state.writer.disk.bytes| <= length <= |DiskAfter(n, config, call, io).bytes|
    ensures
      var disk := DiskAfter(n, config, call, io);
      var recovered := Recovered(Cut(disk, length), config, AllOk).0;
      && (recovered.serving ==> Explained(values, call, recovered.state.values))
      && (Acknowledges(n, config, call, io) && length == |disk.bytes| ==>
            recovered.serving && recovered.state.values == Acknowledged(values, call, Done(Ok)))
  {
    var k := DuringCall(n, config, call, io, length, log, values);
    var disk := Cut(DiskAfter(n, config, call, io), length);
    hide DiskAfter, Acknowledges;
    if k == 0 {
      ReadOfLog(log);
      RecoveryEffect(disk, config, AllOk, log);
      hide Recovered, Replay, ReadLog, LogBytes;
    } else {
      var record := RecordFor(n.state.next, call);
      RecoverTorn(disk, config, log, values, record, k);
      hide Recovered, Replay, LogBytes;
      if Surviving(log, record, k).Some? {
        SurvivorsExplained(log, values, n.state, call, k);
      }
      if k == |Encoded(record)| {
        TornLengths(record, k);
        ReplaySurviving(log, values, record, k);
      }
      hide Surviving, Encoded, RecordLine;
    }
  }

  /** Under FsyncEveryWrite nothing before the call is at risk, and nothing of an acknowledged one. */
  lemma SyncedBefore(n: Node, config: Config, call: Call, io: Io)
    requires config.policy == FsyncEveryWrite && (n.serving ==> Writable(n.state.writer))
    requires Durable(n.state.writer.disk)
    ensures |n.state.writer.disk.bytes| <= DiskAfter(n, config, call, io).synced
    ensures Acknowledges(n, config, call, io) ==> Durable(DiskAfter(n, config, call, io))
  {
    if n.serving {
      var m := CallEffect(n, config, call, io);
      hide DiskAfter, Acknowledges, Encoded;
    }
  }

  /**
   Crash durability of one call on a process in step: recovery reports an error or explains the file, and an
   acknowledged call is always there in full.
   */
  lemma {:induction false} CrashDuringCall(
      n: Node, config: Config, call: Call, io: Io, length: nat, log: seq<WalRecord>, values: Store)
    requires config.policy == FsyncEveryWrite && config.path != []
    requires InStep(n, log, values) && Durable(n.state.writer.disk)
    requires DiskAfter(n, config, call, io).synced <= length <= |DiskAfter(n, config, call, io).bytes|
    ensures
      var recovered := Recovered(Cut(DiskAfter(n, config, call, io), length), config, AllOk).0;
      && (recovered.serving ==> Explained(values, call, recovered.state.values))
      && (Acknowledges(n, config, call, io) ==>
            recovered.serving && recovered.state.values == Acknowledged(values, call, Done(Ok)))
  {
    SyncedBefore(n, config, call, io);
    hide DiskAfter, Acknowledges, Recovered, Explained;
    CrashFrom(n, config, call, io, length, log, values);
  }

  // ----- Crashes at any point of any run -----

  lemma {:induction false} StepDurable(n: Node, config: Config, step: Step, log: seq<WalRecord>, values: Store)
    requires config.policy == FsyncEveryWrite && Harmless(config, step.io)
    requires InStep(n, log, values) && Durable(n.state.writer.disk)
    ensures Durable(Executed(n, config, step).0.state.writer.disk)
  {
    match step.op
    case Restart =>
      ReadOfLog(log);
      RecoveryEffect(n.state.writer.disk, config, step.io, log);
      hide Recovered, Replay, LogBytes, ReadLog;
    case Client(call) =>
      if n.serving {
        var m := CallEffect(n, config, call, step.io);
        hide ServeDurably, Replay, LogBytes, Encoded;
      }
  }

  lemma {:induction false} RunDurable(n: Node, config: Config, steps: seq<Step>, log: seq<WalRecord>, values: Store)
    returns (longer: seq<WalRecord>)
    requires config.policy == FsyncEveryWrite
    requires forall i :: 0 <= i < |steps| ==> Harmless(config, steps[i].io)
    requires InStep(n, log, values) && Durable(n.state.writer.disk)
    ensures InStep(Ran(n, config, steps), longer, AcknowledgedBy(n, values, config, steps))
    ensures Durable(Ran(n, config, steps).state.writer.disk)
    decreases |steps|
  {
    if steps == [] {
      longer := log;
    } else {
      hide InStep, Executed, Harmless, Durable;
      var (next, answer) := Executed(n, config, steps[0]);
      StepDurable(n, config, steps[0], log, values);
      var middle := StepInStep(n, config, steps[0], log, values);
      longer := RunDurable(next, config, steps[1..], middle, Counted(values, steps[0], answer));
    }
  }

  /**
   Crash durability. Take any run under FsyncEveryWrite whose failures wrote nothing, then one more call that the
   crash interrupts anywhere (`io` says how far it came), and let the file survive at any length between synced and
   written. Recovery then reports an error, or every key but the one in flight holds its last acknowledged value,
   and the key in flight holds its old outcome, its new outcome, or, for a SET, a nonempty prefix of the new value.
   A call that was acknowledged before the crash is there in full.
   */
  lemma {:induction false} CrashDurability(config: Config, steps: seq<Step>, call: Call, io: Io, length: nat)
    requires config.policy == FsyncEveryWrite && config.path != []
    requires forall i :: 0 <= i < |steps| ==> Harmless(config, steps[i].io)
    requires
      var disk := DiskAfter(Ran(FRESH, config, steps), config, call, io);
      disk.synced <= length <= |disk.bytes|
    ensures
      var n, values := Ran(FRESH, config, steps), AcknowledgedBy(FRESH, map[], config, steps);
      var recovered := Recovered(Cut(DiskAfter(n, config, call, io), length), config, AllOk).0;
      && (recovered.serving ==> Explained(values, call, recovered.state.values))
      && (Acknowledges(n, config, call, io) ==>
            recovered.serving && recovered.state.values == Acknowledged(values, call, Done(Ok)))
  {
    var log := RunDurable(FRESH, config, steps, [], map[]);
    var n := Ran(FRESH, config, steps);
    hide Ran, AcknowledgedBy, DiskAfter, Acknowledges, InStep;
    CrashDuringCall(n, config, call, io, length, log, AcknowledgedBy(FRESH, map[], config, steps));
  }

  // ----- Any policy, any length -----

  /** Some call of the run was in flight: the store is the acknowledged one before it, up to that call. */
  ghost predicate LandsAt(n: Node, values: Store, config: Config, steps: seq<Step>, j: nat, recovered: Store)
  {
    && j < |steps| && steps[j].op.Client?
    && Explained(AcknowledgedBy(n, values, config, steps[..j]), steps[j].op.call, recovered)
  }

  lemma LandsLater(n: Node, values: Store, config: Config, steps: seq<Step>, j: nat, recovered: Store)
    requires steps != []
    requires
      var (next, answer) := Executed(n, config, steps[0]);
      LandsAt(next, Counted(values, steps[0], answer), config, steps[1..], j, recovered)
    ensures LandsAt(n, values, config, steps, j + 1, recovered)
  {
    hide Executed, Explained;
    assert steps[..j + 1][0] == steps[0] && steps[..j + 1][1..] == steps[1..][..j];
  }

  /** A run in step only adds to the file. */
  lemma FileGrows(n: Node, config: Config, steps: seq<Step>, log: seq<WalRecord>, values: Store)
    requires InStep(n, log, values) && forall i :: 0 <= i < |steps| ==> Harmless(config, steps[i].io)
    ensures n.state.writer.disk.bytes <= Ran(n, config, steps).state.writer.disk.bytes
    ensures n.state.writer.disk.bytes != [] ==> Ran(n, config, steps).state.writer.disk.created
  {
    var longer := RunInStep(n, config, steps, log, values);
    LogBytesAppend(log, longer[|log|..]);
    assert log + longer[|log|..] == longer;
    hide Ran, Encoded;
  }

  lemma CallGrows(n: Node, config: Config, call: Call, io: Io)
    requires n.serving ==> Writable(n.state.writer)
    ensures n.state.writer.disk.bytes <= DiskAfter(n, config, call, io).bytes
    ensures n.state.writer.disk.created ==> DiskAfter(n, config, call, io).created
  {
    if n.serving {
      var m := CallEffect(n, config, call, io);
      hide DiskAfter, Acknowledges, Encoded;
    }
  }

  lemma SameCut(a: Disk, b: Disk, length: nat)
    requires a.bytes <= b.bytes && length <= |a.bytes| && a.created == b.created
    ensures Cut(a, length) == Cut(b, length)
  {
    assert a.bytes[..length] == b.bytes[..length];
  }

  /** What is on disk after a run and one more call. */
  ghost function FinalDisk(n: Node, config: Config, steps: seq<Step>, call: Call, io: Io): Disk
  {
    DiskAfter(Ran(n, config, steps), config, call, io)
  }

  lemma {:induction false} PrefixFrom(n: Node, config: Config, steps: seq<Step>, call: Call, io: Io, length: nat,
      log: seq<WalRecord>, values: Store) returns (j: nat)
    requires config.path != [] && InStep(n, log, values)
    requires forall i :: 0 <= i < |steps| ==> Harmless(config, steps[i].io)
    requires |n.state.writer.disk.bytes| <= length <= |FinalDisk(n, config, steps, call, io).bytes|
    ensures
      var recovered := Recovered(Cut(FinalDisk(n, config, steps, call, io), length), config, AllOk).0;
      var all := steps + [Step(Client(call), io)];
      recovered.serving ==> LandsAt(n, values, config, all, j, recovered.state.values)
    decreases |steps|
  {
    var all := steps + [Step(Client(call), io)];
    j := 0;
    if steps == [] {
      hide DiskAfter, Recovered, Explained;
      CrashFrom(n, config, call, io, length, log, values);
    } else {
      assert all[1..] == steps[1..] + [Step(Client(call), io)];
      var (next, answer) := Executed(n, config, steps[0]);
      var middle := StepInStep(n, config, steps[0], log, values);
      var counted := Counted(values, steps[0], answer);
      if |next.state.writer.disk.bytes| <= length {
        hide DiskAfter, Recovered, InStep, Executed, Harmless, LandsAt;
        j := PrefixFrom(next, config, steps[1..], call, io, length, middle, counted);
        var recovered := Recovered(Cut(FinalDisk(n, config, steps, call, io), length), config, AllOk).0;
        if recovered.serving {
          LandsLater(n, values, config, all, j, recovered.state.values);
        }
        j := j + 1;
      } else {
        CutEarly(n, config, steps, call, io, length, log, values, middle);
      }
    }
  }

  /** The cut falls inside the record of the first step. */
  lemma {:induction false} CutEarly(n: Node, config: Config, steps: seq<Step>, call: Call, io: Io, length: nat,
      log: seq<WalRecord>, values: Store, middle: seq<WalRecord>)
    requires config.path != [] && InStep(n, log, values) && steps != []
    requires forall i :: 0 <= i < |steps| ==> Harmless(config, steps[i].io)
    requires |n.state.writer.disk.bytes| <= length <= |FinalDisk(n, config, steps, call, io).bytes|
    requires
      var (next, answer) := Executed(n, config, steps[0]);
      InStep(next, middle, Counted(values, steps[0], answer)) && length < |next.state.writer.disk.bytes|
    ensures
      var recovered := Recovered(Cut(FinalDisk(n, config, steps, call, io), length), config, AllOk).0;
      var all := steps + [Step(Client(call), io)];
      recovered.serving ==> LandsAt(n, values, config, all, 0, recovered.state.values)
  {
    var (next, answer) := Executed(n, config, steps[0]);
    var last := Ran(next, config, steps[1..]);
    FileGrows(next, config, steps[1..], middle, Counted(values, steps[0], answer));
    var longer := RunInStep(next, config, steps[1..], middle, Counted(values, steps[0], answer));
    CallGrows(last, config, call, io);
    GrowsByCall(n, config, steps[0], log, values);
    var first := steps[0].op.call;
    assert next.state.writer.disk == DiskAfter(n, config, first, steps[0].io);
    hide Executed, DiskAfter, Recovered, Explained, Harmless;
    SameCut(next.state.writer.disk, FinalDisk(n, config, steps, call, io), length);
    CrashFrom(n, config, first, steps[0].io, length, log, values);
  }

  /** A step that adds to the file is a call on a serving process. */
  lemma GrowsByCall(n: Node, config: Config, step: Step, log: seq<WalRecord>, values: Store)
    requires InStep(n, log, values)
    requires |Executed(n, config, step).0.state.writer.disk.bytes| > |n.state.writer.disk.bytes|
    ensures step.op.Client? && n.serving
  {
    if step.op.Restart? {
      ReadOfLog(log);
      RecoveryEffect(n.state.writer.disk, config, step.io, log);
      hide Recovered, Replay, LogBytes, ReadLog;
    }
  }

  /**
   Prefix consistency. Under every policy, after every run whose failures wrote nothing and one more call that the
   crash interrupts anywhere, let the file survive at any length at all. Recovery then reports an error, or the map is
   what some first part of the calls was acknowledged for, except that the call after that part may also have
   happened, or, if it is a SET, a nonempty prefix of its value.
   */
  lemma {:induction false} PrefixConsistency(config: Config, steps: seq<Step>, call: Call, io: Io, length: nat)
    returns (j: nat)
    requires config.path != []
    requires forall i :: 0 <= i < |steps| ==> Harmless(config, steps[i].io)
    requires length <= |FinalDisk(FRESH, config, steps, call, io).bytes|
    ensures
      var recovered := Recovered(Cut(FinalDisk(FRESH, config, steps, call, io), length), config, AllOk).0;
      var all := steps + [Step(Client(call), io)];
      recovered.serving ==> LandsAt(FRESH, map[], config, all, j, recovered.state.values)
  {
    assert InStep(FRESH, [], map[]);
    hide Ran, Recovered, FinalDisk, LandsAt, InStep;
    j := PrefixFrom(FRESH, config, steps, call, io, length, [], map[]);
  }
}
