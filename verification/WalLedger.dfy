/**
 Which calls a file holds, and which of them were acknowledged. A record whose
 fsync failed, or whose process died before it answered, is in the file like any
 other: recovery serves it, and a later power failure may take it back. No
 acknowledged record is taken back.
 */
module WalLedger {
  import opened ByteStrings
  import opened Core
  import opened WalRecords
  import opened WalCodec
  import opened WalCodecProofs
  import opened WalReader
  import opened WalReplay
  import opened WalWriter
  import opened InMemory
  import opened WalStorage
  import opened WalRuns
  import opened WalRecoverable
  import opened WalCrash
  import opened WalRestart

  /** A mutation whose record is in the file. */
  datatype Entry = Entry(call: Call, acked: bool)

  /** The store that the calls make, one after the other. */
  ghost function Applied(entries: seq<Entry>): Store
  {
    if entries == [] then map[] else
    Acknowledged(Applied(entries[..|entries| - 1]), entries[|entries| - 1].call, Done(Ok))
  }

  /** The acknowledged ones, in order. */
  ghost function Acked(entries: seq<Entry>): seq<Entry>
  {
    if entries == [] then [] else
    Acked(entries[..|entries| - 1]) + if entries[|entries| - 1].acked then [entries[|entries| - 1]] else []
  }

  lemma AppliedSnoc(entries: seq<Entry>, entry: Entry)
    ensures Applied(entries + [entry]) == Acknowledged(Applied(entries), entry.call, Done(Ok))
    ensures Acked(entries + [entry]) == Acked(entries) + if entry.acked then [entry] else []
  {
    assert (entries + [entry])[..|entries|] == entries;
  }

  lemma {:induction false} AckedConcat(a: seq<Entry>, b: seq<Entry>)
    ensures Acked(a + b) == Acked(a) + Acked(b)
    decreases |b|
  {
    if b == [] {
      assert a + b == a && Acked(a) + [] == Acked(a);
    } else {
      var front, last := b[..|b| - 1], b[|b| - 1];
      AckedConcat(a, front);
      ConcatAssoc(a, front, [last]);
      assert front + [last] == b;
      AppliedSnoc(a + front, last);
      ConcatAssoc(Acked(a), Acked(front), if last.acked then [last] else []);
    }
  }

  /** Record by record the log is what the calls log, whatever the numbers. */
  ghost predicate Matching(log: seq<WalRecord>, entries: seq<Entry>)
  {
    && |log| == |entries|
    && forall i :: 0 <= i < |log| ==>
        Mutates(entries[i].call) && log[i] == RecordFor(log[i].sequenceNumber, entries[i].call)
  }

  lemma {:induction false} MatchingApplied(log: seq<WalRecord>, entries: seq<Entry>)
    requires Matching(log, entries) && Replays(map[], log)
    ensures After(map[], log) == Applied(entries)
    decreases |log|
  {
    if log != [] {
      var n := |log| - 1;
      assert Matching(log[..n], entries[..n]);
      MatchingApplied(log[..n], entries[..n]);
      hide Validate;
    }
  }

  // ----- What a run writes -----

  /** The entry that a step adds to the file, if it adds anything. */
  ghost function EntryOf(n: Node, config: Config, step: Step): seq<Entry>
  {
    var (next, answer) := Executed(n, config, step);
    if step.op.Client? && next.state.writer.disk.bytes != n.state.writer.disk.bytes
      then [Entry(step.op.call, answer == Some(Done(Ok)))]
    else []
  }

  ghost function LoggedBy(n: Node, config: Config, steps: seq<Step>): seq<Entry>
    decreases |steps|
  {
    if steps == [] then [] else
    EntryOf(n, config, steps[0]) + LoggedBy(Executed(n, config, steps[0]).0, config, steps[1..])
  }

  lemma {:induction false} SameLog(a: seq<WalRecord>, b: seq<WalRecord>)
    requires AllValid(a) && AllValid(b) && LogBytes(a) == LogBytes(b)
    ensures a == b
  {
    ReadOfLog(a);
    ReadOfLog(b);
  }

  lemma CallEntry(n: Node, config: Config, call: Call, io: Io)
    requires config.path != [] && n.serving && Writable(n.state.writer) && Complete(io)
    ensures
      var disk, logs := DiskAfter(n, config, call, io), Logs(n.state, call) && Reaches(n.state.writer, io);
      && disk.bytes == n.state.writer.disk.bytes + (if logs then Encoded(RecordFor(n.state.next, call)) else [])
      && (n.state.writer.disk.created || logs ==> disk.created)
      && EntryOf(n, config, Step(Client(call), io))
          == if logs then [Entry(call, Acknowledges(n, config, call, io))] else []
  {
    LoggedWhole(n, config, call, io);
    if Mutates(call) {
      PartIsNew(n.state.writer.disk.bytes, Encoded(RecordFor(n.state.next, call)));
      assert Encoded(RecordFor(n.state.next, call)) != [];
    }
    assert n.state.writer.disk.bytes + [] == n.state.writer.disk.bytes;
    hide ServeDurably, Encoded, Valid, Reaches, Recovered;
  }

  lemma CallLogs(n: Node, config: Config, call: Call, io: Io, log: seq<WalRecord>, entries: seq<Entry>)
    returns (longer: seq<WalRecord>)
    requires config.path != [] && n.serving && WholeFile(n, log) && Matching(log, entries) && Complete(io)
    ensures
      var step := Step(Client(call), io);
      WholeFile(Executed(n, config, step).0, longer) && Matching(longer, entries + EntryOf(n, config, step))
  {
    CallEntry(n, config, call, io);
    var m := CallEffect(n, config, call, io);
    assert NodeAfter(n, config, call, io) == Executed(n, config, Step(Client(call), io)).0;
    hide Executed, Acknowledges, EntryOf, Reaches, Torn, Complete;
    longer := log;
    if Logs(n.state, call) && Reaches(n.state.writer, io) {
      var record := RecordFor(n.state.next, call);
      longer := log + [record];
      hide Encoded, Valid;
      LogBytesSnoc(log, record);
      hide LogBytes;
      MatchingFurther(log, entries, record, Entry(call, Acknowledges(n, config, call, io)));
    } else {
      hide Encoded, LogBytes, Valid;
      assert n.state.writer.disk.bytes + [] == n.state.writer.disk.bytes && entries + [] == entries;
    }
  }

  lemma MatchingFurther(log: seq<WalRecord>, entries: seq<Entry>, record: WalRecord, entry: Entry)
    requires Matching(log, entries) && Mutates(entry.call)
    requires record == RecordFor(record.sequenceNumber, entry.call)
    ensures Matching(log + [record], entries + [entry])
  {
  }

  lemma {:induction false} StepLogs(n: Node, config: Config, step: Step, log: seq<WalRecord>, entries: seq<Entry>)
    returns (longer: seq<WalRecord>)
    requires config.path != [] && WholeFile(n, log) && Matching(log, entries) && Complete(step.io)
    ensures WholeFile(Executed(n, config, step).0, longer) && Matching(longer, entries + EntryOf(n, config, step))
  {
    longer := log;
    assert entries + [] == entries;
    match step.op
    case Restart =>
      ReadOfLog(log);
      RecoveryEffect(n.state.writer.disk, config, step.io, log);
      hide Recovered, ReadLog, LogBytes, Replay, AllValid, Matching;
    case Client(call) =>
      if n.serving {
        longer := CallLogs(n, config, call, step.io, log, entries);
        hide WholeFile, EntryOf, Executed, Matching;
      }
  }

  lemma {:induction false} RunLogs(
      n: Node, config: Config, steps: seq<Step>, log: seq<WalRecord>, entries: seq<Entry>)
    returns (longer: seq<WalRecord>)
    requires config.path != [] && WholeFile(n, log) && Matching(log, entries)
    requires forall i :: 0 <= i < |steps| ==> Complete(steps[i].io)
    ensures WholeFile(Ran(n, config, steps), longer) && Matching(longer, entries + LoggedBy(n, config, steps))
    decreases |steps|
  {
    if steps == [] {
      longer := log;
      assert entries + [] == entries;
    } else {
      hide WholeFile, Matching, Executed, EntryOf, Complete;
      var next, entry := Executed(n, config, steps[0]).0, EntryOf(n, config, steps[0]);
      var middle := StepLogs(n, config, steps[0], log, entries);
      longer := RunLogs(next, config, steps[1..], middle, entries + entry);
      ConcatAssoc(entries, entry, LoggedBy(next, config, steps[1..]));
    }
  }

  // ----- What clients were told -----

  lemma StepCounts(n: Node, config: Config, step: Step, entries: seq<Entry>)
    requires n.serving ==> Writable(n.state.writer)
    ensures Counted(Applied(Acked(entries)), step, Executed(n, config, step).1)
      == Applied(Acked(entries + EntryOf(n, config, step)))
  {
    assert entries + [] == entries && Acked(entries) + [] == Acked(entries);
    if step.op.Client? && n.serving {
      var call := step.op.call;
      var m := CallEffect(n, config, call, step.io);
      CallCounts(n, config, call, step.io);
      if m > 0 {
        PartIsNew(n.state.writer.disk.bytes, Torn(RecordFor(n.state.next, call), m));
      }
      var entry := Entry(call, Acknowledges(n, config, call, step.io));
      AppliedSnoc(entries, entry);
      AppliedSnoc(Acked(entries), entry);
      hide ServeDurably, Applied, Acked, Encoded, Valid;
    }
  }

  lemma {:induction false} RunCounts(
      n: Node, config: Config, steps: seq<Step>, log: seq<WalRecord>, entries: seq<Entry>)
    requires config.path != [] && WholeFile(n, log) && Matching(log, entries)
    requires forall i :: 0 <= i < |steps| ==> Complete(steps[i].io)
    ensures AcknowledgedBy(n, Applied(Acked(entries)), config, steps)
      == Applied(Acked(entries + LoggedBy(n, config, steps)))
    decreases |steps|
  {
    if steps == [] {
      assert entries + [] == entries;
    } else {
      var (next, answer) := Executed(n, config, steps[0]);
      var entry := EntryOf(n, config, steps[0]);
      StepCounts(n, config, steps[0], entries);
      hide WholeFile, Matching, Executed, EntryOf, Complete, Applied, Acked, Counted;
      var middle := StepLogs(n, config, steps[0], log, entries);
      RunCounts(next, config, steps[1..], middle, entries + entry);
      ConcatAssoc(entries, entry, LoggedBy(next, config, steps[1..]));
    }
  }

  // ----- Which map recovery serves -----

  /** The last entry about `key`. */
  ghost function LastAbout(entries: seq<Entry>, key: Bytes): Option<Entry>
  {
    if entries == [] then None
    else if Mutates(entries[|entries| - 1].call) && entries[|entries| - 1].call.key == key then
      Some(entries[|entries| - 1])
    else LastAbout(entries[..|entries| - 1], key)
  }

  /** What a mutation leaves under its key. */
  ghost function Leaves(call: Call): Option<Bytes>
    requires Mutates(call)
  {
    if call.SetCall? then Some(call.value) else None
  }

  lemma {:induction false} AppliedByKey(entries: seq<Entry>, key: Bytes)
    requires forall i :: 0 <= i < |entries| ==> Mutates(entries[i].call)
    ensures
      var last := LastAbout(entries, key);
      && (last.Some? ==> Mutates(last.value.call))
      && Lookup(Applied(entries), key) == if last.None? then None else Leaves(last.value.call)
    decreases |entries|
  {
    if entries != [] {
      AppliedByKey(entries[..|entries| - 1], key);
    }
  }

  lemma {:induction false} LastOfAcked(entries: seq<Entry>, key: Bytes)
    ensures forall i :: 0 <= i < |Acked(entries)| ==> Acked(entries)[i] in entries
    ensures LastAbout(entries, key).None? || LastAbout(entries, key).value.acked ==>
      LastAbout(Acked(entries), key) == LastAbout(entries, key)
    decreases |entries|
  {
    if entries != [] {
      var front, last := entries[..|entries| - 1], entries[|entries| - 1];
      LastOfAcked(front, key);
      assert front + [last] == entries;
      AppliedSnoc(front, last);
      if last.acked {
        assert (Acked(front) + [last])[..|Acked(front)|] == Acked(front);
      } else {
        assert Acked(front) + [] == Acked(front);
      }
    }
  }

  lemma {:induction false} RunRecovers(config: Config, steps: seq<Step>)
    requires config.path != []
    requires forall i :: 0 <= i < |steps| ==> Complete(steps[i].io)
    ensures
      var entries := LoggedBy(FRESH, config, steps);
      var recovered := Recovered(Ran(FRESH, config, steps).state.writer.disk, config, AllOk).0;
      && (forall i :: 0 <= i < |entries| ==> Mutates(entries[i].call))
      && (recovered.serving ==> recovered.state.values == Applied(entries))
      && AcknowledgedBy(FRESH, map[], config, steps) == Applied(Acked(entries))
  {
    var entries := LoggedBy(FRESH, config, steps);
    assert WholeFile(FRESH, []) && Matching([], []) && [] + entries == entries;
    assert Applied(Acked([])) == map[];
    hide LoggedBy, Ran, AcknowledgedBy, Applied, Acked, Complete;
    var log := RunLogs(FRESH, config, steps, [], []);
    RunCounts(FRESH, config, steps, [], []);
    var disk := Ran(FRESH, config, steps).state.writer.disk;
    hide LogBytes, FRESH, AllValid;
    ReadOfLog(log);
    RecoveryEffect(disk, config, AllOk, log);
    hide Recovered, ReadLog;
    if Replays(map[], log) {
      MatchingApplied(log, entries);
    }
    hide Replay;
  }

  /**
   After any run with complete writes, fsyncs and processes failing as they may, a recovery that serves gives every
   key its acknowledged outcome, unless the last record about the key was not acknowledged: then it gives that
   record's.
   */
  lemma {:induction false} RecoveredByKey(config: Config, steps: seq<Step>, key: Bytes)
    requires config.path != []
    requires forall i :: 0 <= i < |steps| ==> Complete(steps[i].io)
    ensures
      var recovered := Recovered(Ran(FRESH, config, steps).state.writer.disk, config, AllOk).0;
      var told, last := AcknowledgedBy(FRESH, map[], config, steps), LastAbout(LoggedBy(FRESH, config, steps), key);
      && (last.Some? ==> Mutates(last.value.call))
      && var expected := if last.None? || last.value.acked then Lookup(told, key) else Leaves(last.value.call);
      recovered.serving ==> Lookup(recovered.state.values, key) == expected
  {
    hide LoggedBy, Ran, AcknowledgedBy, Applied, Acked, Complete, Recovered, LastAbout, Lookup;
    var entries := LoggedBy(FRESH, config, steps);
    RunRecovers(config, steps);
    LastOfAcked(entries, key);
    AppliedByKey(entries, key);
    AppliedByKey(Acked(entries), key);
  }

  // ----- Lives -----

  /** How a process ends: with the machine, the file surviving at some length, or alone, leaving the file as it is. */
  datatype Ending = PowerFailure(length: nat) | ProcessDeath

  /** A run, the call that its end interrupts, and that end. */
  datatype Episode = Episode(steps: seq<Step>, call: Call, io: Io, ending: Ending)

  /** The run's failures write nothing, and a power failure keeps at least what is synced. */
  ghost predicate Possible(n: Node, config: Config, e: Episode)
  {
    var disk := FinalDisk(n, config, e.steps, e.call, e.io);
    && (forall i :: 0 <= i < |e.steps| ==> Harmless(config, e.steps[i].io))
    && (e.ending.PowerFailure? ==> disk.synced <= e.ending.length <= |disk.bytes|)
  }

  ghost function Remains(n: Node, config: Config, e: Episode): Disk
    requires Possible(n, config, e)
  {
    var disk := FinalDisk(n, config, e.steps, e.call, e.io);
    if e.ending.PowerFailure? then Cut(disk, e.ending.length) else disk
  }

  /** Every end of a life leaves a file that is empty or ends a line. */
  ghost predicate LeavesLines(n: Node, config: Config, life: seq<Episode>)
    decreases |life|
  {
    life == [] ||
    (&& Possible(n, config, life[0]) && EndsLine(Remains(n, config, life[0]).bytes)
     && LeavesLines(Reborn(Remains(n, config, life[0]), config), config, life[1..]))
  }

  /** The process after the last recovery. */
  ghost function LastBorn(n: Node, config: Config, life: seq<Episode>): Node
    requires LeavesLines(n, config, life)
    decreases |life|
  {
    if life == [] then n else LastBorn(Reborn(Remains(n, config, life[0]), config), config, life[1..])
  }

  /** All that an episode writes, the interrupted call last. */
  ghost function WrittenIn(n: Node, config: Config, e: Episode): seq<Entry>
  {
    LoggedBy(n, config, e.steps) + EntryOf(Ran(n, config, e.steps), config, Step(Client(e.call), e.io))
  }

  /** The mutations that clients saw acknowledged over a life, in order. */
  ghost function AckedOver(n: Node, config: Config, life: seq<Episode>): seq<Entry>
    requires LeavesLines(n, config, life)
    decreases |life|
  {
    if life == [] then [] else
    Acked(WrittenIn(n, config, life[0])) + AckedOver(Reborn(Remains(n, config, life[0]), config), config, life[1..])
  }

  /** The entries that nobody saw acknowledged come from these calls. */
  ghost predicate OnlyThese(entries: seq<Entry>, calls: seq<Call>)
  {
    forall e :: e in entries && !e.acked ==> e.call in calls
  }

  // ----- What is durable -----

  /** `entries` are in the file, and the first `count` of them, all acknowledged ones included, are durable. */
  ghost predicate Kept(synced: nat, log: seq<WalRecord>, entries: seq<Entry>, count: nat)
  {
    && count <= |log| && Matching(log, entries)
    && (forall i :: count <= i < |entries| ==> !entries[i].acked)
    && |LogBytes(log[..count])| <= synced
  }

  lemma {:induction false} NoneAcked(entries: seq<Entry>)
    requires forall i :: 0 <= i < |entries| ==> !entries[i].acked
    ensures Acked(entries) == []
    decreases |entries|
  {
    if entries != [] {
      NoneAcked(entries[..|entries| - 1]);
    }
  }

  /** Taking back unacknowledged entries from the end takes back nothing that was acknowledged. */
  lemma {:induction false} AckedPrefix(entries: seq<Entry>, count: nat, i: nat)
    requires count <= i <= |entries|
    requires forall k :: count <= k < |entries| ==> !entries[k].acked
    ensures Acked(entries[..i]) == Acked(entries)
  {
    NoneAcked(entries[i..]);
    AckedConcat(entries[..i], entries[i..]);
    assert entries[..i] + entries[i..] == entries;
    assert Acked(entries[..i]) + [] == Acked(entries[..i]);
  }

  /** What a harmless step adds is durable when it returns, and acknowledged. */
  lemma StepSynced(n: Node, config: Config, step: Step, log: seq<WalRecord>, values: Store)
    requires config.policy == FsyncEveryWrite && Harmless(config, step.io) && InStep(n, log, values)
    ensures
      var after := Executed(n, config, step).0.state.writer.disk;
      if EntryOf(n, config, step) == [] then
        after.bytes == n.state.writer.disk.bytes && after.synced == n.state.writer.disk.synced
      else Durable(after) && forall e :: e in EntryOf(n, config, step) ==> e.acked
  {
    match step.op
    case Restart =>
      ReadOfLog(log);
      RecoveryEffect(n.state.writer.disk, config, step.io, log);
      hide Recovered, ReadLog, LogBytes, Replay, AllValid;
    case Client(call) =>
      if n.serving {
        var m := CallEffect(n, config, call, step.io);
        hide ServeDurably, Replay, LogBytes, Encoded, Torn, AllValid;
      }
  }

  lemma {:induction false} StepKept(n: Node, config: Config, step: Step, log: seq<WalRecord>, values: Store,
      entries: seq<Entry>, count: nat) returns (longer: seq<WalRecord>, durable: nat)
    requires config.policy == FsyncEveryWrite && config.path != [] && Harmless(config, step.io)
    requires InStep(n, log, values) && Kept(n.state.writer.disk.synced, log, entries, count)
    ensures
      var (next, answer) := Executed(n, config, step);
      && InStep(next, longer, Counted(values, step, answer))
      && Kept(next.state.writer.disk.synced, longer, entries + EntryOf(n, config, step), durable)
  {
    StepSynced(n, config, step, log, values);
    var also := StepLogs(n, config, step, log, entries);
    longer := StepInStep(n, config, step, log, values);
    hide Executed, Harmless, Replay, EntryOf, Encoded, Valid;
    SameLog(also, longer);
    durable := if EntryOf(n, config, step) == [] then count else |longer|;
    if EntryOf(n, config, step) == [] {
      assert entries + [] == entries;
      SameLog(log, longer);
    }
    assert longer[..|longer|] == longer;
    hide LogBytes, AllValid;
  }

  lemma {:induction false} RunKept(n: Node, config: Config, steps: seq<Step>, log: seq<WalRecord>, values: Store,
      entries: seq<Entry>, count: nat) returns (longer: seq<WalRecord>, durable: nat)
    requires config.policy == FsyncEveryWrite && config.path != []
    requires forall i :: 0 <= i < |steps| ==> Harmless(config, steps[i].io)
    requires InStep(n, log, values) && Kept(n.state.writer.disk.synced, log, entries, count)
    ensures InStep(Ran(n, config, steps), longer, AcknowledgedBy(n, values, config, steps))
    ensures Kept(Ran(n, config, steps).state.writer.disk.synced, longer, entries + LoggedBy(n, config, steps), durable)
    ensures forall e :: e in LoggedBy(n, config, steps) ==> e.acked
    decreases |steps|
  {
    if steps == [] {
      longer, durable := log, count;
      assert entries + [] == entries;
    } else {
      StepSynced(n, config, steps[0], log, values);
      hide InStep, Kept, Executed, EntryOf, Harmless, Durable;
      var (next, answer) := Executed(n, config, steps[0]);
      var entry, counted := EntryOf(n, config, steps[0]), Counted(values, steps[0], answer);
      var middle, more := StepKept(n, config, steps[0], log, values, entries, count);
      longer, durable := RunKept(next, config, steps[1..], middle, counted, entries + entry, more);
      ConcatAssoc(entries, entry, LoggedBy(next, config, steps[1..]));
    }
  }

  /** A first part of a log that ends a line is some of its records. */
  lemma {:induction false} LinePrefix(log: seq<WalRecord>, bytes: Bytes) returns (i: nat)
    requires bytes <= LogBytes(log) && EndsLine(bytes)
    ensures i <= |log| && bytes == LogBytes(log[..i])
    decreases |log|
  {
    i := 0;
    assert log[..0] == [];
    if bytes != [] {
      var first, more := Encoded(log[0]), LogBytes(log[1..]);
      if |bytes| < |first| {
        assert [] + Torn(log[0], |bytes|) == bytes;
        TornEndsNoLine([], log[0], |bytes|);
      } else {
        hide Encoded;
        var rest := bytes[|first|..];
        assert bytes == first + rest;
        assert EndsLine(rest);
        SamePart(first, rest, more);
        i := LinePrefix(log[1..], rest);
        assert log[..i + 1][0] == log[0] && log[..i + 1][1..] == log[1..][..i];
        i := i + 1;
      }
    }
  }

  lemma SamePart(front: Bytes, a: Bytes, b: Bytes)
    requires front + a <= front + b
    ensures a <= b
  {
    assert a == (front + b)[|front|..|front| + |a|] == b[..|a|];
  }

  lemma {:induction false} LogGrows(log: seq<WalRecord>, i: nat, k: nat)
    requires i <= k <= |log|
    ensures |LogBytes(log[..i])| <= |LogBytes(log[..k])|
    ensures i < k ==> |LogBytes(log[..i])| < |LogBytes(log[..k])|
    decreases k - i
  {
    if i < k {
      LogGrows(log, i, k - 1);
      assert log[..k] == log[..k - 1] + [log[k - 1]];
      LogBytesSnoc(log[..k - 1], log[k - 1]);
      assert |Encoded(log[k - 1])| > 0;
    }
  }

  /** What may survive of a file with a torn record at its end, if it ends a line. */
  lemma {:induction false} WholePart(log: seq<WalRecord>, record: WalRecord, k: nat, bytes: Bytes)
    requires 0 < k < |Encoded(record)| && bytes <= LogBytes(log) + Torn(record, k) && EndsLine(bytes)
    ensures bytes <= LogBytes(log)
  {
    hide Encoded, LogBytes;
    var whole := LogBytes(log);
    if |bytes| > |whole| {
      var n := |bytes| - |whole|;
      CutWithin(whole, record, k, n);
      assert bytes == (whole + Torn(record, k))[..|bytes|];
      TornEndsNoLine(whole, record, n);
    } else {
      assert bytes == (whole + Torn(record, k))[..|bytes|] == whole[..|bytes|];
    }
  }

  /** What an interrupted call does to the file. */
  lemma CallCases(n: Node, config: Config, call: Call, io: Io, log: seq<WalRecord>, values: Store) returns (k: nat)
    requires config.policy == FsyncEveryWrite && InStep(n, log, values)
    ensures
      var before, disk := n.state.writer.disk, DiskAfter(n, config, call, io);
      var entry := EntryOf(n, config, Step(Client(call), io));
      if k == 0 then
        && disk.bytes == before.bytes && disk.synced == before.synced && entry == []
        && (before.created ==> disk.created)
      else
        && Mutates(call) && Valid(RecordFor(n.state.next, call)) && (call.RemoveCall? ==> call.key in values)
        && n.state.next == NextSequence(log)
        && k <= |Encoded(RecordFor(n.state.next, call))|
        && disk.created && disk.bytes == before.bytes + Torn(RecordFor(n.state.next, call), k)
        && entry == [Entry(call, Acknowledges(n, config, call, io))]
        && (if entry[0].acked then k == |Encoded(RecordFor(n.state.next, call))| && Durable(disk)
            else disk.synced == before.synced)
  {
    k := 0;
    if n.serving {
      k := CallEffect(n, config, call, io);
      if k > 0 {
        PartIsNew(n.state.writer.disk.bytes, Torn(RecordFor(n.state.next, call), k));
        assert Torn(RecordFor(n.state.next, call), k) != [];
      }
      hide ServeDurably, Encoded, Torn, Valid, Replay, LogBytes, AllValid;
    }
  }

  lemma {:induction false} RecordKept(synced: nat, log: seq<WalRecord>, values: Store, entries: seq<Entry>, count: nat,
      record: WalRecord, entry: Entry) returns (durable: nat)
    requires AllValid(log) && Replay(map[], log) == (values, Ok) && Kept(synced, log, entries, count)
    requires Valid(record) && record.sequenceNumber == NextSequence(log)
    requires record.kind.Del? ==> record.key in values
    requires Mutates(entry.call) && record == RecordFor(record.sequenceNumber, entry.call)
    requires entry.acked ==> |LogBytes(log) + Encoded(record)| <= synced
    ensures AllValid(log + [record]) && Replays(map[], log + [record])
    ensures LogBytes(log + [record]) == LogBytes(log) + Encoded(record)
    ensures Kept(synced, log + [record], entries + [entry], durable)
  {
    Extend(log, values, record);
    hide Valid, Encoded, Replay, LogBytes, MaxSequence;
    MatchingFurther(log, entries, record, entry);
    durable := if entry.acked then |log| + 1 else count;
    assert (log + [record])[..|log| + 1] == log + [record] && (log + [record])[..count] == log[..count];
    hide Matching;
  }

  /**
   After an interrupted call: the whole records of the file and their entries. `bytes` is what survives of the file
   and ends a line.
   */
  lemma {:induction false} CallKept(n: Node, config: Config, call: Call, io: Io, log: seq<WalRecord>, values: Store,
      entries: seq<Entry>, count: nat, bytes: Bytes)
    returns (longer: seq<WalRecord>, all: seq<Entry>, durable: nat)
    requires config.policy == FsyncEveryWrite && config.path != []
    requires InStep(n, log, values) && Kept(n.state.writer.disk.synced, log, entries, count)
    requires bytes <= DiskAfter(n, config, call, io).bytes && EndsLine(bytes)
    ensures AllValid(longer) && Replays(map[], longer)
    ensures bytes <= LogBytes(longer) <= DiskAfter(n, config, call, io).bytes
    ensures !DiskAfter(n, config, call, io).created ==> longer == []
    ensures Kept(DiskAfter(n, config, call, io).synced, longer, all, durable)
    ensures Acked(all) == Acked(entries + EntryOf(n, config, Step(Client(call), io)))
    ensures all == entries || all == entries + EntryOf(n, config, Step(Client(call), io))
  {
    longer, all, durable := log, entries, count;
    assert entries + [] == entries;
    var k := CallCases(n, config, call, io, log, values);
    hide DiskAfter, Acknowledges, EntryOf, Encoded, Valid, LogBytes, Replay, Acked, EndsLine, MaxSequence, Kept, Torn;
    if k > 0 {
      var record, entry := RecordFor(n.state.next, call), EntryOf(n, config, Step(Client(call), io))[0];
      longer, all, durable := AddedKept(n.state.writer.disk.synced, DiskAfter(n, config, call, io),
        log, values, entries, count, record, entry, k, bytes);
    }
  }

  lemma {:induction false} AddedKept(before: nat, disk: Disk, log: seq<WalRecord>, values: Store,
      entries: seq<Entry>, count: nat, record: WalRecord, entry: Entry, k: nat, bytes: Bytes)
    returns (longer: seq<WalRecord>, all: seq<Entry>, durable: nat)
    requires AllValid(log) && Replay(map[], log) == (values, Ok) && Kept(before, log, entries, count)
    requires Valid(record) && record.sequenceNumber == NextSequence(log)
    requires record.kind.Del? ==> record.key in values
    requires Mutates(entry.call) && record == RecordFor(record.sequenceNumber, entry.call)
    requires 0 < k <= |Encoded(record)| && disk.bytes == LogBytes(log) + Torn(record, k)
    requires if entry.acked then k == |Encoded(record)| && Durable(disk) else disk.synced == before
    requires bytes <= disk.bytes && EndsLine(bytes)
    ensures AllValid(longer) && Replays(map[], longer) && bytes <= LogBytes(longer) <= disk.bytes
    ensures Kept(disk.synced, longer, all, durable) && Acked(all) == Acked(entries + [entry])
    ensures all == entries || all == entries + [entry]
  {
    hide Encoded, Valid, LogBytes, Replay, EndsLine, MaxSequence, Torn, AllValid;
    longer, all, durable := log, entries, count;
    if k < |Encoded(record)| {
      AppliedSnoc(entries, entry);
      assert Acked(entries) + [] == Acked(entries);
      WholePart(log, record, k, bytes);
    } else {
      WholeRecord(record);
      longer, all := log + [record], entries + [entry];
      KeptStill(before, disk.synced, log, entries, count);
      hide Kept, Acked;
      durable := RecordKept(disk.synced, log, values, entries, count, record, entry);
    }
  }

  lemma WholeRecord(record: WalRecord)
    ensures Torn(record, |Encoded(record)|) == Encoded(record)
  {
    hide Encoded;
  }

  lemma KeptStill(synced: nat, more: nat, log: seq<WalRecord>, entries: seq<Entry>, count: nat)
    requires Kept(synced, log, entries, count) && (synced <= more || |LogBytes(log)| <= more)
    ensures Kept(more, log, entries, count)
  {
    LogGrows(log, count, |log|);
    assert log[..|log|] == log;
    hide LogBytes, Matching;
  }

  /** Some of the log's records, all durable ones included. */
  lemma {:induction false} PrefixKept(
      log: seq<WalRecord>, entries: seq<Entry>, durable: nat, synced: nat, more: nat, i: nat)
    requires AllValid(log) && Replays(map[], log) && Kept(synced, log, entries, durable)
    requires durable <= i <= |log| && |LogBytes(log[..durable])| <= more
    ensures AllValid(log[..i]) && Replay(map[], log[..i]) == (Applied(entries[..i]), Ok)
    ensures Kept(more, log[..i], entries[..i], durable)
    ensures Acked(entries[..i]) == Acked(entries)
  {
    hide LogBytes, Valid, Acked, Matching, Replay, Applied;
    KeptLength(synced, log, entries, durable);
    AckedPrefix(entries, durable, i);
    ReplayConcat(map[], log[..i], log[i..]);
    assert log[..i] + log[i..] == log && log[..i][..durable] == log[..durable];
    MatchingPrefix(log, entries, i);
    MatchingApplied(log[..i], entries[..i]);
  }

  lemma MatchingPrefix(log: seq<WalRecord>, entries: seq<Entry>, i: nat)
    requires Matching(log, entries) && i <= |log|
    ensures Matching(log[..i], entries[..i])
  {
  }

  lemma {:induction false} RebornKept(
      disk: Disk, config: Config, log: seq<WalRecord>, entries: seq<Entry>, durable: nat, synced: nat)
    returns (i: nat)
    requires config.path != [] && AllValid(log) && Replays(map[], log)
    requires Kept(synced, log, entries, durable)
    requires disk.bytes <= LogBytes(log) && EndsLine(disk.bytes) && (!disk.created ==> log == [])
    requires |LogBytes(log[..durable])| <= |disk.bytes| && |LogBytes(log[..durable])| <= disk.synced
    ensures i <= |log| == |entries| && Acked(entries[..i]) == Acked(entries)
    ensures
      var reborn := Reborn(disk, config);
      && reborn.serving && InStep(reborn, log[..i], reborn.state.values)
      && Kept(reborn.state.writer.disk.synced, log[..i], entries[..i], durable)
      && reborn.state.values == Applied(entries[..i])
  {
    hide EndsLine, Replay, AllValid, Matching, Applied, InStep, Reborn, Acked;
    i := LinePrefix(log, disk.bytes);
    KeptLength(synced, log, entries, durable);
    if i < durable {
      LogGrows(log, i, durable);
    }
    hide LogBytes;
    PrefixKept(log, entries, durable, synced, disk.synced, i);
    WholeAgain(disk, config, log[..i], Applied(entries[..i]));
    hide Kept;
  }

  lemma KeptLength(synced: nat, log: seq<WalRecord>, entries: seq<Entry>, durable: nat)
    requires Kept(synced, log, entries, durable)
    ensures |log| == |entries| && durable <= |log|
  {
  }

  lemma {:induction false} EpisodeKept(n: Node, config: Config, e: Episode, log: seq<WalRecord>,
      entries: seq<Entry>, count: nat, calls: seq<Call>)
    returns (longer: seq<WalRecord>, kept: seq<Entry>, durable: nat)
    requires config.policy == FsyncEveryWrite && config.path != []
    requires InStep(n, log, n.state.values) && Kept(n.state.writer.disk.synced, log, entries, count)
    requires Possible(n, config, e) && EndsLine(Remains(n, config, e).bytes) && OnlyThese(entries, calls)
    ensures OnlyThese(kept, calls + [e.call])
    ensures
      var reborn := Reborn(Remains(n, config, e), config);
      && reborn.serving && InStep(reborn, longer, reborn.state.values)
      && Kept(reborn.state.writer.disk.synced, longer, kept, durable)
      && reborn.state.values == Applied(kept)
    ensures Acked(kept) == Acked(entries) + Acked(WrittenIn(n, config, e))
  {
    hide OnlyThese, Kept, InStep, LogBytes, Replay, AllValid, Applied, Acked, EndsLine, Harmless, Reborn;
    var middle, count2 := RunKept(n, config, e.steps, log, n.state.values, entries, count);
    var m, told := Ran(n, config, e.steps), LoggedBy(n, config, e.steps);
    var last := EntryOf(m, config, Step(Client(e.call), e.io));
    var disk, remains := DiskAfter(m, config, e.call, e.io), Remains(n, config, e);
    RemainsOf(n, config, e);
    LastCall(m, config, e.call, e.io);
    AckedInOrder(entries, told, last);
    hide Ran, LoggedBy, EntryOf, DiskAfter, Possible, Remains, FinalDisk;
    var values := AcknowledgedBy(n, n.state.values, config, e.steps);
    var all;
    longer, all, durable :=
      CallKept(m, config, e.call, e.io, middle, values, entries + told, count2, remains.bytes);
    DurableRemains(longer, all, durable, disk, remains);
    var i := RebornKept(remains, config, longer, all, durable, disk.synced);
    StillOnlyThese(entries, told, last, all, i, calls, e.call);
    longer, kept := longer[..i], all[..i];
  }

  lemma RemainsOf(n: Node, config: Config, e: Episode)
    requires Possible(n, config, e)
    ensures
      var disk, remains := FinalDisk(n, config, e.steps, e.call, e.io), Remains(n, config, e);
      && remains.bytes <= disk.bytes && remains.created == disk.created
      && (remains == disk || (disk.synced <= |remains.bytes| && remains.synced == |remains.bytes|))
  {
    hide FinalDisk;
  }

  lemma LastCall(n: Node, config: Config, call: Call, io: Io)
    ensures forall x :: x in EntryOf(n, config, Step(Client(call), io)) ==> x.call == call
  {
    hide Executed;
  }

  lemma AckedInOrder(a: seq<Entry>, b: seq<Entry>, c: seq<Entry>)
    ensures Acked(a + b + c) == Acked(a) + Acked(b + c)
  {
    ConcatAssoc(a, b, c);
    AckedConcat(a, b + c);
    hide Acked;
  }

  lemma StillOnlyThese(entries: seq<Entry>, told: seq<Entry>, last: seq<Entry>, all: seq<Entry>, i: nat,
      calls: seq<Call>, call: Call)
    requires OnlyThese(entries, calls) && i <= |all|
    requires (forall x :: x in told ==> x.acked) && (forall x :: x in last ==> x.call == call)
    requires all == entries + told || all == entries + told + last
    ensures OnlyThese(all[..i], calls + [call])
  {
  }

  /** Neither end takes back what is durable. */
  lemma DurableRemains(log: seq<WalRecord>, entries: seq<Entry>, durable: nat, disk: Disk, remains: Disk)
    requires Kept(disk.synced, log, entries, durable) && LogBytes(log) <= disk.bytes
    requires remains == disk || (disk.synced <= |remains.bytes| && remains.synced == |remains.bytes|)
    ensures |LogBytes(log[..durable])| <= |remains.bytes| && |LogBytes(log[..durable])| <= remains.synced
  {
    LogGrows(log, durable, |log|);
    assert log[..|log|] == log;
    hide LogBytes, Matching;
  }

  /** The interrupted calls of a life. */
  ghost function Interrupted(life: seq<Episode>): seq<Call>
  {
    if life == [] then [] else [life[0].call] + Interrupted(life[1..])
  }

  lemma {:induction false} LifeKept(n: Node, config: Config, life: seq<Episode>, log: seq<WalRecord>,
      entries: seq<Entry>, count: nat, calls: seq<Call>) returns (kept: seq<Entry>)
    requires config.policy == FsyncEveryWrite && config.path != [] && LeavesLines(n, config, life)
    requires InStep(n, log, n.state.values) && Kept(n.state.writer.disk.synced, log, entries, count)
    requires n.state.values == Applied(entries) && OnlyThese(entries, calls)
    ensures OnlyThese(kept, calls + Interrupted(life))
    ensures LastBorn(n, config, life).state.values == Applied(kept)
    ensures life != [] ==> LastBorn(n, config, life).serving
    ensures Acked(kept) == Acked(entries) + AckedOver(n, config, life)
    decreases |life|
  {
    if life == [] {
      kept := entries;
      assert Acked(entries) + [] == Acked(entries) && calls + [] == calls;
    } else {
      hide InStep, Kept, Possible, Remains, Reborn, EndsLine, Acked, WrittenIn, Applied, OnlyThese;
      var longer, some, durable := EpisodeKept(n, config, life[0], log, entries, count, calls);
      var reborn := Reborn(Remains(n, config, life[0]), config);
      kept := LifeKept(reborn, config, life[1..], longer, some, durable, calls + [life[0].call]);
      ConcatAssoc(calls, [life[0].call], Interrupted(life[1..]));
      ConcatAssoc(Acked(entries), Acked(WrittenIn(n, config, life[0])), AckedOver(reborn, config, life[1..]));
      if life[1..] == [] {
        assert LastBorn(reborn, config, life[1..]) == reborn;
      }
    }
  }

  /**
   No acknowledged mutation is lost. Take any life under FsyncEveryWrite, of any number of processes that end with
   the machine or alone, while every file that remains is empty or ends a line. The last process serves, and its map
   is made by the calls of some list, in order, of which the acknowledged ones are exactly those that clients saw
   acknowledged over the whole life; the others are among those that an end interrupted.
   */
  lemma {:induction false} NothingAcknowledgedIsLost(config: Config, life: seq<Episode>) returns (kept: seq<Entry>)
    requires config.policy == FsyncEveryWrite && config.path != [] && life != []
    requires LeavesLines(FRESH, config, life)
    ensures LastBorn(FRESH, config, life).serving
    ensures LastBorn(FRESH, config, life).state.values == Applied(kept)
    ensures Acked(kept) == AckedOver(FRESH, config, life) && OnlyThese(kept, Interrupted(life))
  {
    assert InStep(FRESH, [], map[]) && Matching([], []);
    var none: seq<WalRecord> := [];
    assert none[..0] == [];
    assert Kept(0, none, [], 0);
    assert Applied([]) == map[] && Acked([]) == [];
    assert [] + Interrupted(life) == Interrupted(life);
    hide InStep, Kept, Applied, Acked, LastBorn, AckedOver, LeavesLines;
    kept := LifeKept(FRESH, config, life, [], [], 0, []);
    assert [] + AckedOver(FRESH, config, life) == AckedOver(FRESH, config, life);
  }
}
