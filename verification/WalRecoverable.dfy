/**
 Which files recovery accepts, over every run in which no write stops halfway;
 fsyncs may fail. A file of whole records is refused for one reason only: a Del
 of a key that is not live where it stands.
 */
module WalRecoverable {
  import opened ByteStrings
  import opened Core
  import opened WalRecords
  import opened WalCodec
  import opened WalReader
  import opened WalReplay
  import opened WalWriter
  import opened InMemory
  import opened WalStorage
  import opened WalRuns
  import opened WalSequence

  /** Every Del names a key that is live where it stands. */
  ghost predicate DelsLive(log: seq<WalRecord>)
  {
    forall i :: 0 <= i < |log| && log[i].kind.Del? ==> log[i].key in After(map[], log[..i])
  }

  lemma ReplaysIffDelsLive(log: seq<WalRecord>)
    requires AllValid(log)
    ensures Replays(map[], log) <==> DelsLive(log)
  {
    ReplaysExactly(map[], log);
    hide Valid, Replays, After;
  }

  /** After any run with complete writes, recovery serves exactly if every Del in the file names a live key. */
  lemma {:induction false} RecoversExactly(config: Config, steps: seq<Step>)
    requires config.path != []
    requires forall i :: 0 <= i < |steps| ==> Complete(steps[i].io)
    ensures
      var disk := Ran(FRESH, config, steps).state.writer.disk;
      var log := ReadLog(disk.bytes);
      log.Success? && (Recovered(disk, config, AllOk).0.serving <==> DelsLive(log.value))
  {
    var log := RunInOrder(FRESH, config, steps, [], []);
    var disk := Ran(FRESH, config, steps).state.writer.disk;
    hide Ran, AcksOf, AcksLogged, CounterAhead, Ascending, LogBytes;
    ReadOfLog(log);
    RecoveryEffect(disk, config, AllOk, log);
    ReplaysIffDelsLive(log);
    hide Recovered, ReadLog, AllValid, Replays, DelsLive;
  }

  // ----- One call more -----

  /** When no write stops halfway, an append reaches the file unless opening or writing it fails. */
  ghost predicate Reaches(w: Writer, io: Io)
  {
    (w.open || !io.OpenFails?) && !io.WriteFails?
  }

  lemma AppendedWhole(w: Writer, config: Config, record: WalRecord, io: Io)
    requires !w.closed && Valid(record) && Complete(io) && config.path != []
    ensures
      var disk := Appended(w, config, record, io).0.disk;
      && disk.bytes == w.disk.bytes + (if Reaches(w, io) then Encoded(record) else [])
      && (w.disk.created || Reaches(w, io) ==> disk.created || w.open)
  {
    assert Encoded(record) != [];
    hide Encoded, Valid;
    assert w.disk.bytes + [] == w.disk.bytes;
    assert io.WriteFails? ==> Reached(Encoded(record), io) == [];
  }

  lemma LoggedWhole(n: Node, config: Config, call: Call, io: Io)
    requires n.serving && Writable(n.state.writer) && Complete(io) && config.path != []
    ensures
      var disk, logs := DiskAfter(n, config, call, io), Logs(n.state, call) && Reaches(n.state.writer, io);
      && disk.bytes == n.state.writer.disk.bytes + (if logs then Encoded(RecordFor(n.state.next, call)) else [])
      && (n.state.writer.disk.created || logs ==> disk.created)
  {
    assert n.state.writer.disk.bytes + [] == n.state.writer.disk.bytes;
    var m := CallEffect(n, config, call, io);
    if Mutates(call) {
      MutationIsAppend(n.state, config, call, io);
      hide ServeDurably, Appended, Encoded, Valid;
      if Logs(n.state, call) {
        AppendedWhole(n.state.writer, config, RecordFor(n.state.next, call), io);
      }
    }
  }

  /** A serving process over a file of whole records, whatever its map and counter. */
  ghost predicate Holds(n: Node, log: seq<WalRecord>)
  {
    n.serving && WholeFile(n, log)
  }

  /** The call puts a Del into the file that the file, replayed, does not support. */
  ghost predicate LogsDeadDelete(s: State, call: Call, io: Io, log: seq<WalRecord>)
  {
    call.RemoveCall? && Logs(s, call) && Reaches(s.writer, io) && call.key !in After(map[], log)
  }

  /**
   From a file that recovery accepts, one more call leaves one that it accepts, unless it deletes a key that is live
   in the map but not in the file.
   */
  lemma {:induction false} StillRecovers(n: Node, config: Config, call: Call, io: Io, log: seq<WalRecord>)
    requires config.path != [] && Holds(n, log) && Replays(map[], log) && Complete(io)
    ensures Recovered(DiskAfter(n, config, call, io), config, AllOk).0.serving
      <==> !LogsDeadDelete(n.state, call, io, log)
  {
    LoggedWhole(n, config, call, io);
    var disk := DiskAfter(n, config, call, io);
    hide DiskAfter;
    var longer := log;
    if Logs(n.state, call) && Reaches(n.state.writer, io) {
      var record := RecordFor(n.state.next, call);
      longer := log + [record];
      OneRecordMore(log, record);
    } else {
      assert LogBytes(log) + [] == LogBytes(log);
    }
    hide LogBytes, Reaches, Encoded, Valid;
    ReadOfLog(longer);
    RecoveryEffect(disk, config, AllOk, longer);
    hide Recovered, ReadLog, AllValid, Replays, After;
  }

  lemma OneRecordMore(log: seq<WalRecord>, record: WalRecord)
    requires AllValid(log) && Valid(record) && Replays(map[], log)
    ensures AllValid(log + [record]) && LogBytes(log + [record]) == LogBytes(log) + Encoded(record)
    ensures Replays(map[], log + [record]) <==> (record.kind.Del? ==> record.key in After(map[], log))
  {
    hide Encoded, Validate;
    LogBytesSnoc(log, record);
    ReplaySnoc(map[], log, record);
    hide LogBytes, Replay;
  }

  // ----- The delete whose fsync failed -----

  /** It is in the file, and everything else is as it was. */
  lemma UnsyncedDelete(n: Node, config: Config, key: Bytes, text: Bytes, log: seq<WalRecord>, values: Store)
    requires n.serving && InStep(n, log, values)
    requires LeavesBytesBehind(n.state, config, RemoveCall(key), SyncFails(text))
    ensures
      var after := NodeAfter(n, config, RemoveCall(key), SyncFails(text));
      var longer := log + [MakeDelRecord(n.state.next, key)];
      && Holds(after, longer) && Replay(map[], longer) == (values - {key}, Ok)
      && after.state.values == values && after.state.next == n.state.next && after.state.writer.open
  {
    var call, io := RemoveCall(key), SyncFails(text);
    var record := RecordFor(n.state.next, call);
    MutationIsAppend(n.state, config, call, io);
    SettledExactly(n, config, call, io);
    hide ServeDurably, LogBytes, Encoded, Validate, MaxSequence, LeavesBytesBehind;
    assert Appended(n.state.writer, config, record, io).0.disk.bytes == n.state.writer.disk.bytes + Encoded(record);
    Extend(log, values, record);
    hide Replay, Settled;
  }

  /**
   After a delete whose fsync failed, the file stays recoverable through one more call of any kind unless that call
   deletes the same key again and its write gets through.
   */
  lemma {:induction false} AfterUnsyncedDelete(n: Node, config: Config, key: Bytes, text: Bytes,
      call: Call, io: Io, log: seq<WalRecord>, values: Store)
    requires n.serving && InStep(n, log, values) && Complete(io)
    requires LeavesBytesBehind(n.state, config, RemoveCall(key), SyncFails(text))
    ensures
      var after := NodeAfter(n, config, RemoveCall(key), SyncFails(text));
      var recovered := Recovered(DiskAfter(after, config, call, io), config, AllOk).0;
      recovered.serving <==> !(call == RemoveCall(key) && !io.WriteFails?)
  {
    UnsyncedDelete(n, config, key, text, log, values);
    assert Logs(n.state, RemoveCall(key)) && config.path != [];
    var after := NodeAfter(n, config, RemoveCall(key), SyncFails(text));
    var longer := log + [MakeDelRecord(n.state.next, key)];
    hide NodeAfter, DiskAfter, LeavesBytesBehind, Holds, Replay, InStep, Validate;
    StillRecovers(after, config, call, io, longer);
    hide Recovered;
  }
}
