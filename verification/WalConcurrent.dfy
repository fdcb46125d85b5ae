/**
 The durable engine under any number of threads, from any file that recovery
 serves: its records may be in any accepted spelling, and its end may not be
 durable, because recovery does not sync what it reads. A run from such a file
 mirrors one from the durable canonical file of the same records, step by step.
 What is said of the file holds if it ends a line; if not, the first record is
 glued to its last line.
 */
module WalConcurrent {
  import opened ByteStrings
  import opened Core
  import opened WalRecords
  import opened WalCodec
  import opened WalReader
  import opened WalReplay
  import opened WalWriter
  import opened InMemory
  import opened WalStorage
  import opened WalRuns
  import opened WalCrash
  import opened WalThreads
  import WalSolo

  /** Recovery serves this file. */
  ghost predicate Recoverable(disk: Disk)
  {
    && disk.created && disk.synced <= |disk.bytes|
    && ReadLog(disk.bytes).Success? && Replays(map[], ReadLog(disk.bytes).value)
  }

  /** The process recovered from this file, with no call in progress. */
  ghost function Restarted(disk: Disk): System
    requires Recoverable(disk)
  {
    var log := ReadLog(disk.bytes).value;
    System(disk, After(map[], log), NextSequence(log), None, map[], [])
  }

  /** It is what recovery leaves. */
  lemma {:induction false} RestartedIsRecovered(disk: Disk, config: Config)
    requires Recoverable(disk) && config.path != []
    ensures Recovered(disk, config, AllOk).0 == Node(WalSolo.EngineIn(Restarted(disk)), true)
  {
    RecoveryEffect(disk, config, AllOk, ReadLog(disk.bytes).value);
    hide Recovered, ReadLog, Replay;
  }

  // ----- Reading what was appended -----

  lemma {:induction false} DecodedLinesAppend(a: seq<Bytes>, b: seq<Bytes>, lineNumber: nat)
    requires DecodedLines(a, lineNumber).Success?
    ensures DecodedLines(a + b, lineNumber)
      == Prepend(DecodedLines(a, lineNumber).value, DecodedLines(b, lineNumber + |a|))
    decreases |a|
  {
    hide Decoded;
    if a == [] {
      assert a + b == b;
      PrependNone(DecodedLines(b, lineNumber));
    } else {
      assert (a + b)[0] == a[0] && (a + b)[1..] == a[1..] + b;
      var first, rest := LineResult(a[0], lineNumber).value, DecodedLines(a[1..], lineNumber + 1).value;
      hide LineResult, Prepend;
      DecodedLinesAppend(a[1..], b, lineNumber + 1);
      PrependTwice([first], rest, DecodedLines(b, lineNumber + |a|));
    }
  }

  /** After two files that end a line and hold the same records, the same bytes read alike. */
  lemma {:induction false} SameReading(file: Bytes, log: seq<WalRecord>, more: Bytes)
    requires EndsLine(file) && ReadLog(file) == Success(log) && AllValid(log)
    ensures ReadLog(file + more) == ReadLog(LogBytes(log) + more)
  {
    LinesAppend(file, more);
    ReadExact(file);
    ReadAfterLog(log, more, 1);
    hide Lines, DecodedLines, LogBytes, Prepend;
    DecodedLinesAppend(Lines(file), Lines(more), 1);
  }

  lemma {:induction false} WholeLinesAppend(file: Bytes, more: Bytes)
    requires EndsLine(file)
    ensures WholeLines(file + more) == file + WholeLines(more)
    decreases |more|
  {
    if more == [] {
      assert file + more == file;
    } else {
      assert (file + more)[|file + more| - 1] == more[|more| - 1];
      if more[|more| - 1] != LF {
        assert (file + more)[..|file + more| - 1] == file + more[..|more| - 1];
        WholeLinesAppend(file, more[..|more| - 1]);
      }
    }
  }

  // ----- Mirrored runs -----

  /** What a move does to the file. */
  ghost function DiskMoved(pc: Pc, config: Config, move: Move, disk: Disk): Disk
  {
    match (pc, move)
    case (Appending(call, record, written), Write(count)) =>
      if count == 0 || written + count > |Encoded(record)| then disk
      else Grown(disk, Encoded(record)[written..written + count])
    case (Syncing(_, _), Sync) =>
      if config.policy == FsyncEveryWrite then disk.(synced := |disk.bytes|) else disk
    case _ => disk
  }

  /** A move reads nothing from the file. */
  lemma MovedSplits(s: System, config: Config, t: Thread, move: Move, other: Disk)
    ensures Moved(s.(disk := other), config, t, move)
      == Moved(s, config, t, move).(disk := DiskMoved(PcOf(s, t), config, move, other))
  {
    var pc := PcOf(s, t);
    if pc.Locked? && Mutates(pc.call) {
      CheckedSplits(s, t, pc.call, other);
    }
    hide Encoded, Validate, Valid, Acknowledged, ServeRead, StoreRemove, Grown, Checked, RecordFor, Increment;
    hide Mutates, Ascii;
  }

  lemma CheckedSplits(s: System, t: Thread, call: Call, other: Disk)
    requires Mutates(call)
    ensures Checked(s.(disk := other), t, call) == Checked(s, t, call).(disk := other)
    ensures Checked(s, t, call).disk == s.disk
  {
    hide Validate, Valid, RecordFor;
  }

  /**
   `disk` is `file` and the bytes that `other` has after `log`; it is durable as far as `synced`, or, once an fsync
   ran, as far as `other` is.
   */
  ghost predicate Mirrors(disk: Disk, other: Disk, file: Bytes, log: Bytes, synced: nat, ran: bool)
  {
    && log <= other.bytes && disk.bytes == file + other.bytes[|log|..] && disk.created == other.created
    && |log| <= other.synced
    && disk.synced == if ran then other.synced - |log| + |file| else synced
  }

  lemma MirrorsMoved(disk: Disk, other: Disk, file: Bytes, log: Bytes, synced: nat, ran: bool,
      pc: Pc, config: Config, move: Move)
    requires Mirrors(disk, other, file, log, synced, ran)
    ensures
      var syncs := config.policy == FsyncEveryWrite && pc.Syncing? && move.Sync?;
      Mirrors(DiskMoved(pc, config, move, disk), DiskMoved(pc, config, move, other), file, log, synced, ran || syncs)
  {
    hide Encoded;
    if pc.Appending? && move.Write? && 0 < move.count <= |Encoded(pc.record)| - pc.written {
      var part := Encoded(pc.record)[pc.written..pc.written + move.count];
      assert (other.bytes + part)[|log|..] == other.bytes[|log|..] + part;
      ConcatAssoc(file, other.bytes[|log|..], part);
    }
  }

  lemma {:induction false} RunMirrors(r: System, c: System, config: Config, moves: seq<(Thread, Move)>,
      file: Bytes, log: Bytes, synced: nat, ran: bool)
    requires Mirrors(r.disk, c.disk, file, log, synced, ran) && r == c.(disk := r.disk)
    ensures
      var r', c' := RunThreads(r, config, moves), RunThreads(c, config, moves);
      && Mirrors(r'.disk, c'.disk, file, log, synced, ran || SyncRan(r, config, moves))
      && r' == c'.(disk := r'.disk)
      && SyncRan(r, config, moves) == SyncRan(c, config, moves)
    decreases |moves|
  {
    if moves != [] {
      var (t, move) := moves[0];
      var pc := PcOf(c, t);
      assert PcOf(r, t) == pc;
      MovedSplits(c, config, t, move, r.disk);
      MovedSplits(c, config, t, move, c.disk);
      assert c.(disk := c.disk) == c;
      MirrorsMoved(r.disk, c.disk, file, log, synced, ran, pc, config, move);
      hide Moved, DiskMoved, Mirrors, PcOf;
      var r1, c1, syncs := Moved(r, config, t, move), Moved(c, config, t, move), Syncs(r, config, t, move);
      RunMirrors(r1, c1, config, moves[1..], file, log, synced, ran || syncs);
    }
  }

  /** The records of the recovered file. */
  ghost function StartLog(disk: Disk): seq<WalRecord>
    requires Recoverable(disk)
  {
    ReadLog(disk.bytes).value
  }

  /** The recovered file was durable, or has become so. */
  ghost predicate Settled(disk: Disk, config: Config, moves: seq<(Thread, Move)>)
    requires Recoverable(disk)
  {
    disk.synced == |disk.bytes| || SyncRan(Restarted(disk), config, moves)
  }

  /** A run from a recovered file, and its mirror: they differ in the file only, and have added the same bytes to it. */
  lemma {:induction false} MirrorOf(disk: Disk, config: Config, moves: seq<(Thread, Move)>)
    returns (r: System, c: System, more: Bytes)
    requires Recoverable(disk)
    ensures r == RunThreads(Restarted(disk), config, moves) == c.(disk := r.disk)
    ensures c == RunThreads(Recovering(StartLog(disk)), config, moves) && Sound(StartLog(disk))
    ensures SyncRan(Restarted(disk), config, moves) == SyncRan(Recovering(StartLog(disk)), config, moves)
    ensures r.disk.created && r.disk.bytes == disk.bytes + more
    ensures c.disk.created && c.disk.bytes == LogBytes(StartLog(disk)) + more
    ensures
      var canonical := |LogBytes(StartLog(disk))|;
      && canonical <= c.disk.synced && (!SyncRan(Restarted(disk), config, moves) ==> c.disk.synced == canonical)
      && r.disk.synced == if Settled(disk, config, moves) then c.disk.synced - canonical + |disk.bytes| else disk.synced
  {
    var log := StartLog(disk);
    ReplaysExactly(map[], log);
    r, c := RunThreads(Restarted(disk), config, moves), RunThreads(Recovering(log), config, moves);
    assert Sound(log) by {
      hide ReadLog, After, Replays;
    }
    assert LogBytes(log)[|LogBytes(log)|..] == [] && disk.bytes + [] == disk.bytes;
    hide LogBytes, ReadLog, RunThreads, SyncRan, Replays, Valid;
    RunMirrors(Restarted(disk), Recovering(log), config, moves,
      disk.bytes, LogBytes(log), disk.synced, disk.synced == |disk.bytes|);
    FileFromLog(config, log, moves);
    more := c.disk.bytes[|LogBytes(log)|..];
    assert c.disk.bytes == LogBytes(log) + more;
  }

  lemma SamePrefix(a: Bytes, b: Bytes, x: Bytes, y: Bytes)
    ensures a + x <= a + y ==> x <= y && b + x <= b + y
  {
    if a + x <= a + y {
      assert x == (a + y)[|a|..|a| + |x|] == y[..|x|];
    }
  }

  /** What is left of `longer` after `front`. */
  lemma Rest(front: Bytes, longer: Bytes) returns (rest: Bytes)
    requires front <= longer
    ensures longer == front + rest && (longer == front ==> rest == [])
  {
    rest := longer[|front|..];
  }

  // ----- From any recovered file -----

  /**
   Linearizability. In every interleaving the calls take effect one at a time, each between its invocation and its
   return and with the answer it returns. In that order every answer is the plain engine's, or the validation error
   of a record that cannot be logged, or for a mutation that the log is unavailable; an error has no effect, and map
   and counter are what that order makes of the recovered ones.
   */
  lemma {:induction false} Linearizable(config: Config, disk: Disk, moves: seq<(Thread, Move)>)
    requires Recoverable(disk)
    ensures
      var start, s := Restarted(disk), RunThreads(Restarted(disk), config, moves);
      && LegalHistory(start.values, start.next, s.history)
      && Linear(start.values, s.history) == s.values
      && (s.holder.None? ==> LinearNext(start.next, s.history) == s.next)
      && forall t: Thread :: !PhaseOf(s.history, t).Broken?
  {
    var r, c, more := MirrorOf(disk, config, moves);
    hide RunThreads, LegalHistory, Linear, LinearNext, PhaseOf, Recovering, Settled, SyncRan, Sound, ReadLog;
    LinearizableFromLog(config, StartLog(disk), moves);
    hide LogBytes, After, NextSequence;
  }

  /**
   Interleaved safety. At every reachable state the map is the replay of the file's records, or of those records
   without the last one, and the latter only while a mutator holds the log mutex.
   */
  lemma {:induction false} MapFollowsLog(config: Config, disk: Disk, moves: seq<(Thread, Move)>)
    requires Recoverable(disk) && EndsLine(disk.bytes)
    ensures
      var s := RunThreads(Restarted(disk), config, moves);
      var log := ReadLog(WholeLines(s.disk.bytes));
      && log.Success? && AllValid(log.value)
      && (Replay(map[], log.value) == (s.values, Ok)
          || (s.holder.Some? && log.value != [] && Replay(map[], log.value[..|log.value| - 1]) == (s.values, Ok)))
  {
    var r, c, more := MirrorOf(disk, config, moves);
    var log := StartLog(disk);
    hide RunThreads, Recovering, SyncRan, LogBytes, WholeLines, ReadLog, Replay, Settled, Sound;
    MapFollowsFromLog(config, log, moves);
    LogBytesEndLine(log);
    WholeLinesAppend(disk.bytes, more);
    WholeLinesAppend(LogBytes(log), more);
    SoundIsValid(log);
    hide EndsLine, AllValid, Restarted;
    SameReading(disk.bytes, log, WholeLines(more));
  }

  lemma SoundIsValid(log: seq<WalRecord>)
    requires Sound(log)
    ensures AllValid(log)
  {
  }

  /**
   Under FsyncEveryWrite the map any reader sees is the replay of the records in some first part of the file, which
   holds the recovered file. That part is durable exactly if the recovered file was, or an fsync has run since.
   */
  lemma {:induction false} ReadersSeeSynced(config: Config, disk: Disk, moves: seq<(Thread, Move)>)
    returns (seen: Bytes)
    requires Recoverable(disk) && EndsLine(disk.bytes) && config.policy == FsyncEveryWrite
    ensures
      var s := RunThreads(Restarted(disk), config, moves);
      && disk.bytes <= seen <= s.disk.bytes && ReadLog(seen).Success?
      && Replay(map[], ReadLog(seen).value) == (s.values, Ok)
      && (|seen| <= s.disk.synced <==> Settled(disk, config, moves))
  {
    var r, c, more := MirrorOf(disk, config, moves);
    var log := StartLog(disk);
    hide RunThreads, Recovering, SyncRan, LogBytes, ReadLog, Replay, Sound;
    var applied := SyncedFromLog(config, log, moves);
    var part := Rest(LogBytes(log), LogBytes(applied));
    SamePrefix(LogBytes(log), disk.bytes, part, more);
    seen := disk.bytes + part;
    SoundIsValid(applied);
    SoundIsValid(log);
    ReadOfLog(applied);
    hide EndsLine, AllValid, Restarted;
    SameReading(disk.bytes, log, part);
  }

  /** Recovery depends on what the file reads as, not on its spelling. */
  lemma {:induction false} SameRecovery(a: Disk, b: Disk, config: Config)
    requires a.created && b.created && ReadLog(a.bytes) == ReadLog(b.bytes)
    ensures
      var x, y := Recovered(a, config, AllOk).0, Recovered(b, config, AllOk).0;
      x.serving == y.serving && x.state.values == y.state.values && x.state.next == y.state.next
  {
    hide ReadLog, Replay, Ascii;
  }

  /** A crash gives every reader's map back, up to the mutator before its effect. */
  ghost predicate CrashExplained(s: System, config: Config, length: nat)
    requires length <= |s.disk.bytes|
  {
    var recovered, stage := Recovered(Cut(s.disk, length), config, AllOk).0, Stage(s);
    if BeforeEffect(stage) then recovered.serving ==> Explained(s.values, stage.call, recovered.state.values)
    else recovered.serving && recovered.state.values == s.values
  }

  /**
   Crash durability for threads. Stop any interleaving under FsyncEveryWrite at any moment and cut the file at any
   length from the synced one on. If the recovered file was durable or an fsync has run since, or if the recovered
   file survives anyway: unless a mutator was before its effect, recovery restores exactly the map that readers saw;
   otherwise it reports an error or restores that map up to the call in flight. In the remaining case the crash takes
   back a part of the recovered file, and no call has changed the map since.
   */
  lemma {:induction false} CrashAnywhere(config: Config, disk: Disk, moves: seq<(Thread, Move)>, length: nat)
    requires Recoverable(disk) && EndsLine(disk.bytes) && config.policy == FsyncEveryWrite && config.path != []
    requires
      var s := RunThreads(Restarted(disk), config, moves);
      s.disk.synced <= length <= |s.disk.bytes|
    ensures
      var s := RunThreads(Restarted(disk), config, moves);
      if Settled(disk, config, moves) || |disk.bytes| <= length then CrashExplained(s, config, length)
      else Cut(s.disk, length).bytes == disk.bytes[..length] && s.values == Restarted(disk).values
  {
    hide RunThreads, Recovering, SyncRan, LogBytes, ReadLog, Replay, Sound, CrashExplained;
    var r, c, more := MirrorOf(disk, config, moves);
    if Settled(disk, config, moves) || |disk.bytes| <= length {
      CrashSettled(config, disk, moves, r, c, more, length);
    } else {
      NothingApplied(config, StartLog(disk), moves);
      assert (disk.bytes + more)[..length] == disk.bytes[..length];
    }
  }

  lemma {:induction false} CrashSettled(config: Config, disk: Disk, moves: seq<(Thread, Move)>,
      r: System, c: System, more: Bytes, length: nat)
    requires Recoverable(disk) && EndsLine(disk.bytes) && Sound(StartLog(disk))
    requires config.policy == FsyncEveryWrite && config.path != []
    requires c == RunThreads(Recovering(StartLog(disk)), config, moves) && r == c.(disk := r.disk)
    requires r.disk.created && r.disk.bytes == disk.bytes + more
    requires c.disk.created && c.disk.bytes == LogBytes(StartLog(disk)) + more
    requires |disk.bytes| <= length <= |disk.bytes| + |more|
    requires c.disk.synced <= length - |disk.bytes| + |LogBytes(StartLog(disk))|
    ensures CrashExplained(r, config, length)
  {
    hide RunThreads, Recovering, LogBytes, ReadLog, Replay, Sound, CrashExplained;
    var log := StartLog(disk);
    var k := length - |disk.bytes| + |LogBytes(log)|;
    CutAtRest(disk.bytes, more, length);
    CutAtRest(LogBytes(log), more, k);
    SoundIsValid(log);
    SameReading(disk.bytes, log, more[..length - |disk.bytes|]);
    CrashMirrored(config, log, moves, r, c, length, k);
  }

  lemma CutAtRest(front: Bytes, rest: Bytes, length: nat)
    requires |front| <= length <= |front| + |rest|
    ensures (front + rest)[..length] == front + rest[..length - |front|]
  {
    TakeOfAppend(front, rest, length);
  }

  /** A cut that reads like a cut of the mirror is explained as that is. */
  lemma {:induction false} CrashMirrored(config: Config, log: seq<WalRecord>, moves: seq<(Thread, Move)>,
      r: System, c: System, length: nat, mirrored: nat)
    requires Sound(log) && config.policy == FsyncEveryWrite && config.path != []
    requires c == RunThreads(Recovering(log), config, moves) && r == c.(disk := r.disk)
    requires r.disk.created && c.disk.created
    requires length <= |r.disk.bytes| && c.disk.synced <= mirrored <= |c.disk.bytes|
    requires ReadLog(r.disk.bytes[..length]) == ReadLog(c.disk.bytes[..mirrored])
    ensures CrashExplained(r, config, length)
  {
    hide RunThreads, Recovering, ReadLog, Recovered, Explained;
    CrashFromLog(config, log, moves, mirrored);
    SameRecovery(Cut(r.disk, length), Cut(c.disk, mirrored), config);
    hide Sound, BeforeEffect;
    assert Stage(r) == Stage(c);
  }

  // ----- A recovered file that is not durable -----

  lemma UnsyncedSet(config: Config, key: Bytes, value: Bytes, text: Bytes)
    requires config.path != [] && config.policy == FsyncEveryWrite && key != [] && value != []
    ensures Executed(FRESH, config, Step(Restart, AllOk)).0 == Serving(Disk(true, [], 0), map[], 1)
    ensures
      var step := Step(Client(SetCall(key, value)), SyncFails(text));
      var n := Executed(Serving(Disk(true, [], 0), map[], 1), config, step).0;
      n == Serving(Disk(true, [] + Encoded(MakeSetRecord(1, key, value)), 0), map[], 1)
  {
    hide Encoded, Validate;
  }

  lemma {:induction false} OneRecordFile(config: Config, record: WalRecord)
    requires config.path != [] && Valid(record) && record.kind.Set?
    ensures
      var disk := Disk(true, [] + Encoded(record), 0);
      && Recoverable(disk)
      && Recovered(disk, config, AllOk).0.serving && Recovered(disk, config, AllOk).0.state.writer.disk == disk
      && Recovered(disk, config, AllOk).0.state.values == map[record.key := record.value]
  {
    var disk := Disk(true, [] + Encoded(record), 0);
    LogBytesSnoc([], record);
    ReplaySnoc(map[], [], record);
    LogBytesEndLine([record]);
    assert [] + [record] == [record] && LogBytes([]) == [];
    hide LogBytes, Encoded, ReadLog, Validate, EndsLine;
    ReadOfLog([record]);
    RecoveryEffect(disk, config, AllOk, [record]);
    hide Recovered, Replay;
    assert map[][record.key := record.value] == map[record.key := record.value];
  }

  /**
   A SET whose fsync fails is refused, but a restart reads it from the file: the new process serves a value that is
   not durable, to anybody who asks, and a power failure takes it back.
   */
  lemma {:induction false} UnsyncedReadIsLost(config: Config, key: Bytes, value: Bytes, text: Bytes)
    requires config.path != [] && config.policy == FsyncEveryWrite && key != [] && value != []
    ensures
      var steps := [
        Step(Restart, AllOk),
        Step(Client(SetCall(key, value)), SyncFails(text)),
        Step(Restart, AllOk)];
      var n := Ran(FRESH, config, steps);
      && n.serving && Recoverable(n.state.writer.disk) && n.state.writer.disk.synced == 0
      && ServeDurably(n.state, config, GetCall(key), AllOk).1 == Got(Success(value))
      && var after := Recovered(Cut(n.state.writer.disk, 0), config, AllOk).0;
      && after.serving && ServeDurably(after.state, config, GetCall(key), AllOk).1 == Got(Failure(KEY_NOT_FOUND))
  {
    var record := MakeSetRecord(1, key, value);
    var disk := Disk(true, [] + Encoded(record), 0);
    UnsyncedRun(config, key, value, text);
    OneRecordFile(config, record);
    EmptyFile(config);
    assert Cut(disk, 0) == Disk(true, [], 0);
    hide Encoded, Ran, Recoverable, Validate, Recovered, ServeDurably;
    GetIs(Recovered(disk, config, AllOk).0.state, config, key);
    GetIs(Recovered(Cut(disk, 0), config, AllOk).0.state, config, key);
    hide Ascii;
  }

  lemma GetIs(s: State, config: Config, key: Bytes)
    ensures ServeDurably(s, config, GetCall(key), AllOk).1 == Got(StoreGet(s.values, key))
  {
    hide StoreGet;
  }

  lemma UnsyncedRun(config: Config, key: Bytes, value: Bytes, text: Bytes)
    requires config.path != [] && config.policy == FsyncEveryWrite && key != [] && value != []
    ensures
      var steps := [
        Step(Restart, AllOk),
        Step(Client(SetCall(key, value)), SyncFails(text)),
        Step(Restart, AllOk)];
      Ran(FRESH, config, steps)
        == Recovered(Disk(true, [] + Encoded(MakeSetRecord(1, key, value)), 0), config, AllOk).0
  {
    var steps := [
      Step(Restart, AllOk),
      Step(Client(SetCall(key, value)), SyncFails(text)),
      Step(Restart, AllOk)];
    UnsyncedSet(config, key, value, text);
    ThreeSteps(config, steps);
    hide Ran, Recovered, ServeDurably, Encoded, FRESH;
  }

  lemma {:induction false} EmptyFile(config: Config)
    requires config.path != []
    ensures
      var n := Recovered(Disk(true, [], 0), config, AllOk).0;
      n.serving && n.state.values == map[]
  {
    assert ReadLog([]) == Success([]) && Replay(map[], []) == (map[], Ok);
    RecoveryEffect(Disk(true, [], 0), config, AllOk, []);
    hide Recovered, ReadLog, Replay;
  }

  lemma ThreeSteps(config: Config, steps: seq<Step>)
    requires |steps| == 3
    ensures
      var a := Executed(FRESH, config, steps[0]).0;
      var b := Executed(a, config, steps[1]).0;
      Ran(FRESH, config, steps) == Executed(b, config, steps[2]).0
  {
    hide Executed;
    var a := Executed(FRESH, config, steps[0]).0;
    var b := Executed(a, config, steps[1]).0;
    var c := Executed(b, config, steps[2]).0;
    assert steps[1..][1..] == steps[2..] && steps[2..][1..] == [];
    assert Ran(c, config, []) == c;
    assert Ran(b, config, steps[2..]) == c;
    assert Ran(a, config, steps[1..]) == c;
  }
}
