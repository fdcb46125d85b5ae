/**
 What comes after a crash. The reader accepts a last line without a line feed,
 and the writer appends straight behind it, so a process recovered from such a
 file serves and acknowledges, but glues its first record to the torn line.
 Over a file that ends a line it is in step again, through any number of
 crashes.
 */
module WalRestart {
  import opened ByteStrings
  import opened Core
  import opened WalRecords
  import opened WalCodec
  import opened WalCodecProofs
  import opened WalReader
  import opened WalReplay
  import opened WalWriter
  import opened InMemory
  import opened WalStorage
  import opened WalRuns
  import opened WalCrash

  // ----- One record appended to a file that reads -----

  /** Gluing two strings together glues the last piece of one to the first piece of the other. */
  lemma {:induction false} SplitCount(a: Bytes, b: Bytes, separator: Byte)
    ensures |Split(a + b, separator)| == |Split(a, separator)| + |Split(b, separator)| - 1
    decreases |a|
  {
    hide Find;
    var i := Find(a, separator);
    if i < |a| {
      FindInPrefix(a, b, separator);
      assert (a + b)[i + 1..] == a[i + 1..] + b;
      SplitCount(a[i + 1..], b, separator);
    } else {
      LastPieceGlued(a, b, separator);
    }
  }

  lemma LastPieceGlued(a: Bytes, b: Bytes, separator: Byte)
    requires Find(a, separator) == |a|
    ensures |Split(a + b, separator)| == |Split(b, separator)|
  {
    var j := Find(b, separator);
    assert forall k :: 0 <= k < |a| + j ==> (a + b)[k] != separator;
    if j < |b| {
      assert (a + b)[|a| + j] == separator;
      assert Find(a + b, separator) == |a| + j;
      assert (a + b)[|a| + j + 1..] == b[j + 1..];
    } else {
      assert Find(a + b, separator) == |a + b|;
    }
    hide Find;
  }

  lemma FiveParts(line: Bytes)
    ensures Decoded(line).Success? ==> |Split(StripLineEnding(line), SPACE)| == 5
  {
    AcceptedExactly(line);
    hide Decoded;
  }

  lemma Stripped(line: Bytes)
    ensures FreeOf(line, LF) ==> StripLineEnding(line) == line || line == StripLineEnding(line) + [CR]
    ensures line != [] && line[|line| - 1] > 32 ==> StripLineEnding(line) == line
  {
  }

  /** An accepted line followed by a record on the same line is not accepted: it has nine parts or more. */
  lemma {:induction false} GluedLine(line: Bytes, record: WalRecord)
    requires Decoded(line).Success? && FreeOf(line, LF)
    ensures Decoded(line + RecordLine(record)).Failure?
  {
    FieldsPrintable(record);
    assert RecordLine(record) == Join(Fields(record), SPACE);
    SplitOfJoin(Fields(record), SPACE);
    LineEndsPrintable(record);
    hide Split, Decoded, RecordLine, StripLineEnding, Fields, Join;
    var stripped, glued := StripLineEnding(line), line + RecordLine(record);
    FiveParts(line);
    FiveParts(glued);
    Stripped(line);
    Stripped(glued);
    SplitCount(stripped, [CR], SPACE);
    SplitCount(line, RecordLine(record), SPACE);
  }

  lemma LineEndsPrintable(record: WalRecord)
    ensures RecordLine(record) != [] && RecordLine(record)[|RecordLine(record)| - 1] > 32
  {
    LineIsHeaderThenValue(record);
    FieldsPrintable(record);
    var field := EncodedField(record.value);
    assert Fields(record)[4] == field;
    assert RecordLine(record)[|RecordLine(record)| - 1] == field[|field| - 1];
  }

  /** A file is its complete lines and, unless it ends one, a last line without a line feed. */
  lemma {:induction false} LastLine(bytes: Bytes) returns (front: Bytes, tail: Bytes)
    ensures bytes == front + tail && EndsLine(front) && FreeOf(tail, LF)
    ensures EndsLine(bytes) <==> tail == []
  {
    if EndsLine(bytes) {
      front, tail := bytes, [];
      assert bytes + [] == bytes;
    } else {
      var n := |bytes| - 1;
      front, tail := LastLine(bytes[..n]);
      tail := tail + [bytes[n]];
      assert bytes == bytes[..n] + [bytes[n]];
      ConcatAssoc(front, tail[..|tail| - 1], [bytes[n]]);
    }
  }

  lemma RecordIsLine(record: WalRecord)
    requires Valid(record)
    ensures Lines(Encoded(record)) == [RecordLine(record)]
    ensures Decoded(RecordLine(record)) == Success(record) && GoodLine(RecordLine(record))
  {
    RoundTrip(record);
    LineBytes(record);
    hide RecordLine, Decoded;
    LinesOfLine(RecordLine(record), []);
    assert RecordLine(record) + [LF] + [] == RecordLine(record) + [LF];
  }

  /** Lines that read, and one more line. */
  lemma OneMoreLine(file: Bytes, longer: Bytes, line: Bytes)
    requires ReadLog(file).Success? && Lines(longer) == Lines(file) + [line]
    ensures
      if GoodLine(line) then ReadLog(longer) == Success(ReadLog(file).value + [Decoded(line).value])
      else ReadLog(longer).Failure?
  {
    ReadExact(file);
    ReadExact(longer);
    hide ReadLog, GoodLine, Lines, Decoded;
    var lines := Lines(file);
    assert forall i :: 0 <= i < |lines| ==> Lines(longer)[i] == lines[i];
    assert Lines(longer)[|lines|] == line;
    if GoodLine(line) {
      assert AllGood(Lines(longer));
      assert ReadLog(longer).value == ReadLog(file).value + [Decoded(line).value];
    }
  }

  /** If the line replaces the last one and is bad, the file does not read. */
  lemma BadLastLine(file: Bytes, front: seq<Bytes>, line: Bytes)
    requires Lines(file) == front + [line] && !GoodLine(line)
    ensures ReadLog(file).Failure?
  {
    ReadExact(file);
    hide ReadLog, GoodLine, Lines;
    assert Lines(file)[|front|] == line;
  }

  lemma UnendedLines(front: Bytes, tail: Bytes, record: WalRecord)
    requires EndsLine(front) && FreeOf(tail, LF) && tail != []
    ensures Lines(front + tail) == Lines(front) + [tail]
    ensures Lines(front + tail + Encoded(record)) == Lines(front) + [tail + RecordLine(record)]
  {
    LineBytes(record);
    LinesOfTail(tail);
    LinesAppend(front, tail);
    hide RecordLine, Lines;
    var line := RecordLine(record);
    assert FreeOf(tail + line, LF);
    OneLine(tail + line);
    ConcatAssoc(front, tail, line + [LF]);
    ConcatAssoc(tail, line, [LF]);
    LinesAppend(front, tail + line + [LF]);
  }

  lemma OneLine(line: Bytes)
    requires FreeOf(line, LF)
    ensures Lines(line + [LF]) == [line]
  {
    LinesOfLine(line, []);
    hide Lines;
    assert line + [LF] + [] == line + [LF];
    assert Lines([]) == [] by {
      NoLines();
    }
  }

  lemma NoLines()
    ensures Lines([]) == []
  {
  }

  /**
   A file that reads, and a valid record appended to it, reads exactly if it ended a line: then as one record more.
   Otherwise the record is glued to the last line, and neither can be read again.
   */
  lemma {:induction false} AppendReads(bytes: Bytes, record: WalRecord)
    requires ReadLog(bytes).Success? && Valid(record)
    ensures
      var r := ReadLog(bytes + Encoded(record));
      if EndsLine(bytes) then r == Success(ReadLog(bytes).value + [record]) else r.Failure?
  {
    var front, tail := LastLine(bytes);
    if tail == [] {
      RecordIsLine(record);
      LinesAppend(bytes, Encoded(record));
      hide Encoded, Lines, ReadLog, GoodLine;
      OneMoreLine(bytes, bytes + Encoded(record), RecordLine(record));
    } else {
      UnendedLines(front, tail, record);
      hide Encoded, Lines, RecordLine;
      ReadExact(bytes);
      assert Lines(bytes)[|Lines(front)|] == tail;
      hide ReadLog, Decoded;
      GluedLine(tail, record);
      BadLastLine(bytes + Encoded(record), Lines(front), tail + RecordLine(record));
    }
  }

  // ----- The restart after the restart -----

  /** What a process recovered from this disk goes on with. */
  ghost function Reborn(disk: Disk, config: Config): Node
  {
    Recovered(disk, config, AllOk).0
  }

  lemma RebornReads(disk: Disk, config: Config) returns (log: seq<WalRecord>)
    requires Reborn(disk, config).serving && (disk.created || disk.bytes == [])
    ensures ReadLog(disk.bytes) == Success(log)
    ensures
      var n := Reborn(disk, config);
      && Replay(map[], log) == (n.state.values, Ok) && n.state.next == NextSequence(log)
      && Writable(n.state.writer) && n.state.writer.open
      && n.state.writer.disk.bytes == disk.bytes && n.state.writer.disk.synced == disk.synced
  {
    if disk.bytes == [] {
      log := [];
      assert ReadLog(disk.bytes) == Success([]);
    } else {
      if ReadLog(disk.bytes).Failure? {
        UnreadableIsRefused(disk, config, AllOk);
      }
      log := ReadLog(disk.bytes).value;
    }
    RecoveryEffect(disk, config, AllOk, log);
    hide Recovered, ReadLog, Replay;
  }

  /**
   An acknowledged mutation of a recovered process survives the next restart exactly if the file that the process
   recovered from was empty or ended in a line feed. If not, the server refuses to start from then on.
   */
  lemma {:induction false} AcknowledgedAfterRecovery(disk: Disk, config: Config, call: Call, io: Io)
    requires config.path != [] && Reborn(disk, config).serving && (disk.created || disk.bytes == [])
    requires Mutates(call) && Acknowledges(Reborn(disk, config), config, call, io)
    ensures
      var n := Reborn(disk, config);
      var again := Reborn(DiskAfter(n, config, call, io), config);
      && (again.serving <==> EndsLine(disk.bytes))
      && (again.serving ==>
            && again.state.values == Acknowledged(n.state.values, call, Done(Ok))
            && again.state.next == NodeAfter(n, config, call, io).state.next)
  {
    var n := Reborn(disk, config);
    var log := RebornReads(disk, config);
    var m := CallEffect(n, config, call, io);
    CallCounts(n, config, call, io);
    hide Reborn, DiskAfter, NodeAfter, Acknowledges, Replay, ReadLog;
    var record, after := RecordFor(n.state.next, call), DiskAfter(n, config, call, io);
    assert Torn(record, m) == Encoded(record);
    hide Encoded, Torn;
    AppendReads(disk.bytes, record);
    SecondRecovery(after, config, log, record, n.state.values, EndsLine(disk.bytes));
    hide Valid, NextSequence;
  }

  lemma SecondRecovery(
      disk: Disk, config: Config, log: seq<WalRecord>, record: WalRecord, values: Store, readable: bool)
    requires config.path != [] && disk.created && Replay(map[], log) == (values, Ok)
    requires Valid(record) && record.sequenceNumber == NextSequence(log)
    requires record.kind.Del? ==> record.key in values
    requires if readable then ReadLog(disk.bytes) == Success(log + [record]) else ReadLog(disk.bytes).Failure?
    ensures Reborn(disk, config).serving <==> readable
    ensures readable ==>
      && Reborn(disk, config).state.values
          == (if record.kind.Set? then values[record.key := record.value] else values - {record.key})
      && Reborn(disk, config).state.next == Increment(record.sequenceNumber)
  {
    if readable {
      ReplaySnoc(map[], log, record);
      assert (log + [record])[..|log|] == log;
      hide Replay, Validate, ReadLog;
      RecoveryEffect(disk, config, AllOk, log + [record]);
      hide Recovered;
    } else {
      UnreadableIsRefused(disk, config, AllOk);
    }
  }

  /** A file that does not read stays as it is, and no restart gets past it. */
  lemma {:induction false} RefusedForever(n: Node, config: Config, steps: seq<Step>)
    requires !n.serving && n.state.writer.disk.created && ReadLog(n.state.writer.disk.bytes).Failure?
    ensures !Ran(n, config, steps).serving
    ensures Ran(n, config, steps).state.writer.disk.bytes == n.state.writer.disk.bytes
    decreases |steps|
  {
    if steps != [] {
      var next := Executed(n, config, steps[0]).0;
      UnreadableIsRefused(n.state.writer.disk, config, steps[0].io);
      assert next.state.writer.disk == n.state.writer.disk by {
        hide ReadLog;
      }
      hide Executed, ReadLog;
      RefusedForever(next, config, steps[1..]);
    }
  }

  // ----- The same without a crash -----

  /** The first piece grows by what is glued in front of it. */
  lemma FirstPieceGlued(a: Bytes, b: Bytes, separator: Byte)
    requires FreeOf(a, separator)
    ensures Split(a + b, separator)[0] == a + Split(b, separator)[0]
  {
    var j := Find(b, separator);
    assert forall k :: 0 <= k < |a| + j ==> (a + b)[k] != separator;
    if j < |b| {
      assert (a + b)[|a| + j] == separator;
      assert Find(a + b, separator) == |a| + j;
      assert (a + b)[..|a| + j] == a + b[..j];
    } else {
      assert Find(a + b, separator) == |a + b|;
    }
    hide Find;
  }

  lemma OnePiece(s: Bytes, separator: Byte)
    requires |Split(s, separator)| == 1
    ensures FreeOf(s, separator)
  {
  }

  lemma VersionFirst(line: Bytes)
    ensures Decoded(line).Success? ==> Split(StripLineEnding(line), SPACE)[0] == VERSION
  {
    AcceptedExactly(line);
    hide Decoded;
  }

  /** A part of a record and a whole one on the same line are not accepted: too many parts, or a wrong version. */
  lemma {:induction false} GluedTorn(part: Bytes, record: WalRecord)
    requires part != []
    ensures Decoded(part + RecordLine(record)).Failure?
  {
    FieldsPrintable(record);
    assert RecordLine(record) == Join(Fields(record), SPACE) && Fields(record)[0] == VERSION;
    SplitOfJoin(Fields(record), SPACE);
    LineEndsPrintable(record);
    hide Split, Decoded, RecordLine, StripLineEnding, Fields, Join;
    var glued := part + RecordLine(record);
    Stripped(glued);
    FiveParts(glued);
    VersionFirst(glued);
    SplitCount(part, RecordLine(record), SPACE);
    if |Split(part, SPACE)| == 1 {
      OnePiece(part, SPACE);
      FirstPieceGlued(part, RecordLine(record), SPACE);
      assert |part + VERSION| > |VERSION|;
    }
  }

  /**
   A write that stopped inside its record, wherever it stopped, spoils the file with the next mutation that is
   acknowledged: no restart succeeds after it.
   */
  lemma {:induction false} AfterTornWrite(n: Node, config: Config, call: Call, torn: Io, next: Call, io: Io,
      log: seq<WalRecord>, values: Store)
    requires n.serving && InStep(n, log, values)
    requires LeavesBytesBehind(n.state, config, call, torn) && torn.WriteFails?
    requires
      var after := NodeAfter(n, config, call, torn);
      Mutates(next) && Acknowledges(after, config, next, io)
    ensures
      var after := NodeAfter(n, config, call, torn);
      !Reborn(DiskAfter(after, config, next, io), config).serving
  {
    var after := NodeAfter(n, config, call, torn);
    var part := Encoded(RecordFor(n.state.next, call))[..torn.written];
    TornWrite(n, config, call, torn);
    var m := CallEffect(n, config, call, torn);
    var k := CallEffect(after, config, next, io);
    var record, disk := RecordFor(after.state.next, next), DiskAfter(after, config, next, io);
    TornHasNoLineFeed(RecordFor(n.state.next, call), torn.written);
    LogBytesEndLine(log);
    assert Torn(record, k) == Encoded(record);
    hide LogBytes, Encoded, Torn, NodeAfter, DiskAfter, Acknowledges, LeavesBytesBehind;
    UnendedLines(LogBytes(log), part, record);
    GluedTorn(part, record);
    hide Lines, Decoded, RecordLine;
    BadLastLine(disk.bytes, Lines(LogBytes(log)), part + RecordLine(record));
    UnreadableIsRefused(disk, config, AllOk);
    hide Recovered, ReadLog;
  }

  lemma TornWrite(n: Node, config: Config, call: Call, torn: Io)
    requires n.serving && Writable(n.state.writer)
    requires LeavesBytesBehind(n.state, config, call, torn) && torn.WriteFails?
    ensures DiskAfter(n, config, call, torn).bytes
      == n.state.writer.disk.bytes + Encoded(RecordFor(n.state.next, call))[..torn.written]
  {
    MutationIsAppend(n.state, config, call, torn);
    hide ServeDurably, Encoded, Validate;
  }

  // ----- The loss, on every key and value -----

  lemma FirstStart(config: Config)
    requires config.path != []
    ensures Reborn(Disk(false, [], 0), config) == Serving(Disk(true, [], 0), map[], 1)
  {
  }

  lemma Interrupted(config: Config, key: Bytes, value: Bytes, k: nat, text: Bytes)
    requires config.path != [] && key != [] && value != []
    requires k < |Encoded(MakeSetRecord(1, key, value))|
    ensures DiskAfter(Serving(Disk(true, [], 0), map[], 1), config, SetCall(key, value), WriteFails(k, false, text))
      == Disk(true, [] + Torn(MakeSetRecord(1, key, value), k), 0)
  {
    hide Encoded, Validate;
  }

  lemma Accepts(n: Node, config: Config, key: Bytes, value: Bytes)
    requires config.path != [] && n.serving && !n.state.writer.closed && n.state.next != 0 && key != [] && value != []
    ensures Acknowledges(n, config, SetCall(key, value), AllOk)
  {
    hide Encoded;
  }

  /**
   A SET is cut inside its value, the process recovers with a shorter value, and sets another key. That SET is
   written, synced and acknowledged; the next restart is refused, and the key is lost with all the others.
   */
  lemma {:induction false} GluedSetIsLost(
      config: Config, key: Bytes, value: Bytes, text: Bytes, otherKey: Bytes, otherValue: Bytes)
    requires config.path != [] && config.policy == FsyncEveryWrite
    requires key != [] && |value| >= 2 && otherKey != [] && otherValue != []
    ensures
      var k := |Header(MakeSetRecord(1, key, value))| + 2;
      var first := Reborn(Disk(false, [], 0), config);
      var torn := DiskAfter(first, config, SetCall(key, value), WriteFails(k, false, text));
      && first.serving && torn.synced <= k == |torn.bytes|
      && var second := Reborn(Cut(torn, k), config);
      && second.serving && second.state.values == map[key := value[..1]]
      && Acknowledges(second, config, SetCall(otherKey, otherValue), AllOk)
      && !Reborn(DiskAfter(second, config, SetCall(otherKey, otherValue), AllOk), config).serving
  {
    var record := MakeSetRecord(1, key, value);
    var k := |Header(record)| + 2;
    CutAfterOneByte(record);
    FirstStart(config);
    Interrupted(config, key, value, k, text);
    var first := Reborn(Disk(false, [], 0), config);
    var torn := DiskAfter(first, config, SetCall(key, value), WriteFails(k, false, text));
    hide Encoded, Header, RecordLine, CutInsideValue, Validate, DiskAfter, Reborn, Acknowledges;
    assert [] + Torn(record, k) == Torn(record, k) && Torn(record, k)[..k] == Torn(record, k);
    assert Cut(torn, k) == Disk(true, Torn(record, k), k);
    TornStart(Cut(torn, k), config, key, value, k);
    var second := Reborn(Cut(torn, k), config);
    Accepts(second, config, otherKey, otherValue);
    AcknowledgedAfterRecovery(Cut(torn, k), config, SetCall(otherKey, otherValue), AllOk);
  }

  lemma TornStart(disk: Disk, config: Config, key: Bytes, value: Bytes, k: nat)
    requires config.path != [] && key != [] && value != []
    requires
      var record := MakeSetRecord(1, key, value);
      && k < |Encoded(record)| && CutInsideValue(record, k) && ValueCut(record, k) == 1
      && disk == Disk(true, Torn(record, k), k)
    ensures
      var n := Reborn(disk, config);
      && n.serving && n.state.values == map[key := value[..1]] && n.state.next != 0 && !n.state.writer.closed
      && !EndsLine(disk.bytes)
  {
    var record := MakeSetRecord(1, key, value);
    var shorter := record.(value := value[..1]);
    assert LogBytes([]) == [] && [] + Torn(record, k) == Torn(record, k);
    TornEndsNoLine([], record, k);
    TornRecord(record, k);
    assert Surviving([], record, k) == Some([shorter]) by {
      assert [] + [shorter] == [shorter];
      hide Encoded, Validate, ValueCut;
    }
    hide Encoded, CutInsideValue, Torn, ValueCut, Surviving, Validate;
    RecoverTorn(disk, config, [], map[], record, k);
    OneSet(shorter);
    ReadTorn([], record, k);
    RecoveryEffect(disk, config, AllOk, [shorter]);
    hide Recovered, ReadLog, Replay;
  }

  lemma OneSet(record: WalRecord)
    requires Valid(record) && record.kind.Set? && record.sequenceNumber == 1
    ensures Replay(map[], [record]) == (map[record.key := record.value], Ok)
    ensures NextSequence([record]) == 2
  {
    assert [record][..0] == [] && MaxSequence([]) == 0;
    assert MaxSequence([record]) == 1;
  }

  lemma CutAfterOneByte(record: WalRecord)
    requires Valid(record) && record.kind.Set? && |record.value| >= 2
    ensures
      var k := |Header(record)| + 2;
      && k < |RecordLine(record)| < |Encoded(record)|
      && CutInsideValue(record, k) && ValueCut(record, k) == 1
  {
    LineIsHeaderThenValue(record);
    hide Header;
  }

  // ----- Any number of crashes -----

  /** A run, the call that a crash interrupts, and the length at which the file survives. */
  datatype Phase = Phase(steps: seq<Step>, call: Call, io: Io, length: nat)

  /** The run's failures write nothing, and the surviving length is one the crash can leave. */
  ghost predicate Crashes(n: Node, config: Config, p: Phase)
  {
    var disk := FinalDisk(n, config, p.steps, p.call, p.io);
    && (forall i :: 0 <= i < |p.steps| ==> Harmless(config, p.steps[i].io))
    && disk.synced <= p.length <= |disk.bytes|
  }

  ghost function Survivor(n: Node, config: Config, p: Phase): Disk
    requires Crashes(n, config, p)
  {
    Cut(FinalDisk(n, config, p.steps, p.call, p.io), p.length)
  }

  /** Every crash of a life leaves a file that is empty or ends a line. */
  ghost predicate EndsLines(n: Node, config: Config, life: seq<Phase>)
    decreases |life|
  {
    life == [] ||
    (&& Crashes(n, config, life[0]) && EndsLine(Survivor(n, config, life[0]).bytes)
     && EndsLines(Reborn(Survivor(n, config, life[0]), config), config, life[1..]))
  }

  /** After every crash recovery serves, and what it serves is explained by what was acknowledged before. */
  ghost predicate AllExplained(n: Node, config: Config, life: seq<Phase>)
    decreases |life|
  {
    life == [] ||
    (&& Crashes(n, config, life[0])
     && PhaseExplained(n, config, life[0])
     && AllExplained(Reborn(Survivor(n, config, life[0]), config), config, life[1..]))
  }

  ghost predicate PhaseExplained(n: Node, config: Config, p: Phase)
    requires Crashes(n, config, p)
  {
    var values, reborn := AcknowledgedBy(n, n.state.values, config, p.steps), Reborn(Survivor(n, config, p), config);
    && reborn.serving
    && Explained(values, p.call, reborn.state.values)
    && (Acknowledges(Ran(n, config, p.steps), config, p.call, p.io) ==>
          reborn.state.values == Acknowledged(values, p.call, Done(Ok)))
  }

  /** After a crash whose surviving file is empty or ends a line, recovery is in step with it. */
  lemma {:induction false} BackInStep(
      n: Node, config: Config, call: Call, io: Io, length: nat, log: seq<WalRecord>, values: Store)
    returns (longer: seq<WalRecord>)
    requires config.path != [] && InStep(n, log, values)
    requires |n.state.writer.disk.bytes| <= length <= |DiskAfter(n, config, call, io).bytes|
    ensures
      var disk := Cut(DiskAfter(n, config, call, io), length);
      var reborn := Reborn(disk, config);
      EndsLine(disk.bytes) ==>
        reborn.serving && InStep(reborn, longer, reborn.state.values) && Durable(reborn.state.writer.disk)
  {
    var k := DuringCall(n, config, call, io, length, log, values);
    var disk := Cut(DiskAfter(n, config, call, io), length);
    CallGrows(n, config, call, io);
    hide DiskAfter, Acknowledges, ReadLog, Replay, LogBytes, MaxSequence, Encoded, Torn, EndsLine, Reborn;
    longer := log;
    if k == 0 {
      WholeAgain(disk, config, log, values);
    } else if k < |Encoded(RecordFor(n.state.next, call))| {
      TornEndsNoLine(LogBytes(log), RecordFor(n.state.next, call), k);
    } else {
      longer := log + [RecordFor(n.state.next, call)];
      ExtendedAgain(disk, config, log, values, RecordFor(n.state.next, call));
    }
    hide InStep;
  }

  lemma {:induction false} ExtendedAgain(
      disk: Disk, config: Config, log: seq<WalRecord>, values: Store, record: WalRecord)
    requires config.path != [] && AllValid(log) && Replay(map[], log) == (values, Ok) && disk.created
    requires Valid(record) && record.sequenceNumber == NextSequence(log)
    requires record.kind.Del? ==> record.key in values
    requires disk.bytes == LogBytes(log) + Torn(record, |Encoded(record)|) && Durable(disk)
    ensures
      var reborn := Reborn(disk, config);
      && reborn.serving && InStep(reborn, log + [record], reborn.state.values)
      && Durable(reborn.state.writer.disk)
  {
    assert Torn(record, |Encoded(record)|) == Encoded(record);
    hide Encoded, Torn, Validate, LogBytes, InStep, Reborn, Replay, MaxSequence;
    Extend(log, values, record);
    WholeAgain(disk, config, log + [record], Replay(map[], log + [record]).0);
  }

  lemma {:induction false} WholeAgain(disk: Disk, config: Config, log: seq<WalRecord>, values: Store)
    requires config.path != [] && AllValid(log) && Replay(map[], log) == (values, Ok)
    requires disk.bytes == LogBytes(log) && (!disk.created ==> log == [])
    ensures
      var reborn := Reborn(disk, config);
      && reborn.serving && reborn.state.values == values && InStep(reborn, log, values)
      && reborn.state.writer.disk == disk.(created := true)
  {
    ReadOfLog(log);
    RecoveryEffect(disk, config, AllOk, log);
    hide Recovered, LogBytes, Replay, ReadLog, AllValid, MaxSequence;
  }

  lemma {:induction false} OnePhase(n: Node, config: Config, p: Phase, log: seq<WalRecord>)
    returns (longer: seq<WalRecord>)
    requires config.policy == FsyncEveryWrite && config.path != []
    requires InStep(n, log, n.state.values) && Durable(n.state.writer.disk)
    requires Crashes(n, config, p) && EndsLine(Survivor(n, config, p).bytes)
    ensures PhaseExplained(n, config, p)
    ensures
      var reborn := Reborn(Survivor(n, config, p), config);
      InStep(reborn, longer, reborn.state.values) && Durable(reborn.state.writer.disk)
  {
    var middle := RunDurable(n, config, p.steps, log, n.state.values);
    var last, values := Ran(n, config, p.steps), AcknowledgedBy(n, n.state.values, config, p.steps);
    SyncedBefore(last, config, p.call, p.io);
    hide Ran, AcknowledgedBy, DiskAfter, Acknowledges, Explained;
    CrashDuringCall(last, config, p.call, p.io, p.length, middle, values);
    longer := BackInStep(last, config, p.call, p.io, p.length, middle, values);
    hide InStep, Recovered, EndsLine;
  }

  /**
   Crash durability through any number of crashes: while every surviving file is empty or ends a line, every
   recovery serves, with every acknowledged mutation and at most the call in flight besides.
   */
  lemma {:induction false} ManyCrashesFrom(n: Node, config: Config, life: seq<Phase>, log: seq<WalRecord>)
    requires config.policy == FsyncEveryWrite && config.path != []
    requires InStep(n, log, n.state.values) && Durable(n.state.writer.disk)
    requires EndsLines(n, config, life)
    ensures AllExplained(n, config, life)
    decreases |life|
  {
    if life != [] {
      hide InStep, Durable, Crashes, Survivor, PhaseExplained, Reborn, EndsLine;
      var longer := OnePhase(n, config, life[0], log);
      ManyCrashesFrom(Reborn(Survivor(n, config, life[0]), config), config, life[1..], longer);
    }
  }

  lemma {:induction false} ManyCrashes(config: Config, life: seq<Phase>)
    requires config.policy == FsyncEveryWrite && config.path != []
    requires EndsLines(FRESH, config, life)
    ensures AllExplained(FRESH, config, life)
  {
    assert InStep(FRESH, [], map[]);
    hide InStep, EndsLines, AllExplained;
    ManyCrashesFrom(FRESH, config, life, []);
  }
}
