/**
 Sequence numbers over every run in which no write stops halfway; fsyncs may
 fail. The 64-bit counter wraps, and the engine then never logs again.
 */
module WalSequence {
  import opened ByteStrings
  import opened Core
  import opened WalRecords
  import opened WalCodec
  import opened WalCodecProofs
  import opened WalReader
  import opened WalReplay
  import opened WalWriter
  import opened InMemory
  import opened WalStorage
  import opened WalRuns

  ghost predicate Ascending(log: seq<WalRecord>)
  {
    forall i, j :: 0 <= i <= j < |log| ==> log[i].sequenceNumber <= log[j].sequenceNumber
  }

  ghost predicate StrictlyAscending(numbers: seq<Uint64>)
  {
    forall i, j :: 0 <= i < j < |numbers| ==> numbers[i] < numbers[j]
  }

  /** The number under which a step was acknowledged as a mutation. */
  ghost function AckOf(n: Node, config: Config, step: Step): seq<Uint64>
  {
    var answer := Executed(n, config, step).1;
    if step.op.Client? && Mutates(step.op.call) && answer == Some(Done(Ok)) then [n.state.next] else []
  }

  /** The numbers acknowledged over a run, in order. */
  ghost function AcksOf(n: Node, config: Config, steps: seq<Step>): seq<Uint64>
    decreases |steps|
  {
    if steps == [] then [] else
    AckOf(n, config, steps[0]) + AcksOf(Executed(n, config, steps[0]).0, config, steps[1..])
  }

  ghost predicate CounterAhead(next: Uint64, log: seq<WalRecord>, acks: seq<Uint64>)
  {
    if next == 0 then MaxSequence(log) as int == UINT64_MAX
    else MaxSequence(log) <= next && (acks != [] ==> acks[|acks| - 1] < next)
  }

  ghost predicate AcksLogged(log: seq<WalRecord>, acks: seq<Uint64>)
  {
    StrictlyAscending(acks) && (acks != [] ==> acks[|acks| - 1] <= MaxSequence(log))
  }

  /** The file holds whole records in ascending order. */
  ghost predicate WholeLog(n: Node, log: seq<WalRecord>)
  {
    WholeFile(n, log) && Ascending(log)
  }

  ghost predicate InOrder(n: Node, log: seq<WalRecord>, acks: seq<Uint64>)
  {
    && WholeLog(n, log) && AcksLogged(log, acks)
    && (n.serving ==> CounterAhead(n.state.next, log, acks))
  }

  lemma MaxSequenceSnoc(log: seq<WalRecord>, record: WalRecord)
    requires MaxSequence(log) <= record.sequenceNumber
    ensures MaxSequence(log + [record]) == record.sequenceNumber
    ensures Ascending(log) ==> Ascending(log + [record])
  {
    assert (log + [record])[..|log|] == log;
    MaxSequenceIsMax(log);
  }

  lemma LogGrows(log: seq<WalRecord>, record: WalRecord)
    requires AllValid(log) && Valid(record) && Ascending(log) && MaxSequence(log) <= record.sequenceNumber
    ensures AllValid(log + [record]) && Ascending(log + [record])
    ensures MaxSequence(log + [record]) == record.sequenceNumber
    ensures LogBytes(log + [record]) == LogBytes(log) + Encoded(record)
  {
    hide Valid, Encoded;
    MaxSequenceSnoc(log, record);
    LogBytesSnoc(log, record);
  }

  lemma CounterSteps(next: Uint64, log: seq<WalRecord>, acks: seq<Uint64>, record: WalRecord)
    requires next != 0 && record.sequenceNumber == next
    requires AcksLogged(log, acks) && CounterAhead(next, log, acks)
    ensures
      var longer := log + [record];
      && AcksLogged(longer, acks) && CounterAhead(next, longer, acks)
      && AcksLogged(longer, acks + [next]) && CounterAhead(Increment(next), longer, acks + [next])
  {
    MaxSequenceSnoc(log, record);
    hide MaxSequence;
  }

  lemma ClientInOrder(n: Node, config: Config, call: Call, io: Io, log: seq<WalRecord>, acks: seq<Uint64>)
    returns (longer: seq<WalRecord>)
    requires InOrder(n, log, acks) && Complete(io) && n.serving && Mutates(call)
    ensures
      var step := Step(Client(call), io);
      InOrder(Executed(n, config, step).0, longer, acks + AckOf(n, config, step))
    ensures log <= longer
  {
    var record, next := RecordFor(n.state.next, call), NodeAfter(n, config, call, io);
    var m := CallEffect(n, config, call, io);
    CallCounts(n, config, call, io);
    AckOfCall(n, config, call, io);
    assert m > 0 ==> record.sequenceNumber == n.state.next != 0 && MaxSequence(log) <= record.sequenceNumber by {
      hide Executed, LogBytes, AllValid, Ascending, AcksLogged, Encoded, Torn, AckOf, Acknowledges, MaxSequence;
    }
    hide Executed, LogBytes, AllValid, Ascending, CounterAhead, AcksLogged, Encoded, Valid, Torn, AckOf, Acknowledges;
    hide RecordFor, Mutates, Increment, Complete, Writable, MaxSequence;
    assert acks + [] == acks;
    if m > 0 {
      longer := log + [record];
      CounterSteps(n.state.next, log, acks, record);
      FileGrows(n, next, log, record, m);
    } else {
      longer := log;
      FileStays(n, next, log);
    }
    hide WholeLog;
  }

  lemma FileStays(n: Node, next: Node, log: seq<WalRecord>)
    requires WholeLog(n, log)
    requires next.state.writer.disk.bytes == n.state.writer.disk.bytes && Writable(next.state.writer)
    requires n.state.writer.disk.created ==> next.state.writer.disk.created
    ensures WholeLog(next, log)
  {
    hide LogBytes, AllValid, Ascending;
  }

  lemma FileGrows(n: Node, next: Node, log: seq<WalRecord>, record: WalRecord, m: nat)
    requires WholeLog(n, log) && Valid(record) && MaxSequence(log) <= record.sequenceNumber
    requires m == |Encoded(record)|
    requires next.state.writer.disk.bytes == n.state.writer.disk.bytes + Torn(record, m)
    requires next.state.writer.disk.created && Writable(next.state.writer)
    ensures WholeLog(next, log + [record])
  {
    hide LogBytes, AllValid, Ascending, Valid;
    assert Torn(record, m) == Encoded(record);
    hide Encoded, Torn;
    LogGrows(log, record);
  }

  lemma AckOfCall(n: Node, config: Config, call: Call, io: Io)
    requires Mutates(call)
    ensures AckOf(n, config, Step(Client(call), io)) == if Acknowledges(n, config, call, io) then [n.state.next] else []
  {
    hide Executed;
  }

  lemma StepInOrder(n: Node, config: Config, step: Step, log: seq<WalRecord>, acks: seq<Uint64>)
    returns (longer: seq<WalRecord>)
    requires InOrder(n, log, acks) && Complete(step.io)
    ensures InOrder(Executed(n, config, step).0, longer, acks + AckOf(n, config, step))
    ensures log <= longer
  {
    longer := log;
    assert acks + [] == acks;
    match step.op
    case Restart =>
      RecoveredInOrder(n, config, step.io, log, acks);
      hide InOrder, Recovered;
    case Client(call) =>
      hide InOrder, ServeDurably;
      if n.serving && Mutates(call) {
        longer := ClientInOrder(n, config, call, step.io, log, acks);
      }
  }

  lemma {:induction false} RecoveredInOrder(n: Node, config: Config, io: Io, log: seq<WalRecord>, acks: seq<Uint64>)
    requires InOrder(n, log, acks)
    ensures InOrder(Recovered(n.state.writer.disk, config, io).0, log, acks)
    ensures
      var next := Recovered(n.state.writer.disk, config, io).0;
      next.serving ==> next.state.next == NextSequence(log)
  {
    ReadOfLog(log);
    RecoveryEffect(n.state.writer.disk, config, io, log);
    hide Recovered, LogBytes, ReadLog, Replay, MaxSequence, AllValid, Ascending;
  }

  lemma {:induction false} RunInOrder(n: Node, config: Config, steps: seq<Step>, log: seq<WalRecord>, acks: seq<Uint64>)
    returns (longer: seq<WalRecord>)
    requires InOrder(n, log, acks)
    requires forall i :: 0 <= i < |steps| ==> Complete(steps[i].io)
    ensures InOrder(Ran(n, config, steps), longer, acks + AcksOf(n, config, steps))
    decreases |steps|
  {
    if steps == [] {
      longer := log;
      assert acks + [] == acks;
    } else {
      hide InOrder, Executed, Complete, AckOf;
      var next := Executed(n, config, steps[0]).0;
      var ack := AckOf(n, config, steps[0]);
      var middle := StepInOrder(n, config, steps[0], log, acks);
      longer := RunInOrder(next, config, steps[1..], middle, acks + ack);
      ConcatAssoc(acks, ack, AcksOf(next, config, steps[1..]));
    }
  }

  /**
   Over any run with complete writes, numbers in the file never decrease and acknowledged numbers strictly
   increase, none beyond the file's last.
   */
  lemma {:induction false} SequenceNumbers(config: Config, steps: seq<Step>)
    requires forall i :: 0 <= i < |steps| ==> Complete(steps[i].io)
    ensures
      var log, acks := ReadLog(Ran(FRESH, config, steps).state.writer.disk.bytes), AcksOf(FRESH, config, steps);
      && log.Success? && Ascending(log.value) && StrictlyAscending(acks)
      && (forall i :: 0 <= i < |acks| ==> acks[i] <= MaxSequence(log.value))
  {
    var log := RunInOrder(FRESH, config, steps, [], []);
    var acks := AcksOf(FRESH, config, steps);
    assert [] + acks == acks;
    hide Ran, AcksOf;
    AllBelow(log, acks);
    ReadOfLog(log);
    hide ReadLog, LogBytes, MaxSequence;
  }

  /**
   After such a run a successful recovery sets the counter past every number in the file and every acknowledged
   one; it is 0 exactly when the numbers are used up.
   */
  lemma {:induction false} RecoveredCounterExceeds(config: Config, steps: seq<Step>, io: Io)
    requires forall i :: 0 <= i < |steps| ==> Complete(steps[i].io)
    ensures
      var disk := Ran(FRESH, config, steps).state.writer.disk;
      var log, acks, n := ReadLog(disk.bytes), AcksOf(FRESH, config, steps), Recovered(disk, config, io).0;
      && log.Success?
      && (n.serving && n.state.next != 0 ==>
            && (forall i :: 0 <= i < |log.value| ==> log.value[i].sequenceNumber < n.state.next)
            && (forall i :: 0 <= i < |acks| ==> acks[i] < n.state.next))
      && (n.serving ==> (n.state.next == 0 <==> MaxSequence(log.value) as int == UINT64_MAX))
  {
    var log := RunInOrder(FRESH, config, steps, [], []);
    var acks, disk := AcksOf(FRESH, config, steps), Ran(FRESH, config, steps).state.writer.disk;
    assert [] + acks == acks;
    hide Ran, AcksOf;
    ReadOfLog(log);
    RecoveryEffect(disk, config, io, log);
    hide Recovered, ReadLog, LogBytes, AllValid;
    AllBelow(log, acks);
  }

  lemma AllBelow(log: seq<WalRecord>, acks: seq<Uint64>)
    requires AcksLogged(log, acks)
    ensures forall i :: 0 <= i < |log| ==> log[i].sequenceNumber <= MaxSequence(log)
    ensures forall i :: 0 <= i < |acks| ==> acks[i] <= MaxSequence(log)
  {
    MaxSequenceIsMax(log);
  }

  // ----- After the counter has wrapped -----

  ghost predicate UsedUp(n: Node, log: seq<WalRecord>)
  {
    var disk := n.state.writer.disk;
    && AllValid(log) && disk.bytes == LogBytes(log) && disk.created
    && MaxSequence(log) as int == UINT64_MAX
    && (n.serving ==> n.state.next == 0)
  }

  lemma {:induction false} UsedUpStep(n: Node, config: Config, step: Step, log: seq<WalRecord>)
    requires UsedUp(n, log)
    ensures UsedUp(Executed(n, config, step).0, log)
    ensures AckOf(n, config, step) == []
  {
    match step.op
    case Restart =>
      ReadOfLog(log);
      RecoveryEffect(n.state.writer.disk, config, step.io, log);
      hide Recovered, LogBytes, ReadLog, Replay, AllValid;
    case Client(call) =>
      if n.serving && Mutates(call) {
        MutationIsAppend(n.state, config, call, step.io);
        hide ServeDurably, LogBytes;
      }
  }

  /**
   Once the last number is in the file and the counter is 0, nothing is logged or acknowledged ever again, restarts
   included.
   */
  lemma {:induction false} WrappedForever(n: Node, config: Config, steps: seq<Step>, log: seq<WalRecord>)
    requires UsedUp(n, log)
    ensures Ran(n, config, steps).state.writer.disk.bytes == n.state.writer.disk.bytes
    ensures AcksOf(n, config, steps) == []
    decreases |steps|
  {
    if steps != [] {
      UsedUpStep(n, config, steps[0], log);
      hide Executed, AckOf;
      WrappedForever(Executed(n, config, steps[0]).0, config, steps[1..], log);
    }
  }

  /** In a run with complete writes, a serving process whose counter is 0 is in that state. */
  lemma {:induction false} WrapIsFinal(config: Config, steps: seq<Step>, later: seq<Step>)
    requires forall i :: 0 <= i < |steps| ==> Complete(steps[i].io)
    requires Ran(FRESH, config, steps).serving && Ran(FRESH, config, steps).state.next == 0
    ensures
      var n := Ran(FRESH, config, steps);
      && Ran(n, config, later).state.writer.disk.bytes == n.state.writer.disk.bytes
      && AcksOf(n, config, later) == []
  {
    var log := RunInOrder(FRESH, config, steps, [], []);
    var n := Ran(FRESH, config, steps);
    hide Ran, AcksOf;
    assert UsedUp(n, log);
    WrappedForever(n, config, later, log);
  }
}
