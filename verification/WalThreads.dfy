/**
 The durable engine under any number of threads. A mutation is cut into the
 steps between which other threads may run: take the log mutex, check, write
 (piecewise), sync, change the map, count, release. Reads take only the map's
 own mutex and are one step. The file stays open; an append may be refused
 before it writes anything, but does not fail halfway.
 */
module WalThreads {
  import opened ByteStrings
  import opened Core
  import opened WalRecords
  import opened WalCodec
  import opened WalCodecProofs
  import opened WalReader
  import opened WalReplay
  import opened WalWriter
  import opened InMemory
  import opened WalStorage
  import opened WalRuns
  import opened WalCrash

  type Thread = nat

  /** Where a thread is in its call. */
  datatype Pc =
    | Idle
    | Called(call: Call)
    | Locked(call: Call)
    | Absent(call: Call)
    | Appending(call: Call, record: WalRecord, written: nat)
    | Syncing(call: Call, record: WalRecord)
    | Applying(call: Call, record: WalRecord)
    | Counting(call: Call, record: WalRecord)
    | Releasing(call: Call, answer: Answer)
    | Returning(call: Call, answer: Answer)

  /** What an outside observer can place in time; `Effect` is the moment a call takes effect. */
  datatype Event =
    | Invoke(thread: Thread, call: Call)
    | Effect(thread: Thread, call: Call, answer: Answer)
    | Return(thread: Thread, call: Call, answer: Answer)

  datatype System = System(
    disk: Disk,
    values: Store,
    next: Uint64,
    holder: Option<Thread>,
    threads: map<Thread, Pc>,
    history: seq<Event>)

  datatype Move =
    | Start(call: Call)
    | Read
    | Lock
    | Check
    | RemoveAbsent
    | Write(count: nat)
    | Refuse(message: Bytes)
    | Sync
    | ApplyRecord
    | Count
    | Release
    | Finish

  ghost function PcOf(s: System, t: Thread): Pc
  {
    if t in s.threads then s.threads[t] else Idle
  }

  ghost function At(s: System, t: Thread, pc: Pc): System
  {
    s.(threads := s.threads[t := pc])
  }

  /** The call takes effect with this answer. */
  ghost function Took(s: System, t: Thread, call: Call, answer: Answer, pc: Pc): System
  {
    s.(threads := s.threads[t := pc], history := s.history + [Effect(t, call, answer)])
  }

  ghost function Checked(s: System, t: Thread, call: Call): System
    requires Mutates(call)
  {
    var record := RecordFor(s.next, call);
    if call.RemoveCall? && call.key == [] then
      Took(s, t, call, Done(EMPTY_KEY), Releasing(call, Done(EMPTY_KEY)))
    else if call.RemoveCall? && call.key !in s.values then At(s, t, Absent(call))
    else if !Valid(record) then
      Took(s, t, call, Done(Validate(record)), Releasing(call, Done(Validate(record))))
    else At(s, t, Appending(call, record, 0))
  }

  ghost function Grown(disk: Disk, part: Bytes): Disk
  {
    disk.(bytes := disk.bytes + part)
  }

  /** The state after thread `t` tries a move; a move that is not possible there changes nothing. */
  ghost function Moved(s: System, config: Config, t: Thread, move: Move): System
  {
    match (PcOf(s, t), move)
    case (Idle, Start(call)) =>
      s.(threads := s.threads[t := Called(call)], history := s.history + [Invoke(t, call)])
    case (Called(call), Read) =>
      if Mutates(call) then s else
      var answer := ServeRead(s.values, call);
      Took(s, t, call, answer, Returning(call, answer))
    case (Called(call), Lock) =>
      if !Mutates(call) || s.holder.Some? then s else At(s, t, Locked(call)).(holder := Some(t))
    case (Locked(call), Check) =>
      if !Mutates(call) then s else Checked(s, t, call)
    case (Absent(call), RemoveAbsent) =>
      var (values, status) := StoreRemove(s.values, call.key);
      Took(s, t, call, Done(status), Releasing(call, Done(status))).(values := values)
    case (Appending(call, record, written), Write(count)) =>
      var data := Encoded(record);
      if count == 0 || written + count > |data| then s else
      var grown := s.(disk := Grown(s.disk, data[written..written + count]));
      At(grown, t, if written + count == |data| then Syncing(call, record)
                   else Appending(call, record, written + count))
    case (Appending(call, record, written), Refuse(message)) =>
      var refusal := Done(Error(Unavailable, message));
      if written > 0 then s else Took(s, t, call, refusal, Releasing(call, refusal))
    case (Syncing(call, record), Sync) =>
      var disk := if config.policy == FsyncEveryWrite then s.disk.(synced := |s.disk.bytes|) else s.disk;
      At(s, t, Applying(call, record)).(disk := disk)
    case (Applying(call, record), ApplyRecord) =>
      Took(s, t, call, Done(Ok), Counting(call, record)).(values := Acknowledged(s.values, call, Done(Ok)))
    case (Counting(call, _), Count) =>
      At(s, t, Releasing(call, Done(Ok))).(next := Increment(s.next))
    case (Releasing(call, answer), Release) =>
      At(s, t, Returning(call, answer)).(holder := None)
    case (Returning(call, answer), Finish) =>
      s.(threads := s.threads[t := Idle], history := s.history + [Return(t, call, answer)])
    case _ => s
  }

  ghost function RunThreads(s: System, config: Config, moves: seq<(Thread, Move)>): System
    decreases |moves|
  {
    if moves == [] then s else RunThreads(Moved(s, config, moves[0].0, moves[0].1), config, moves[1..])
  }

  /** A process just recovered from a durable file of whole records, with no call in progress. */
  ghost function Recovering(log: seq<WalRecord>): System
  {
    System(
      Disk(true, LogBytes(log), |LogBytes(log)|), After(map[], log), NextSequence(log), None, map[], [])
  }

  ghost predicate Sound(log: seq<WalRecord>)
  {
    AllValid(log) && Replays(map[], log)
  }

  // ----- Mutual exclusion -----

  predicate Inside(pc: Pc)
  {
    !pc.Idle? && !pc.Called? && !pc.Returning?
  }

  /** Only the holder of the log mutex is between locking and releasing. */
  ghost predicate Exclusive(s: System)
  {
    forall t: Thread :: Inside(PcOf(s, t)) <==> s.holder == Some(t)
  }

  lemma {:induction false} ExclusiveKept(s: System, config: Config, t: Thread, move: Move)
    requires Exclusive(s)
    ensures Exclusive(Moved(s, config, t, move))
  {
    hide Encoded, Validate, ServeRead, StoreRemove, Acknowledged, Grown, RecordFor, Valid;
    var after := Moved(s, config, t, move);
    assert forall u: Thread :: u != t ==> PcOf(after, u) == PcOf(s, u);
    assert Inside(PcOf(s, t)) <==> s.holder == Some(t);
  }

  // ----- File, map and counter -----

  ghost function Stage(s: System): Pc
  {
    if s.holder.Some? then PcOf(s, s.holder.value) else Idle
  }

  /** Bytes of the record in flight that are in the file. */
  ghost function InFlight(stage: Pc): Bytes
  {
    match stage
    case Appending(_, record, written) => if written <= |Encoded(record)| then Torn(record, written) else []
    case Syncing(_, record) => Encoded(record)
    case Applying(_, record) => Encoded(record)
    case Counting(_, record) => Encoded(record)
    case _ => []
  }

  /** The record in flight fits the call, the counter and the store before the call. */
  ghost predicate Fits(record: WalRecord, call: Call, next: Uint64, values: Store)
  {
    Mutates(call) && record == RecordFor(next, call) && Valid(record) && (call.RemoveCall? ==> call.key in values)
  }

  ghost predicate StageFits(stage: Pc, next: Uint64, values: Store)
  {
    match stage
    case Locked(call) => Mutates(call)
    case Absent(call) => call.RemoveCall? && call.key != [] && call.key !in values
    case Appending(call, record, written) => Fits(record, call, next, values) && written < |Encoded(record)|
    case Syncing(call, record) => Fits(record, call, next, values)
    case Applying(call, record) => Fits(record, call, next, values)
    case Counting(call, record) => Fits(record, call, next, values)
    case _ => true
  }

  /** `log` is what has been counted; the record in flight comes after it in the file. */
  ghost predicate ShapeAt(disk: Disk, values: Store, next: Uint64, stage: Pc, config: Config, log: seq<WalRecord>)
  {
    var base := After(map[], log);
    && Sound(log) && disk.created
    && disk.bytes == LogBytes(log) + InFlight(stage)
    && next == NextSequence(log)
    && StageFits(stage, next, base)
    && values == (if stage.Counting? then Acknowledged(base, stage.call, Done(Ok)) else base)
    && disk.synced <= |disk.bytes|
    && (config.policy == FsyncEveryWrite ==>
          && |LogBytes(log)| <= disk.synced
          && (stage.Applying? || stage.Counting? ==> disk.synced == |disk.bytes|))
  }

  ghost predicate Shape(s: System, config: Config, log: seq<WalRecord>)
  {
    ShapeAt(s.disk, s.values, s.next, Stage(s), config, log)
  }

  /** The stage follows the holder; other threads do not touch file, map and counter. */
  lemma StageFollows(s: System, config: Config, t: Thread, move: Move)
    requires Exclusive(s)
    ensures Inside(PcOf(s, t)) ==> Stage(s) == PcOf(s, t)
    ensures Inside(PcOf(s, t)) ==>
      var pc := PcOf(Moved(s, config, t, move), t);
      Stage(Moved(s, config, t, move)) == if Inside(pc) then pc else Idle
    ensures !Inside(PcOf(s, t)) ==>
      var after := Moved(s, config, t, move);
      && (after.disk, after.values, after.next) == (s.disk, s.values, s.next)
      && (Stage(after) == Stage(s) || (Stage(s).Idle? && Stage(after).Locked? && Mutates(Stage(after).call)))
  {
    assert Inside(PcOf(s, t)) ==> s.holder == Some(t);
    assert s.holder.Some? ==> Inside(PcOf(s, s.holder.value));
    hide Encoded, Validate, Valid, ServeRead, StoreRemove, Acknowledged;
  }

  lemma WriteShape(
      disk: Disk, values: Store, next: Uint64, stage: Pc, count: nat, config: Config, log: seq<WalRecord>)
    requires stage.Appending? && ShapeAt(disk, values, next, stage, config, log)
    requires 0 < count <= |Encoded(stage.record)| - stage.written
    ensures
      var grown := Grown(disk, Encoded(stage.record)[stage.written..stage.written + count]);
      var reached := if stage.written + count == |Encoded(stage.record)| then Syncing(stage.call, stage.record)
                     else stage.(written := stage.written + count);
      ShapeAt(grown, values, next, reached, config, log)
  {
    hide Encoded, Sound, After, LogBytes, NextSequence, Fits;
    WritePiece(LogBytes(log), stage.record, stage.written, count);
  }

  lemma CountShape(disk: Disk, values: Store, next: Uint64, stage: Pc, config: Config, log: seq<WalRecord>)
    requires stage.Counting? && ShapeAt(disk, values, next, stage, config, log)
    ensures ShapeAt(disk, values, Increment(next), Releasing(stage.call, Done(Ok)), config, log + [stage.record])
  {
    hide Encoded, Sound, After, LogBytes, NextSequence, Fits, Acknowledged;
    CountRecord(log, stage.call, stage.record);
    var bytes := LogBytes(log + [stage.record]);
    assert bytes + [] == bytes;
  }

  /** A stage that neither writes, syncs, applies nor counts may follow any stage that has nothing in the file. */
  lemma QuietShape(
      disk: Disk, values: Store, next: Uint64, stage: Pc, quiet: Pc, config: Config, log: seq<WalRecord>)
    requires ShapeAt(disk, values, next, stage, config, log)
    requires InFlight(stage) == [] == InFlight(quiet) && StageFits(quiet, next, values)
    requires !stage.Counting? && !quiet.Counting? && !quiet.Applying?
    ensures ShapeAt(disk, values, next, quiet, config, log)
  {
    hide Encoded, Sound, After, LogBytes, NextSequence, StageFits, InFlight;
  }

  /** Where the check sends a mutation. */
  lemma CheckedPc(s: System, t: Thread, call: Call)
    requires Mutates(call)
    ensures
      var after, record := Checked(s, t, call), RecordFor(s.next, call);
      var pc := PcOf(after, t);
      && (after.disk, after.values, after.next) == (s.disk, s.values, s.next)
      && (|| pc.Releasing?
          || (pc == Absent(call) && call.RemoveCall? && call.key != [] && call.key !in s.values)
          || (pc == Appending(call, record, 0) && Valid(record) && (call.RemoveCall? ==> call.key in s.values)))
  {
    hide Encoded, Validate, Valid, RecordFor;
  }

  lemma CheckedShape(s: System, t: Thread, call: Call)
    requires Mutates(call)
    ensures
      var after := Checked(s, t, call);
      && (after.disk, after.values, after.next) == (s.disk, s.values, s.next)
      && Inside(PcOf(after, t)) && !PcOf(after, t).Counting? && !PcOf(after, t).Applying?
      && InFlight(PcOf(after, t)) == [] == InFlight(Locked(call))
      && StageFits(PcOf(after, t), s.next, s.values)
  {
    CheckedPc(s, t, call);
    NothingTorn(RecordFor(s.next, call));
    hide Encoded, Torn, Checked, Valid, RecordFor;
  }

  lemma CheckShape(s: System, config: Config, t: Thread, call: Call, log: seq<WalRecord>)
    requires ShapeAt(s.disk, s.values, s.next, Locked(call), config, log) && Mutates(call)
    ensures
      var after := Checked(s, t, call);
      && (after.disk, after.values, after.next) == (s.disk, s.values, s.next)
      && Inside(PcOf(after, t))
      && ShapeAt(s.disk, s.values, s.next, PcOf(after, t), config, log)
  {
    NothingTorn(RecordFor(s.next, call));
    CheckedShape(s, t, call);
    hide Encoded, Torn, ShapeAt, Checked, Fits, StageFits, InFlight;
    QuietShape(s.disk, s.values, s.next, Locked(call), PcOf(Checked(s, t, call), t), config, log);
  }

  lemma SyncShape(disk: Disk, values: Store, next: Uint64, stage: Pc, config: Config, log: seq<WalRecord>)
    requires stage.Syncing? && ShapeAt(disk, values, next, stage, config, log)
    ensures
      var synced := if config.policy == FsyncEveryWrite then disk.(synced := |disk.bytes|) else disk;
      ShapeAt(synced, values, next, Applying(stage.call, stage.record), config, log)
  {
    hide Encoded, Sound, After, LogBytes, NextSequence, Fits;
  }

  lemma {:induction false} ApplyShape(
      disk: Disk, values: Store, next: Uint64, stage: Pc, config: Config, log: seq<WalRecord>)
    requires stage.Applying? && ShapeAt(disk, values, next, stage, config, log)
    ensures ShapeAt(
      disk, Acknowledged(values, stage.call, Done(Ok)), next, Counting(stage.call, stage.record), config, log)
  {
    hide Encoded, Sound, After, LogBytes, NextSequence, Fits;
  }

  /** One write(2) takes the next bytes of the record; one that takes none or too many is not a move. */
  lemma WriteMove(s: System, config: Config, t: Thread, count: nat)
    requires PcOf(s, t).Appending?
    ensures
      var stage, after := PcOf(s, t), Moved(s, config, t, Write(count));
      if 0 < count <= |Encoded(stage.record)| - stage.written then
        && after.disk == Grown(s.disk, Encoded(stage.record)[stage.written..stage.written + count])
        && after.values == s.values && after.next == s.next
        && PcOf(after, t) == if stage.written + count == |Encoded(stage.record)| then Syncing(stage.call, stage.record)
                             else stage.(written := stage.written + count)
      else after == s
  {
    hide Encoded, Acknowledged, Validate, Valid, ServeRead, Checked, StoreRemove, Grown;
  }

  lemma WriteKept(s: System, config: Config, t: Thread, move: Move, log: seq<WalRecord>)
    requires Exclusive(s) && Shape(s, config, log) && PcOf(s, t).Appending? && move.Write?
    ensures Shape(Moved(s, config, t, move), config, log)
  {
    StageFollows(s, config, t, move);
    var stage := PcOf(s, t);
    hide ShapeAt, Encoded, Torn, Exclusive, Stage, Moved, Grown;
    WriteMove(s, config, t, move.count);
    if 0 < move.count <= |Encoded(stage.record)| - stage.written {
      WriteShape(s.disk, s.values, s.next, stage, move.count, config, log);
    }
  }

  lemma CountKept(s: System, config: Config, t: Thread, log: seq<WalRecord>)
    requires Exclusive(s) && Shape(s, config, log) && PcOf(s, t).Counting?
    ensures Shape(Moved(s, config, t, Count), config, log + [PcOf(s, t).record])
  {
    StageFollows(s, config, t, Count);
    hide ShapeAt, Encoded, Torn, Exclusive, Stage, Acknowledged, Validate, Valid, ServeRead, Checked, StoreRemove;
    CountShape(s.disk, s.values, s.next, PcOf(s, t), config, log);
  }

  lemma SyncKept(s: System, config: Config, t: Thread, log: seq<WalRecord>)
    requires Exclusive(s) && Shape(s, config, log) && PcOf(s, t).Syncing?
    ensures Shape(Moved(s, config, t, Sync), config, log)
  {
    StageFollows(s, config, t, Sync);
    hide ShapeAt, Encoded, Torn, Exclusive, Stage, Acknowledged, Validate, Valid, ServeRead, Checked, StoreRemove;
    SyncShape(s.disk, s.values, s.next, PcOf(s, t), config, log);
  }

  lemma ApplyKept(s: System, config: Config, t: Thread, log: seq<WalRecord>)
    requires Exclusive(s) && Shape(s, config, log) && PcOf(s, t).Applying?
    ensures Shape(Moved(s, config, t, ApplyRecord), config, log)
  {
    StageFollows(s, config, t, ApplyRecord);
    hide ShapeAt, Encoded, Torn, Exclusive, Stage, Acknowledged, Validate, Valid, ServeRead, Checked, StoreRemove;
    ApplyShape(s.disk, s.values, s.next, PcOf(s, t), config, log);
  }

  lemma CheckKept(s: System, config: Config, t: Thread, log: seq<WalRecord>)
    requires Exclusive(s) && Shape(s, config, log) && PcOf(s, t).Locked?
    ensures Shape(Moved(s, config, t, Check), config, log)
  {
    StageFollows(s, config, t, Check);
    StageCalls(s.disk, s.values, s.next, PcOf(s, t), config, log);
    hide ShapeAt, Encoded, Torn, Exclusive, Stage, Acknowledged, Validate, Valid, ServeRead, Checked, StoreRemove;
    CheckShape(s, config, t, PcOf(s, t).call, log);
  }

  lemma OutsideKept(s: System, config: Config, t: Thread, move: Move, log: seq<WalRecord>)
    requires Exclusive(s) && Shape(s, config, log) && !Inside(PcOf(s, t))
    ensures Shape(Moved(s, config, t, move), config, log)
  {
    StageFollows(s, config, t, move);
    var before, after := Stage(s), Stage(Moved(s, config, t, move));
    hide ShapeAt, Exclusive, Stage, Moved, Encoded;
    if after != before {
      QuietShape(s.disk, s.values, s.next, before, after, config, log);
    }
  }

  /** Every move of every thread keeps file, map and counter in shape. */
  lemma {:induction false} ShapeKept(s: System, config: Config, t: Thread, move: Move, log: seq<WalRecord>)
    returns (longer: seq<WalRecord>)
    requires Exclusive(s) && Shape(s, config, log)
    ensures Shape(Moved(s, config, t, move), config, longer)
    ensures longer == log || (PcOf(s, t).Counting? && longer == log + [PcOf(s, t).record])
  {
    longer := log;
    hide Shape, Exclusive, Moved;
    var pc := PcOf(s, t);
    if !Inside(pc) {
      OutsideKept(s, config, t, move, log);
    } else if pc.Appending? && move.Write? {
      WriteKept(s, config, t, move, log);
    } else if pc.Counting? && move.Count? {
      longer := log + [pc.record];
      CountKept(s, config, t, log);
    } else if pc.Syncing? && move.Sync? {
      SyncKept(s, config, t, log);
    } else if pc.Applying? && move.ApplyRecord? {
      ApplyKept(s, config, t, log);
    } else if pc.Locked? && move.Check? {
      CheckKept(s, config, t, log);
    } else {
      QuietKept(s, config, t, move, log);
    }
  }

  /** The other moves inside a call: removing an absent key, refusing, releasing, and moves that are not possible. */
  lemma QuietKept(s: System, config: Config, t: Thread, move: Move, log: seq<WalRecord>)
    requires Exclusive(s) && Shape(s, config, log) && Inside(PcOf(s, t))
    requires !(PcOf(s, t).Appending? && move.Write?) && !(PcOf(s, t).Counting? && move.Count?)
    requires !(PcOf(s, t).Syncing? && move.Sync?) && !(PcOf(s, t).Applying? && move.ApplyRecord?)
    requires !(PcOf(s, t).Locked? && move.Check?)
    ensures Shape(Moved(s, config, t, move), config, log)
  {
    StageFollows(s, config, t, move);
    var stage := Stage(s);
    StageCalls(s.disk, s.values, s.next, stage, config, log);
    hide ShapeAt, Encoded, Torn, Exclusive, Stage, Acknowledged, Validate, Valid, ServeRead, Checked, Fits;
    var after := Stage(Moved(s, config, t, move));
    if after != stage {
      QuietShape(s.disk, s.values, s.next, stage, after, config, log);
    }
  }

  lemma {:induction false} StageCalls(
      disk: Disk, values: Store, next: Uint64, stage: Pc, config: Config, log: seq<WalRecord>)
    requires ShapeAt(disk, values, next, stage, config, log)
    ensures stage.Locked? ==> Mutates(stage.call)
    ensures stage.Absent? ==> stage.call.key != [] && stage.call.key !in values
    ensures stage.Appending? && stage.written == 0 ==> InFlight(stage) == []
  {
    hide Encoded, Sound, After, LogBytes, NextSequence, Fits;
  }

  lemma NothingTorn(record: WalRecord)
    ensures Torn(record, 0) == [] && |Encoded(record)| > 0
  {
  }

  lemma WritePiece(whole: Bytes, record: WalRecord, written: nat, count: nat)
    requires written + count <= |Encoded(record)|
    ensures whole + Torn(record, written) + Encoded(record)[written..written + count]
      == whole + Torn(record, written + count)
    ensures Torn(record, |Encoded(record)|) == Encoded(record)
  {
    hide Encoded;
    var data := Encoded(record);
    ConcatAssoc(whole, data[..written], data[written..written + count]);
    assert data[..written] + data[written..written + count] == data[..written + count];
  }

  lemma CountRecord(log: seq<WalRecord>, call: Call, record: WalRecord)
    requires Sound(log) && Fits(record, call, NextSequence(log), After(map[], log))
    ensures Sound(log + [record])
    ensures LogBytes(log + [record]) == LogBytes(log) + Encoded(record)
    ensures After(map[], log + [record]) == Acknowledged(After(map[], log), call, Done(Ok))
    ensures NextSequence(log + [record]) == Increment(NextSequence(log))
  {
    Extend(log, After(map[], log), record);
  }

  // ----- Linearization -----

  /** The one answer that an engine with these contents gives when the system works. */
  ghost function Proper(values: Store, next: Uint64, call: Call): Answer
  {
    if Unloggable(values, next, call) then Done(Validate(RecordFor(next, call))) else Serve(values, call).1
  }

  /** The proper answer; or, for a mutation, the report that the log is unavailable. */
  ghost predicate Legal(values: Store, next: Uint64, call: Call, answer: Answer)
  {
    || answer == Proper(values, next, call)
    || (Mutates(call) && answer.Done? && answer.status.Error? && answer.status.code.Unavailable?)
  }

  /** In particular nobody is told that a key is missing which is there, or that something was done which was not. */
  lemma LegalTells(values: Store, next: Uint64, call: Call, status: Status)
    requires Mutates(call) && Legal(values, next, call, Done(status))
    ensures status.Error? && status.code.NotFound? ==> call.RemoveCall? && call.key !in values
    ensures status.Ok? ==> Valid(RecordFor(next, call)) && (call.RemoveCall? ==> call.key in values)
    ensures status.Ok? ==> Acknowledged(values, call, Done(Ok)) == Serve(values, call).0
  {
    hide Ascii;
  }

  /** The store after the calls of the history, in the order in which they took effect. */
  ghost function Linear(values: Store, history: seq<Event>): Store
  {
    if history == [] then values else
    var before, event := Linear(values, history[..|history| - 1]), history[|history| - 1];
    if event.Effect? then Acknowledged(before, event.call, event.answer) else before
  }

  ghost predicate Counts(event: Event)
  {
    event.Effect? && Mutates(event.call) && event.answer == Done(Ok)
  }

  /** The counter after them: it moves with every acknowledged mutation. */
  ghost function LinearNext(next: Uint64, history: seq<Event>): Uint64
  {
    if history == [] then next else
    var before, event := LinearNext(next, history[..|history| - 1]), history[|history| - 1];
    if Counts(event) then Increment(before) else before
  }

  /** Every answer is legal at the moment its call took effect. */
  ghost predicate LegalHistory(values: Store, next: Uint64, history: seq<Event>)
  {
    forall i :: 0 <= i < |history| && history[i].Effect? ==>
      Legal(Linear(values, history[..i]), LinearNext(next, history[..i]), history[i].call, history[i].answer)
  }

  datatype Phase = Out | Pending(call: Call) | Effected(call: Call, answer: Answer) | Broken

  /** What the history says of one thread: each call is invoked, then takes effect once, then returns that answer. */
  ghost function PhaseOf(history: seq<Event>, t: Thread): Phase
  {
    if history == [] then Out else
    var before, event := PhaseOf(history[..|history| - 1], t), history[|history| - 1];
    if event.thread != t then before else
    match event
    case Invoke(_, call) => if before.Out? then Pending(call) else Broken
    case Effect(_, call, answer) => if before == Pending(call) then Effected(call, answer) else Broken
    case Return(_, call, answer) => if before == Effected(call, answer) then Out else Broken
  }

  ghost function PhaseAt(pc: Pc): Phase
  {
    match pc
    case Idle => Out
    case Counting(call, _) => Effected(call, Done(Ok))
    case Releasing(call, answer) => Effected(call, answer)
    case Returning(call, answer) => Effected(call, answer)
    case _ => Pending(pc.call)
  }

  ghost predicate Phased(s: System)
  {
    forall t: Thread :: PhaseOf(s.history, t) == PhaseAt(PcOf(s, t))
  }

  lemma PhaseSnoc(history: seq<Event>, event: Event)
    ensures forall u: Thread :: u != event.thread ==> PhaseOf(history + [event], u) == PhaseOf(history, u)
    ensures event.Invoke? && PhaseOf(history, event.thread).Out? ==>
      PhaseOf(history + [event], event.thread) == Pending(event.call)
    ensures event.Effect? && PhaseOf(history, event.thread) == Pending(event.call) ==>
      PhaseOf(history + [event], event.thread) == Effected(event.call, event.answer)
    ensures event.Return? && PhaseOf(history, event.thread) == Effected(event.call, event.answer) ==>
      PhaseOf(history + [event], event.thread) == Out
  {
    assert (history + [event])[..|history|] == history;
  }

  /** A move adds at most one event, about its own thread, and moves no other thread. */
  lemma OneEvent(s: System, config: Config, t: Thread, move: Move)
    ensures forall u: Thread :: u != t ==> PcOf(Moved(s, config, t, move), u) == PcOf(s, u)
    ensures
      var history := Moved(s, config, t, move).history;
      || history == s.history
      || (history != [] && history[..|history| - 1] == s.history && history[|history| - 1].thread == t)
  {
    hide Encoded, Validate, ServeRead, Serve, Acknowledged, Valid;
  }

  lemma MoverPhase(s: System, config: Config, t: Thread, move: Move)
    requires PhaseOf(s.history, t) == PhaseAt(PcOf(s, t))
    ensures PhaseOf(Moved(s, config, t, move).history, t) == PhaseAt(PcOf(Moved(s, config, t, move), t))
  {
    hide Encoded, Validate, ServeRead, Serve, Acknowledged, Valid, PhaseOf;
    var after := Moved(s, config, t, move);
    if after.history != s.history {
      OneEvent(s, config, t, move);
      PhaseSnoc(s.history, after.history[|s.history|]);
      assert after.history == s.history + [after.history[|s.history|]];
    }
  }

  lemma OtherPhase(s: System, config: Config, t: Thread, move: Move, u: Thread)
    requires u != t && PhaseOf(s.history, u) == PhaseAt(PcOf(s, u))
    ensures PhaseOf(Moved(s, config, t, move).history, u) == PhaseAt(PcOf(Moved(s, config, t, move), u))
  {
    OneEvent(s, config, t, move);
    var history := Moved(s, config, t, move).history;
    hide Moved, PhaseAt, PhaseOf;
    if history != s.history {
      assert history == s.history + [history[|s.history|]];
      PhaseSnoc(s.history, history[|s.history|]);
    }
  }

  lemma {:induction false} PhasedKept(s: System, config: Config, t: Thread, move: Move)
    requires Phased(s)
    ensures Phased(Moved(s, config, t, move))
  {
    hide Moved, PhaseAt, PhaseOf, PcOf;
    var after := Moved(s, config, t, move);
    forall u: Thread ensures PhaseOf(after.history, u) == PhaseAt(PcOf(after, u)) {
      if u == t {
        MoverPhase(s, config, t, move);
      } else {
        OtherPhase(s, config, t, move, u);
      }
    }
  }

  lemma LegalSnoc(values: Store, next: Uint64, history: seq<Event>, event: Event)
    requires LegalHistory(values, next, history)
    requires event.Effect? ==>
      Legal(Linear(values, history), LinearNext(next, history), event.call, event.answer)
    ensures LegalHistory(values, next, history + [event])
    ensures Linear(values, history + [event])
      == if event.Effect? then Acknowledged(Linear(values, history), event.call, event.answer)
         else Linear(values, history)
    ensures LinearNext(next, history + [event])
      == if Counts(event) then Increment(LinearNext(next, history)) else LinearNext(next, history)
  {
    var longer := history + [event];
    assert longer[..|history|] == history;
    assert forall i :: 0 <= i < |history| ==> longer[i] == history[i] && longer[..i] == history[..i];
    hide Legal;
  }

  /** The counter as the history has it: a mutator that has changed the map counts it next. */
  ghost function CounterAt(stage: Pc, next: Uint64): Uint64
  {
    if stage.Counting? then Increment(next) else next
  }

  ghost predicate Linearized(s: System, initial: Store, first: Uint64)
  {
    && LegalHistory(initial, first, s.history)
    && Linear(initial, s.history) == s.values
    && LinearNext(first, s.history) == CounterAt(Stage(s), s.next)
  }

  /** What one event means for map and counter. */
  ghost predicate Justified(event: Event, before: Store, next: Uint64, after: Store, nextAfter: Uint64)
  {
    && (event.Effect? ==> Legal(before, next, event.call, event.answer))
    && after == (if event.Effect? then Acknowledged(before, event.call, event.answer) else before)
    && nextAfter == (if Counts(event) then Increment(next) else next)
  }

  lemma ApplyLegal(s: System, config: Config, log: seq<WalRecord>, t: Thread)
    requires Exclusive(s) && Shape(s, config, log) && PcOf(s, t).Applying?
    ensures
      var call := PcOf(s, t).call;
      Justified(Effect(t, call, Done(Ok)), s.values, s.next, Acknowledged(s.values, call, Done(Ok)), Increment(s.next))
  {
    StageFollows(s, config, t, ApplyRecord);
    hide Encoded, After, LogBytes, NextSequence, Sound, Torn, InFlight, Moved, Validate;
  }

  lemma AbsentLegal(s: System, config: Config, log: seq<WalRecord>, t: Thread)
    requires Exclusive(s) && Shape(s, config, log) && PcOf(s, t).Absent?
    ensures
      var call := PcOf(s, t).call;
      var (values, status) := StoreRemove(s.values, call.key);
      values == s.values && Justified(Effect(t, call, Done(status)), s.values, s.next, values, s.next)
  {
    StageFollows(s, config, t, RemoveAbsent);
    hide Encoded, After, LogBytes, NextSequence, Sound, Torn, InFlight, Moved, Validate, Valid;
  }

  lemma UnavailableLegal(values: Store, next: Uint64, call: Call, message: Bytes, t: Thread)
    requires Mutates(call)
    ensures Justified(Effect(t, call, Done(Error(Unavailable, message))), values, next, values, next)
  {
    hide Proper;
  }

  lemma CheckLegal(s: System, t: Thread, call: Call)
    requires Mutates(call)
    ensures
      var after := Checked(s, t, call);
      && (after.values, after.next) == (s.values, s.next)
      && (after.history == s.history
          || (|after.history| == |s.history| + 1
              && Justified(after.history[|s.history|], s.values, s.next, after.values, after.next)))
  {
    hide Encoded;
  }

  lemma ReadLegal(values: Store, next: Uint64, call: Call, t: Thread)
    requires !Mutates(call)
    ensures Justified(Effect(t, call, ServeRead(values, call)), values, next, values, next)
  {
  }

  /** No call took effect, or one did, legally, and changed map and counter as its answer says. */
  ghost predicate Effective(s: System, after: System)
  {
    var next, nextAfter := CounterAt(Stage(s), s.next), CounterAt(Stage(after), after.next);
    || (after.history == s.history && after.values == s.values && nextAfter == next)
    || (|after.history| == |s.history| + 1
        && Justified(after.history[|s.history|], s.values, next, after.values, nextAfter))
  }

  lemma ApplyEffect(s: System, config: Config, t: Thread, log: seq<WalRecord>)
    requires Exclusive(s) && Shape(s, config, log) && PcOf(s, t).Applying?
    ensures Effective(s, Moved(s, config, t, ApplyRecord))
  {
    StageFollows(s, config, t, ApplyRecord);
    ApplyLegal(s, config, log, t);
    hide Shape, Encoded, Acknowledged, Checked, Stage, Exclusive, Justified, Ascii;
  }

  lemma AbsentEffect(s: System, config: Config, t: Thread, log: seq<WalRecord>)
    requires Exclusive(s) && Shape(s, config, log) && PcOf(s, t).Absent?
    ensures Effective(s, Moved(s, config, t, RemoveAbsent))
  {
    StageFollows(s, config, t, RemoveAbsent);
    AbsentLegal(s, config, log, t);
    hide Shape, Encoded, Acknowledged, Checked, Stage, Exclusive, Justified, StoreRemove, Ascii;
  }

  lemma ReadEffect(s: System, config: Config, t: Thread)
    requires Exclusive(s) && PcOf(s, t).Called?
    ensures Effective(s, Moved(s, config, t, Read))
  {
    StageFollows(s, config, t, Read);
    hide Encoded, Acknowledged, Checked, Stage, Exclusive, Justified, ServeRead, Ascii;
    if !Mutates(PcOf(s, t).call) {
      ReadLegal(s.values, CounterAt(Stage(s), s.next), PcOf(s, t).call, t);
    }
  }

  lemma RefuseEffect(s: System, config: Config, t: Thread, message: Bytes, log: seq<WalRecord>)
    requires Exclusive(s) && Shape(s, config, log) && PcOf(s, t).Appending?
    ensures Effective(s, Moved(s, config, t, Refuse(message)))
  {
    StageFollows(s, config, t, Refuse(message));
    MutatorsInside(s, config, log, t);
    hide Shape, Encoded, Acknowledged, Checked, Stage, Exclusive, Justified, Ascii;
    UnavailableLegal(s.values, s.next, PcOf(s, t).call, message, t);
  }

  lemma CheckEffect(s: System, config: Config, t: Thread)
    requires Exclusive(s) && PcOf(s, t).Locked?
    ensures Effective(s, Moved(s, config, t, Check))
  {
    StageFollows(s, config, t, Check);
    hide Encoded, Acknowledged, Checked, Stage, Exclusive, Justified, Validate, Valid, Ascii;
    if Mutates(PcOf(s, t).call) {
      CheckLegal(s, t, PcOf(s, t).call);
      CheckedPc(s, t, PcOf(s, t).call);
    }
  }

  lemma QuietEffect(s: System, config: Config, t: Thread, move: Move)
    requires Exclusive(s)
    requires !(PcOf(s, t).Applying? && move.ApplyRecord?) && !(PcOf(s, t).Absent? && move.RemoveAbsent?)
    requires !(PcOf(s, t).Called? && move.Read?) && !(PcOf(s, t).Appending? && move.Refuse?)
    requires !(PcOf(s, t).Locked? && move.Check?)
    ensures Effective(s, Moved(s, config, t, move))
  {
    StageFollows(s, config, t, move);
    hide Encoded, Acknowledged, Checked, Stage, Exclusive, Legal, ServeRead, StoreRemove, Ascii, Grown;
  }

  /** The step at which a call takes effect is legal there and changes map and counter as the answer says. */
  lemma EffectLegal(s: System, config: Config, t: Thread, move: Move, log: seq<WalRecord>)
    requires Exclusive(s) && Shape(s, config, log)
    ensures Effective(s, Moved(s, config, t, move))
  {
    var pc := PcOf(s, t);
    hide Shape, Exclusive, Effective, Moved, PcOf;
    if pc.Applying? && move.ApplyRecord? {
      ApplyEffect(s, config, t, log);
    } else if pc.Absent? && move.RemoveAbsent? {
      AbsentEffect(s, config, t, log);
    } else if pc.Called? && move.Read? {
      ReadEffect(s, config, t);
    } else if pc.Appending? && move.Refuse? {
      RefuseEffect(s, config, t, move.message, log);
    } else if pc.Locked? && move.Check? {
      CheckEffect(s, config, t);
    } else {
      QuietEffect(s, config, t, move);
    }
  }

  lemma MutatorsInside(s: System, config: Config, log: seq<WalRecord>, t: Thread)
    requires Exclusive(s) && Shape(s, config, log) && PcOf(s, t).Appending?
    ensures Mutates(PcOf(s, t).call)
  {
    StageFollows(s, config, t, Read);
    hide Encoded, After, LogBytes, NextSequence, Sound, Torn, InFlight, Moved;
  }

  lemma {:induction false} LinearizedKept(
      s: System, config: Config, t: Thread, move: Move, log: seq<WalRecord>, initial: Store, first: Uint64)
    requires Exclusive(s) && Shape(s, config, log) && Linearized(s, initial, first)
    ensures Linearized(Moved(s, config, t, move), initial, first)
  {
    EffectLegal(s, config, t, move, log);
    OneEvent(s, config, t, move);
    var after := Moved(s, config, t, move);
    hide Moved, Shape, Exclusive, Legal, Acknowledged, LegalHistory, Linear, LinearNext, CounterAt, Counts, Stage, PcOf;
    if after.history != s.history {
      var event := after.history[|s.history|];
      assert after.history == s.history + [event];
      LegalSnoc(initial, first, s.history, event);
    }
  }

  // ----- Every reachable state -----

  ghost predicate Good(s: System, config: Config, log: seq<WalRecord>, initial: Store, first: Uint64)
  {
    Exclusive(s) && Shape(s, config, log) && Phased(s) && Linearized(s, initial, first)
  }

  /** The move is an fsync(2) that makes the file durable. */
  ghost predicate Syncs(s: System, config: Config, t: Thread, move: Move)
  {
    config.policy == FsyncEveryWrite && PcOf(s, t).Syncing? && move.Sync?
  }

  ghost predicate SyncRan(s: System, config: Config, moves: seq<(Thread, Move)>)
    decreases |moves|
  {
    moves != [] &&
    (|| Syncs(s, config, moves[0].0, moves[0].1)
     || SyncRan(Moved(s, config, moves[0].0, moves[0].1), config, moves[1..]))
  }

  /** The mutator's record is durable, or need not be. */
  ghost predicate PastSync(stage: Pc)
  {
    stage.Applying? || stage.Counting?
  }

  /** Without an fsync no mutator gets past it. */
  lemma BeforeSync(s: System, config: Config, t: Thread, move: Move)
    requires Exclusive(s) && config.policy == FsyncEveryWrite && !PastSync(Stage(s)) && !Syncs(s, config, t, move)
    ensures !PastSync(Stage(Moved(s, config, t, move)))
  {
    StageFollows(s, config, t, move);
    hide Encoded, Stage, Exclusive, Validate, Valid, Acknowledged, ServeRead, StoreRemove, Grown, Ascii;
  }

  lemma GoodKept(
      s: System, config: Config, t: Thread, move: Move, log: seq<WalRecord>, initial: Store, first: Uint64)
    returns (longer: seq<WalRecord>)
    requires Good(s, config, log, initial, first)
    ensures Good(Moved(s, config, t, move), config, longer, initial, first)
    ensures log <= longer
    ensures config.policy == FsyncEveryWrite && !PastSync(Stage(s)) && !Syncs(s, config, t, move) ==>
      longer == log && !PastSync(Stage(Moved(s, config, t, move)))
  {
    hide Moved, Exclusive, Shape, Phased, Linearized, Syncs, PastSync, Stage;
    longer := ShapeKept(s, config, t, move, log);
    ExclusiveKept(s, config, t, move);
    PhasedKept(s, config, t, move);
    LinearizedKept(s, config, t, move, log, initial, first);
    if config.policy == FsyncEveryWrite && !PastSync(Stage(s)) && !Syncs(s, config, t, move) {
      BeforeSync(s, config, t, move);
      NotCounting(s, t);
    }
  }

  lemma {:induction false} Reachable(
      s: System, config: Config, moves: seq<(Thread, Move)>, log: seq<WalRecord>, initial: Store, first: Uint64)
    returns (longer: seq<WalRecord>)
    requires Good(s, config, log, initial, first)
    ensures Good(RunThreads(s, config, moves), config, longer, initial, first)
    ensures log <= longer
    ensures config.policy == FsyncEveryWrite && !PastSync(Stage(s)) && !SyncRan(s, config, moves) ==>
      longer == log && !PastSync(Stage(RunThreads(s, config, moves)))
    decreases |moves|
  {
    if moves == [] {
      longer := log;
    } else {
      hide Moved, Good, Syncs, PastSync, Stage;
      var (t, move) := moves[0];
      var middle := GoodKept(s, config, t, move, log, initial, first);
      longer := Reachable(Moved(s, config, t, move), config, moves[1..], middle, initial, first);
    }
  }

  lemma NotCounting(s: System, t: Thread)
    requires Exclusive(s) && !PastSync(Stage(s))
    ensures !PcOf(s, t).Counting?
  {
  }

  lemma RecoveringIsGood(config: Config, log: seq<WalRecord>)
    requires Sound(log)
    ensures Good(Recovering(log), config, log, After(map[], log), NextSequence(log))
  {
    hide Sound, After, NextSequence, LogBytes;
    assert LogBytes(log) + [] == LogBytes(log);
  }

  lemma ReachableFromRecovery(config: Config, start: seq<WalRecord>, moves: seq<(Thread, Move)>)
    returns (log: seq<WalRecord>)
    requires Sound(start)
    ensures Good(RunThreads(Recovering(start), config, moves), config, log, After(map[], start), NextSequence(start))
    ensures start <= log
    ensures config.policy == FsyncEveryWrite && !SyncRan(Recovering(start), config, moves) ==>
      log == start && !PastSync(Stage(RunThreads(Recovering(start), config, moves)))
  {
    RecoveringIsGood(config, start);
    hide Good, Sound, SyncRan, RunThreads;
    log := Reachable(Recovering(start), config, moves, start, After(map[], start), NextSequence(start));
  }

  /**
   Linearizability. In every interleaving the calls take effect one at a time, each between its invocation and its
   return and with the answer it returns. In that order every answer is the plain engine's, or the validation error
   of a record that cannot be logged, or for a mutation that the log is unavailable; an error has no effect, and map
   and counter are what that order makes of the initial ones.
   */
  lemma {:induction false} LinearizableFromLog(config: Config, start: seq<WalRecord>, moves: seq<(Thread, Move)>)
    requires Sound(start)
    ensures
      var s, initial, first := RunThreads(Recovering(start), config, moves), After(map[], start), NextSequence(start);
      && LegalHistory(initial, first, s.history)
      && Linear(initial, s.history) == s.values
      && (s.holder.None? ==> LinearNext(first, s.history) == s.next)
      && forall t: Thread :: !PhaseOf(s.history, t).Broken?
  {
    var log := ReachableFromRecovery(config, start, moves);
    hide RunThreads, LegalHistory, Linear, LinearNext, Shape, Exclusive, PhaseOf;
  }

  // ----- Progress -----

  /** The next step of a thread. */
  ghost function NextStep(pc: Pc): Move
    requires !pc.Idle?
  {
    match pc
    case Called(call) => if Mutates(call) then Lock else Read
    case Locked(_) => Check
    case Absent(_) => RemoveAbsent
    case Appending(_, record, written) =>
      if written < |Encoded(record)| then Write(|Encoded(record)| - written) else Sync
    case Syncing(_, _) => Sync
    case Applying(_, _) => ApplyRecord
    case Counting(_, _) => Count
    case Releasing(_, _) => Release
    case Returning(_, _) => Finish
  }

  /** The one a thread waits for: the holder of the log mutex when it wants the mutex, else nobody but itself. */
  ghost function WaitsFor(s: System, t: Thread): Thread
  {
    var pc := PcOf(s, t);
    if pc.Called? && Mutates(pc.call) && s.holder.Some? then s.holder.value else t
  }

  /** Nobody is ever stuck: the next step of every call, or of the one it waits for, is always possible. */
  lemma {:induction false} NeverStuck(
      config: Config, start: seq<WalRecord>, moves: seq<(Thread, Move)>, t: Thread)
    requires Sound(start)
    ensures
      var s := RunThreads(Recovering(start), config, moves);
      var u := WaitsFor(s, t);
      !PcOf(s, t).Idle? ==>
        !PcOf(s, u).Idle? && PcOf(Moved(s, config, u, NextStep(PcOf(s, u))), u) != PcOf(s, u)
  {
    var log := ReachableFromRecovery(config, start, moves);
    var s := RunThreads(Recovering(start), config, moves);
    hide RunThreads, Phased, Linearized, Shape, Exclusive, Moved;
    if !PcOf(s, t).Idle? {
      var u := WaitsFor(s, t);
      HolderInside(s, t);
      StepPossible(s, config, u, log);
    }
  }

  lemma HolderInside(s: System, t: Thread)
    requires Exclusive(s) && !PcOf(s, t).Idle?
    ensures
      var u := WaitsFor(s, t);
      !PcOf(s, u).Idle? && (PcOf(s, u).Called? && Mutates(PcOf(s, u).call) ==> s.holder.None?)
  {
  }

  lemma {:induction false} StepPossible(s: System, config: Config, u: Thread, log: seq<WalRecord>)
    requires Exclusive(s) && Shape(s, config, log) && !PcOf(s, u).Idle?
    requires PcOf(s, u).Called? && Mutates(PcOf(s, u).call) ==> s.holder.None?
    ensures PcOf(Moved(s, config, u, NextStep(PcOf(s, u))), u) != PcOf(s, u)
  {
    var pc := PcOf(s, u);
    StageFollows(s, config, u, Read);
    StageBounds(s, config, log);
    hide Shape, Exclusive, Stage, Encoded, Validate, Valid, Acknowledged, ServeRead, StoreRemove, Ascii, RecordFor;
    if pc.Locked? {
      CheckedPc(s, u, pc.call);
    }
    hide Checked;
  }

  lemma StageBounds(s: System, config: Config, log: seq<WalRecord>)
    requires Shape(s, config, log)
    ensures Stage(s).Appending? ==> Stage(s).written < |Encoded(Stage(s).record)|
    ensures Stage(s).Locked? ==> Mutates(Stage(s).call)
  {
    hide Encoded, Sound, After, LogBytes, NextSequence, Fits, Stage;
  }

  /** The file up to its last line feed. */
  ghost function WholeLines(bytes: Bytes): Bytes
  {
    if bytes == [] || bytes[|bytes| - 1] == LF then bytes else WholeLines(bytes[..|bytes| - 1])
  }

  lemma {:induction false} WholeLinesOfLog(whole: Bytes, tail: Bytes)
    requires EndsLine(whole) && FreeOf(tail, LF)
    ensures WholeLines(whole + tail) == whole
  {
    if tail == [] {
      assert whole + tail == whole;
    } else {
      var front := tail[..|tail| - 1];
      WholeLinesOfLog(whole, front);
      assert (whole + tail)[..|whole + tail| - 1] == whole + front;
      assert (whole + tail)[|whole + tail| - 1] == tail[|tail| - 1];
    }
  }

  /** The records in the file at a reachable state: what was counted, and the record in flight once complete. */
  ghost function LogOnFile(stage: Pc, log: seq<WalRecord>): seq<WalRecord>
  {
    if stage.Syncing? || stage.Applying? || stage.Counting? then log + [stage.record] else log
  }

  lemma {:induction false} FileHoldsLog(s: System, config: Config, log: seq<WalRecord>)
    requires Shape(s, config, log)
    ensures ReadLog(WholeLines(s.disk.bytes)) == Success(LogOnFile(Stage(s), log))
    ensures Sound(LogOnFile(Stage(s), log))
  {
    var stage := Stage(s);
    hide Encoded, Validate, ReadLog, After, NextSequence;
    if stage.Syncing? || stage.Applying? || stage.Counting? {
      hide LogBytes;
      CountRecord(log, stage.call, stage.record);
      LogBytesEndLine(log + [stage.record]);
      WholeLinesOfLog(s.disk.bytes, []);
      assert s.disk.bytes + [] == s.disk.bytes;
      ReadOfLog(log + [stage.record]);
    } else {
      if stage.Appending? {
        TornHasNoLineFeed(stage.record, stage.written);
      }
      hide LogBytes, Torn;
      LogBytesEndLine(log);
      WholeLinesOfLog(LogBytes(log), InFlight(stage));
      ReadOfLog(log);
    }
  }

  /**
   Interleaved safety. At every reachable state the map is the replay of the file's records, or of those records
   without the last one, and the latter only while a mutator holds the log mutex.
   */
  lemma {:induction false} MapFollowsFromLog(config: Config, start: seq<WalRecord>, moves: seq<(Thread, Move)>)
    requires Sound(start)
    ensures
      var s := RunThreads(Recovering(start), config, moves);
      var log := ReadLog(WholeLines(s.disk.bytes));
      && log.Success? && AllValid(log.value)
      && (Replay(map[], log.value) == (s.values, Ok)
          || (s.holder.Some? && log.value != [] && Replay(map[], log.value[..|log.value| - 1]) == (s.values, Ok)))
  {
    var log := ReachableFromRecovery(config, start, moves);
    var s := RunThreads(Recovering(start), config, moves);
    hide RunThreads, Linearized, Exclusive, Phased;
    FileHoldsLog(s, config, log);
    var stage := Stage(s);
    if stage.Syncing? || stage.Applying? || stage.Counting? {
      assert (log + [stage.record])[..|log|] == log;
      CountRecord(log, stage.call, stage.record);
    }
    hide ReadLog, WholeLines, Replay, LogBytes, Encoded;
  }

  /**
   Under FsyncEveryWrite the map any reader sees is the replay of records that are already durable: they lie within
   the synced part of the file.
   */
  lemma {:induction false} SyncedFromLog(
      config: Config, start: seq<WalRecord>, moves: seq<(Thread, Move)>) returns (seen: seq<WalRecord>)
    requires Sound(start) && config.policy == FsyncEveryWrite
    ensures
      var s := RunThreads(Recovering(start), config, moves);
      && Sound(seen) && Replay(map[], seen) == (s.values, Ok)
      && LogBytes(seen) <= s.disk.bytes && |LogBytes(seen)| <= s.disk.synced <= |s.disk.bytes|
      && LogBytes(start) <= LogBytes(seen)
      && (!SyncRan(Recovering(start), config, moves) ==> seen == start)
  {
    var log := ReachableFromRecovery(config, start, moves);
    var s := RunThreads(Recovering(start), config, moves);
    hide RunThreads, Linearized, Exclusive, Phased, SyncRan, Recovering, Shape;
    seen := AppliedLog(s, config, log);
    LogBytesAppend(start, seen[|start|..]);
    assert seen == start + seen[|start|..];
    hide LogBytes;
  }

  /** The records that the map reflects; under FsyncEveryWrite they are durable. */
  lemma AppliedLog(s: System, config: Config, log: seq<WalRecord>) returns (seen: seq<WalRecord>)
    requires Shape(s, config, log) && config.policy == FsyncEveryWrite
    ensures Sound(seen) && Replay(map[], seen) == (s.values, Ok)
    ensures LogBytes(seen) <= s.disk.bytes && |LogBytes(seen)| <= s.disk.synced <= |s.disk.bytes|
    ensures log <= seen && (!PastSync(Stage(s)) ==> seen == log)
  {
    var stage := Stage(s);
    hide Stage, Encoded, Validate;
    seen := log;
    if stage.Counting? {
      seen := log + [stage.record];
      CountRecord(log, stage.call, stage.record);
    }
    hide Replay, LogBytes, AllValid, MaxSequence, Fits;
  }

  /** Until the first fsync the map is the recovered one. */
  lemma {:induction false} NothingApplied(config: Config, start: seq<WalRecord>, moves: seq<(Thread, Move)>)
    requires Sound(start) && config.policy == FsyncEveryWrite && !SyncRan(Recovering(start), config, moves)
    ensures RunThreads(Recovering(start), config, moves).values == After(map[], start)
  {
    var seen := SyncedFromLog(config, start, moves);
    hide SyncRan, RunThreads;
  }

  /** The file stays where it is, and is durable as far as it was when no fsync has run. */
  lemma {:induction false} FileFromLog(config: Config, start: seq<WalRecord>, moves: seq<(Thread, Move)>)
    requires Sound(start)
    ensures
      var disk := RunThreads(Recovering(start), config, moves).disk;
      disk.created && (!SyncRan(Recovering(start), config, moves) ==> disk.synced == |LogBytes(start)|)
  {
    var log := ReachableFromRecovery(config, start, moves);
    SyncedStays(Recovering(start), config, moves);
    hide RunThreads, Linearized, Exclusive, Phased, SyncRan, LogBytes;
  }

  lemma {:induction false} SyncedStays(s: System, config: Config, moves: seq<(Thread, Move)>)
    ensures !SyncRan(s, config, moves) ==> RunThreads(s, config, moves).disk.synced == s.disk.synced
    decreases |moves|
  {
    if moves != [] {
      var (t, move) := moves[0];
      if !Syncs(s, config, t, move) {
        OnlySyncsSync(s, config, t, move);
      }
      hide Moved, Syncs;
      SyncedStays(Moved(s, config, t, move), config, moves[1..]);
    }
  }

  lemma OnlySyncsSync(s: System, config: Config, t: Thread, move: Move)
    requires !Syncs(s, config, t, move)
    ensures Moved(s, config, t, move).disk.synced == s.disk.synced
  {
    hide Encoded, Validate, Valid, Acknowledged, ServeRead, StoreRemove, Ascii;
  }

  // ----- A crash at any moment -----

  /** A mutator is writing or syncing: its call has not taken effect yet. */
  ghost predicate BeforeEffect(stage: Pc)
  {
    stage.Appending? || stage.Syncing? || stage.Applying?
  }

  lemma {:induction false} CrashBeforeEffect(s: System, config: Config, log: seq<WalRecord>, length: nat)
    requires Shape(s, config, log) && config.policy == FsyncEveryWrite && config.path != []
    requires s.disk.synced <= length <= |s.disk.bytes| && BeforeEffect(Stage(s))
    ensures
      var recovered := Recovered(Cut(s.disk, length), config, AllOk).0;
      recovered.serving ==> Explained(s.values, Stage(s).call, recovered.state.values)
  {
    var stage, base, disk := Stage(s), After(map[], log), Cut(s.disk, length);
    var record := stage.record;
    var k := length - |LogBytes(log)|;
    var m := if stage.Appending? then stage.written else |Encoded(record)|;
    assert InFlight(stage) == Torn(record, m);
    CutWithin(LogBytes(log), record, m, k);
    var state := State(Writer(s.disk, true, false), base, s.next);
    assert RecordFor(state.next, stage.call) == record;
    hide Validate, StageFits, Encoded, LogBytes, Torn, NextSequence, AllValid, InFlight;
    RecoverTorn(disk, config, log, base, record, k);
    if Surviving(log, record, k).Some? {
      SurvivorsExplained(log, base, state, stage.call, k);
    }
    hide Surviving, Recovered, Replay, Explained;
  }

  lemma {:induction false} CrashOutsideEffect(s: System, config: Config, log: seq<WalRecord>, length: nat)
    requires Shape(s, config, log) && config.policy == FsyncEveryWrite && config.path != []
    requires s.disk.synced <= length <= |s.disk.bytes| && !BeforeEffect(Stage(s))
    ensures
      var recovered := Recovered(Cut(s.disk, length), config, AllOk).0;
      recovered.serving && recovered.state.values == s.values
  {
    var whole := FileOutsideEffect(s, config, log);
    hide Encoded, LogBytes, Torn, NextSequence, AllValid, ReadLog, Shape, BeforeEffect;
    var disk := Cut(s.disk, length);
    assert disk.bytes == s.disk.bytes;
    ReadOfLog(whole);
    RecoveryEffect(disk, config, AllOk, whole);
    hide Recovered, Replay;
  }

  /** Outside the stretch before its effect, the file is a whole log, all of it synced, and the map is its replay. */
  lemma FileOutsideEffect(s: System, config: Config, log: seq<WalRecord>) returns (whole: seq<WalRecord>)
    requires Shape(s, config, log) && config.policy == FsyncEveryWrite && !BeforeEffect(Stage(s))
    ensures AllValid(whole) && s.disk.created && s.disk.bytes == LogBytes(whole)
    ensures s.disk.synced == |s.disk.bytes|
    ensures Replay(map[], whole) == (s.values, Ok)
  {
    var stage := Stage(s);
    hide Encoded, LogBytes, Torn, NextSequence, AllValid, Stage, Fits;
    whole := log;
    if stage.Counting? {
      whole := log + [stage.record];
      CountRecord(log, stage.call, stage.record);
    } else {
      assert LogBytes(log) + [] == LogBytes(log);
    }
  }

  lemma {:induction false} CrashInShape(s: System, config: Config, log: seq<WalRecord>, length: nat)
    requires Shape(s, config, log) && config.policy == FsyncEveryWrite && config.path != []
    requires s.disk.synced <= length <= |s.disk.bytes|
    ensures
      var recovered, stage := Recovered(Cut(s.disk, length), config, AllOk).0, Stage(s);
      if BeforeEffect(stage) then recovered.serving ==> Explained(s.values, stage.call, recovered.state.values)
      else recovered.serving && recovered.state.values == s.values
  {
    if BeforeEffect(Stage(s)) {
      CrashBeforeEffect(s, config, log, length);
    } else {
      CrashOutsideEffect(s, config, log, length);
    }
    hide Recovered, Shape, Explained;
  }

  /**
   Crash durability for threads. Stop any interleaving under FsyncEveryWrite at any moment and cut the file at any
   length from the synced one on. Unless a mutator was before its effect, recovery restores exactly the map that
   readers saw; otherwise it reports an error or restores that map up to the call in flight.
   */
  lemma {:induction false} CrashFromLog(config: Config, start: seq<WalRecord>, moves: seq<(Thread, Move)>, length: nat)
    requires Sound(start) && config.policy == FsyncEveryWrite && config.path != []
    requires
      var disk := RunThreads(Recovering(start), config, moves).disk;
      disk.synced <= length <= |disk.bytes|
    ensures
      var s := RunThreads(Recovering(start), config, moves);
      var recovered, stage := Recovered(Cut(s.disk, length), config, AllOk).0, Stage(s);
      if BeforeEffect(stage) then recovered.serving ==> Explained(s.values, stage.call, recovered.state.values)
      else recovered.serving && recovered.state.values == s.values
  {
    var log := ReachableFromRecovery(config, start, moves);
    hide RunThreads, Linearized, Exclusive, Phased, Shape, Recovered, Explained;
    CrashInShape(RunThreads(Recovering(start), config, moves), config, log, length);
  }
}
