/**
 The durable engine: every mutation goes to the log before it reaches the
 in-memory store, and recovery rebuilds the store from the log
 (src/wal/wal_backed_storage.cpp).
 */
module WalStorage {
  import opened ByteStrings
  import opened Core
  import opened WalRecords
  import opened WalReader
  import opened WalReplay
  import opened WalWriter
  import opened InMemory

  datatype State = State(writer: Writer, values: Store, next: Uint64)

  // ----- The effect of each operation -----

  ghost function MaxSequence(records: seq<WalRecord>): Uint64
  {
    if records == [] then 0 else
    var front, last := MaxSequence(records[..|records| - 1]), records[|records| - 1].sequenceNumber;
    if last > front then last else front
  }

  lemma {:induction false} MaxSequenceIsMax(records: seq<WalRecord>)
    ensures forall i :: 0 <= i < |records| ==> records[i].sequenceNumber <= MaxSequence(records)
    ensures records != [] ==> exists i :: 0 <= i < |records| && records[i].sequenceNumber == MaxSequence(records)
  {
    if records != [] {
      var front, last := records[..|records| - 1], |records| - 1;
      MaxSequenceIsMax(front);
      if records[last].sequenceNumber <= MaxSequence(front) && front != [] {
        var i :| 0 <= i < |front| && front[i].sequenceNumber == MaxSequence(front);
        assert records[i].sequenceNumber == MaxSequence(records);
      } else {
        assert records[last].sequenceNumber == MaxSequence(records);
      }
    }
  }

  ghost function NextSequence(records: seq<WalRecord>): Uint64
  {
    Increment(MaxSequence(records))
  }

  /** The record a mutation logs, when it logs one. */
  ghost function RecordFor(next: Uint64, call: Call): WalRecord
    requires Mutates(call)
  {
    match call
    case SetCall(key, value) => MakeSetRecord(next, key, value)
    case RemoveCall(key) => MakeDelRecord(next, key)
  }

  /** The call would be logged, but its record is not valid: an empty key or value, or a counter that has wrapped. */
  ghost predicate Unloggable(values: Store, next: Uint64, call: Call)
  {
    Mutates(call) && !Valid(RecordFor(next, call)) && (call.RemoveCall? ==> call.key != [] && call.key in values)
  }

  ghost function AfterSet(s: State, config: Config, key: Bytes, value: Bytes, io: Io): (State, Status)
  {
    var record := MakeSetRecord(s.next, key, value);
    if !Valid(record) then (s, Validate(record)) else
    var (writer, status) := Appended(s.writer, config, record, io);
    if status.Error? then (s.(writer := writer), status) else
    var (values, stored) := StoreSet(s.values, key, value);
    (State(writer, values, if stored.Ok? then Increment(s.next) else s.next), stored)
  }

  ghost function AfterRemove(s: State, config: Config, key: Bytes, io: Io): (State, Status)
  {
    var found := StoreExists(s.values, key);
    if found.Failure? then (s, found.error)
    else if !found.value then
      var (values, status) := StoreRemove(s.values, key);
      (s.(values := values), status)
    else
      var record := MakeDelRecord(s.next, key);
      if !Valid(record) then (s, Validate(record)) else
      var (writer, status) := Appended(s.writer, config, record, io);
      if status.Error? then (s.(writer := writer), status) else
      var (values, stored) := StoreRemove(s.values, key);
      (State(writer, values, if stored.Ok? then Increment(s.next) else s.next), stored)
  }

  ghost function AfterOpen(s: State, config: Config, io: Io): (State, Status)
  {
    var (writer, status) := Opened(s.writer, config, io);
    (s.(writer := writer), status)
  }

  ghost function AfterRecover(s: State, config: Config, io: Io): (State, Status)
  {
    if config.path == [] then (s, InvalidArgumentError("WAL file path must not be empty"))
    else if io.PathFails? then (s, PathError(io.problem))
    else if !s.writer.disk.created then AfterOpen(s.(next := 1), config, io)
    else if io.ReadFails? then (s, io.error) else
    var records := ReadLog(s.writer.disk.bytes);
    if records.Failure? then (s, records.error) else
    var (values, status) := Replay(s.values, records.value);
    if status.Error? then (s.(values := values), status)
    else AfterOpen(s.(values := values, next := NextSequence(records.value)), config, io)
  }

  /** The durable engine. */
  ghost function ServeDurably(s: State, config: Config, call: Call, io: Io): (State, Answer)
  {
    match call
    case SetCall(key, value) =>
      var (after, status) := AfterSet(s, config, key, value, io);
      (after, Done(status))
    case RemoveCall(key) =>
      var (after, status) := AfterRemove(s, config, key, io);
      (after, Done(status))
    case _ => (s, ServeRead(s.values, call))
  }

  // ----- The program's object -----

  lemma RefusedRead(file: Bytes)
    ensures ReadLog(file).Failure? ==> ReadLog(file).error.code == InvalidArgument
  {
    ReadExact(file);
    hide ReadLog, Lines, GoodLine, Ascii, FirstBad;
  }

  method ComputeNextSequenceNumber(records: seq<WalRecord>) returns (next: Uint64)
    ensures next == NextSequence(records)
  {
    var max: Uint64 := 0;
    for i := 0 to |records|
      invariant max == MaxSequence(records[..i])
    {
      assert records[..i + 1][..i] == records[..i];
      if records[i].sequenceNumber > max {
        max := records[i].sequenceNumber;
      }
    }
    assert records[..|records|] == records;
    return Increment(max);
  }

  class WalBackedStorage {
    const storage: InMemoryStorage
    const writer: WalFileWriter
    var nextSequenceNumber: Uint64

    constructor (storage: InMemoryStorage, writer: WalFileWriter)
      ensures this.storage == storage && this.writer == writer
      ensures nextSequenceNumber == 1
    {
      this.storage, this.writer, nextSequenceNumber := storage, writer, 1;
    }

    ghost function Abstract(): State
      reads this, storage, writer, writer.fs
    {
      State(writer.State(), storage.values, nextSequenceNumber)
    }

    method Set(key: Bytes, value: Bytes) returns (status: Status, ghost io: Io)
      modifies this, storage, writer, writer.fs
      ensures (Abstract(), status) == AfterSet(old(Abstract()), writer.config, key, value, io)
      ensures writer.fs.failures == old(writer.fs.failures) + Failed(io) && Explains(io, writer.fs.errno)
      ensures old(writer.IsOpen() && writer.fs.Steady()) ==> writer.fs.Steady() && io == AllOk
    {
      io := AllOk;
      var record := MakeSetRecord(nextSequenceNumber, key, value);
      status := Validate(record);
      if status.Error? {
        return;
      }
      status, io := writer.AppendRecord(record);
      if status.Error? {
        return;
      }
      status := storage.Set(key, value);
      if status.Error? {
        return;
      }
      nextSequenceNumber := Increment(nextSequenceNumber);
    }

    method Get(key: Bytes) returns (r: Result<Bytes>)
      ensures r == StoreGet(storage.values, key)
    {
      r := storage.Get(key);
    }

    method Remove(key: Bytes) returns (status: Status, ghost io: Io)
      modifies this, storage, writer, writer.fs
      ensures (Abstract(), status) == AfterRemove(old(Abstract()), writer.config, key, io)
      ensures writer.fs.failures == old(writer.fs.failures) + Failed(io) && Explains(io, writer.fs.errno)
      ensures old(writer.IsOpen() && writer.fs.Steady()) ==> writer.fs.Steady() && io == AllOk
    {
      io := AllOk;
      var found := storage.Exists(key);
      if found.Failure? {
        return found.error, io;
      }
      if !found.value {
        status := storage.Remove(key);
        return;
      }
      var record := MakeDelRecord(nextSequenceNumber, key);
      status := Validate(record);
      if status.Error? {
        return;
      }
      status, io := writer.AppendRecord(record);
      if status.Error? {
        return;
      }
      status := storage.Remove(key);
      if status.Error? {
        return;
      }
      nextSequenceNumber := Increment(nextSequenceNumber);
    }

    method Exists(key: Bytes) returns (r: Result<bool>)
      ensures r == StoreExists(storage.values, key)
    {
      r := storage.Exists(key);
    }

    /** The log could not be opened, or its stream failed on the way. */
    ghost predicate ReadProblem(error: ErrorStatus)
    {
      error == UnavailableError("failed to open WAL file for read") || error.code == InvalidArgument
    }

    method ReadRecordsFromFile() returns (r: Result<seq<WalRecord>>, ghost io: Io)
      modifies writer.fs
      ensures writer.fs.disk == old(writer.fs.disk)
      ensures io == AllOk || (io.ReadFails? && ReadProblem(io.error))
      ensures writer.fs.failures == old(writer.fs.failures) + Failed(io)
      ensures r == if io.ReadFails? then Failure(io.error) else ReadLog(writer.fs.disk.bytes)
      ensures old(writer.fs.Steady()) ==> writer.fs.Steady()
      ensures old(writer.fs.Quiet()) ==> writer.fs.Quiet() && io == AllOk
    {
      var isOpen, input, bad := writer.fs.Read();
      hide ReadLog, Ascii;
      if !isOpen {
        var error := UnavailableError("failed to open WAL file for read");
        return Failure(error), ReadFails(error);
      }
      RefusedRead(input);
      r := ReadRecords(input, bad);
      io := if bad then ReadFails(r.error) else AllOk;
    }

    method Recover() returns (status: Status, ghost io: Io)
      modifies this, storage, writer, writer.fs
      ensures (Abstract(), status) == AfterRecover(old(Abstract()), writer.config, io)
      ensures io.ReadFails? ==> ReadProblem(io.error)
      ensures writer.fs.failures == old(writer.fs.failures) + Failed(io) && Explains(io, writer.fs.errno)
      ensures old(writer.fs.Steady()) ==> writer.fs.Steady()
      ensures old(writer.fs.Quiet()) ==> writer.fs.Quiet() && io == AllOk
    {
      io := AllOk;
      if writer.config.path == [] {
        return InvalidArgumentError("WAL file path must not be empty"), io;
      }
      var problem := writer.fs.Inspect();
      if problem.Some? {
        return PathError(problem.value), PathFails(problem.value);
      }
      if !writer.fs.disk.created {
        nextSequenceNumber := 1;
        status, io := writer.Open();
        return;
      }
      var records;
      records, io := ReadRecordsFromFile();
      if records.Failure? {
        return records.error, io;
      }
      status := ReplayRecords(records.value, storage);
      if status.Error? {
        return;
      }
      nextSequenceNumber := ComputeNextSequenceNumber(records.value);
      status, io := writer.Open();
    }
  }
}
