/**
 The append-only log writer over an explicit operating system
 (src/wal/wal_file_writer.cpp).

 The system is a file with a durable prefix and a script of outcomes, one for
 each system call: complete, short, interrupted or failed. An exhausted script
 answers with success, so a finite script bounds the retry loops. `Io` sums up
 what the script did to one writer operation; the functions give the effect of
 an operation for each `Io`, and the methods report which one happened.
 */
module WalWriter {
  import opened ByteStrings
  import opened Core
  import opened WalRecords
  import opened WalCodec

  datatype SyncPolicy = NoSync | FsyncOnFlush | FsyncEveryWrite

  datatype Config = Config(path: Bytes, policy: SyncPolicy)

  /** A file: what was written to it, and how much of that survives a power failure. */
  datatype Disk = Disk(created: bool, bytes: Bytes, synced: nat)

  datatype Writer = Writer(disk: Disk, open: bool, closed: bool)

  /** What recovery may find out about the path of the log before it reads the file. */
  datatype PathProblem =
    | ParentMissing
    | ParentUninspectable
    | ParentNoDirectory
    | ParentTypeUninspectable
    | FileUninspectable

  /** What the system did to one operation. A failure the operation never meets counts as `AllOk`. */
  datatype Io =
    | AllOk
    | PathFails(problem: PathProblem)
    | ReadFails(error: ErrorStatus)
    | OpenFails(text: Bytes)
    | WriteFails(written: nat, noProgress: bool, text: Bytes)
    | SyncFails(text: Bytes)
    | CloseFails(text: Bytes)

  // ----- The effect of each operation -----

  function ErrnoError(prefix: string, text: Bytes): ErrorStatus
  {
    Error(Unavailable, Ascii(prefix) + Ascii(": ") + text)
  }

  function PathError(problem: PathProblem): ErrorStatus
  {
    match problem
    case ParentMissing => UnavailableError("WAL parent directory does not exists")
    case ParentUninspectable => UnavailableError("failed to inspect WAL parent directory")
    case ParentNoDirectory => UnavailableError("WAL parent path is not a directory")
    case ParentTypeUninspectable => UnavailableError("failed to inspect WAL parent directory type")
    case FileUninspectable => UnavailableError("failed to inspect WAL file")
  }

  const CLOSED: ErrorStatus := UnavailableError("WAL file writer is closed")

  function WriteError(io: Io): ErrorStatus
    requires io.WriteFails?
  {
    ErrnoError(if io.noProgress then "failed to make WAL write progress" else "failed to write WAL record", io.text)
  }

  ghost function Opened(w: Writer, config: Config, io: Io): (Writer, Status)
  {
    if config.path == [] then (w, InvalidArgumentError("WAL file path must not be empty"))
    else if w.closed then (w, CLOSED)
    else if w.open then (w, Ok)
    else if io.OpenFails? then (w, ErrnoError("failed to open WAL file for append", io.text))
    else (w.(open := true, disk := w.disk.(created := true)), Ok)
  }

  /** All of `data`, or the part that got through before the failure. */
  ghost function Reached(data: Bytes, io: Io): (part: Bytes)
    ensures part <= data
  {
    if io.WriteFails? && io.written < |data| then data[..io.written] else data
  }

  ghost function Written(disk: Disk, data: Bytes, io: Io): (Disk, Status)
  {
    (disk.(bytes := disk.bytes + Reached(data, io)),
     if io.WriteFails? && io.written < |data| then WriteError(io) else Ok)
  }

  ghost function Synced(disk: Disk, io: Io): (Disk, Status)
  {
    if io.SyncFails? then (disk, ErrnoError("failed to fsync WAL file", io.text))
    else (disk.(synced := |disk.bytes|), Ok)
  }

  ghost function Appended(w: Writer, config: Config, record: WalRecord, io: Io): (Writer, Status)
  {
    if w.closed then (w, CLOSED)
    else if !Valid(record) then (w, Validate(record)) else
    var ready := Opened(w, config, io);
    if ready.1.Error? then ready else
    var written := Written(ready.0.disk, Encoded(record), io);
    if written.1.Error? || config.policy != FsyncEveryWrite then (ready.0.(disk := written.0), written.1) else
    var synced := Synced(written.0, io);
    (ready.0.(disk := synced.0), synced.1)
  }

  ghost function Flushed(w: Writer, config: Config, io: Io): (Writer, Status)
  {
    if w.closed then (w, CLOSED) else
    var ready := Opened(w, config, io);
    if ready.1.Error? || config.policy == NoSync then ready else
    var synced := Synced(ready.0.disk, io);
    (ready.0.(disk := synced.0), synced.1)
  }

  ghost function Closed(w: Writer, config: Config, io: Io): (Writer, Status)
  {
    if w.closed then (w, Ok)
    else if !w.open then (w.(closed := true), Ok) else
    var flushed := Flushed(w, config, io);
    if flushed.1.Error? then flushed
    else if io.CloseFails? then (flushed.0, ErrnoError("failed to close WAL file", io.text))
    else (flushed.0.(open := false, closed := true), Ok)
  }

  // ----- The operating system -----

  datatype Errno = Interrupted | Other(text: Bytes)

  datatype SysOutcome = Completes | Short(count: nat) | Fails(errno: Errno)

  function StrError(errno: Errno): Bytes
  {
    match errno
    case Interrupted => Ascii("Interrupted system call")
    case Other(text) => text
  }

  class FileSystem {
    var disk: Disk
    var script: seq<SysOutcome>
    var errno: Errno
    ghost var descriptors: nat // open for appending
    ghost var failures: nat // calls that failed for good so far
    ghost var stalled: bool // the last write took nothing

    constructor (disk: Disk, script: seq<SysOutcome>)
      ensures this.disk == disk && this.script == script && descriptors == failures == 0
    {
      this.disk, this.script, this.errno, this.descriptors := disk, script, Interrupted, 0;
      this.failures, this.stalled := 0, false;
    }

    /** No call fails for good: writes make progress and interruptions pass. */
    ghost predicate Steady()
      reads this
    {
      forall i :: 0 <= i < |script| ==>
        script[i].Completes? || (script[i].Short? && script[i].count > 0) || script[i] == Fails(Interrupted)
    }

    /** No call fails at all. */
    ghost predicate Quiet()
      reads this
    {
      forall i :: 0 <= i < |script| ==> script[i].Completes? || (script[i].Short? && script[i].count > 0)
    }

    method NextOutcome() returns (outcome: SysOutcome)
      modifies this`script, this`errno
      ensures script == if old(script) == [] then [] else old(script)[1..]
      ensures outcome == if old(script) == [] then Completes else old(script)[0]
      ensures errno == if outcome.Fails? then outcome.errno else old(errno)
      ensures old(Steady()) ==> Steady()
      ensures old(Quiet()) ==> Quiet() && !outcome.Fails?
    {
      if script == [] {
        return Completes;
      }
      outcome := script[0];
      script := script[1..];
      if outcome.Fails? {
        errno := outcome.errno;
      }
    }

    /** write(2): the number of bytes taken, or -1. */
    method Write(data: Bytes) returns (count: int)
      requires data != []
      modifies this`disk, this`script, this`errno, this`failures, this`stalled
      ensures stalled == (count == 0)
      ensures failures == old(failures) + if count == 0 || (count < 0 && errno != Interrupted) then 1 else 0
      ensures |script| < |old(script)| || (old(script) == script == [] && count == |data|)
      ensures -1 <= count <= |data|
      ensures disk == old(disk).(bytes := old(disk.bytes) + if count < 0 then [] else data[..count])
      ensures old(Steady()) ==> Steady() && count != 0 && (count < 0 ==> errno == Interrupted)
    {
      ghost var before := disk.bytes;
      var outcome := NextOutcome();
      match outcome {
        case Fails(_) =>
          count := -1;
          assert before + [] == before;
        case Short(n) =>
          count := if n < |data| then n else |data|;
          disk := disk.(bytes := disk.bytes + data[..count]);
        case Completes =>
          count := |data|;
          disk := disk.(bytes := disk.bytes + data);
          assert data[..count] == data;
      }
      stalled := count == 0;
      failures := failures + if count == 0 || (count < 0 && errno != Interrupted) then 1 else 0;
    }

    /** fsync(2). */
    method Fsync() returns (code: int)
      modifies this`disk, this`script, this`errno, this`failures
      ensures failures == old(failures) + if code != 0 && errno != Interrupted then 1 else 0
      ensures |script| < |old(script)| || (old(script) == script == [] && code == 0)
      ensures code == 0 || code == -1
      ensures disk == if code == 0 then old(disk).(synced := |old(disk.bytes)|) else old(disk)
      ensures old(Steady()) ==> Steady() && (code != 0 ==> errno == Interrupted)
    {
      var outcome := NextOutcome();
      if outcome.Fails? {
        failures := failures + if errno != Interrupted then 1 else 0;
        return -1;
      }
      disk := disk.(synced := |disk.bytes|);
      return 0;
    }

    /** open(2) for appending, creating the file. */
    method Open() returns (descriptor: int)
      modifies this
      ensures descriptor == -1 || descriptor == 3
      ensures disk == if descriptor == -1 then old(disk) else old(disk).(created := true)
      ensures descriptors == if descriptor == -1 then old(descriptors) else old(descriptors) + 1
      ensures failures == old(failures) + if descriptor == -1 then 1 else 0
      ensures old(Steady()) ==> Steady()
      ensures old(Quiet()) ==> Quiet() && descriptor != -1
    {
      var outcome := NextOutcome();
      if outcome.Fails? {
        failures := failures + 1;
        return -1;
      }
      disk, descriptors := disk.(created := true), descriptors + 1;
      return 3;
    }

    /** The queries about the log's parent directory and the log itself. */
    method Inspect() returns (problem: Option<PathProblem>)
      modifies this`script, this`errno, this`failures
      ensures failures == old(failures) + if problem.Some? then 1 else 0
      ensures old(Steady()) ==> Steady()
      ensures old(Quiet()) ==> Quiet() && problem.None?
    {
      var outcome := NextOutcome();
      if outcome.Fails? {
        failures := failures + 1;
        var found: PathProblem := *;
        return Some(found);
      }
      return None;
    }

    /**
     Opens the file for reading and reads it to the end. A stream that goes bad has delivered
     some part of the file.
     */
    method Read() returns (isOpen: bool, input: Bytes, bad: bool)
      modifies this`script, this`errno, this`failures
      ensures failures == old(failures) + if !isOpen || bad then 1 else 0
      ensures isOpen && !bad ==> input == disk.bytes
      ensures old(Steady()) ==> Steady()
      ensures old(Quiet()) ==> Quiet() && isOpen && !bad
    {
      input := disk.bytes;
      var outcome := NextOutcome();
      if outcome.Fails? {
        failures := failures + 1;
        return false, input, false;
      }
      outcome := NextOutcome();
      if outcome.Fails? {
        failures := failures + 1;
        var delivered :| 0 <= delivered <= |disk.bytes|;
        return true, disk.bytes[..delivered], true;
      }
      return true, input, false;
    }

    /** close(2). */
    method Close() returns (code: int)
      modifies this`script, this`errno, this`descriptors, this`failures
      ensures failures == old(failures) + if code != 0 && errno != Interrupted then 1 else 0
      ensures |script| < |old(script)| || (old(script) == script == [] && code == 0)
      ensures code == 0 || code == -1
      ensures descriptors == if code == 0 && old(descriptors) > 0 then old(descriptors) - 1 else old(descriptors)
      ensures old(Steady()) ==> Steady() && (code != 0 ==> errno == Interrupted)
    {
      var outcome := NextOutcome();
      if outcome.Fails? {
        failures := failures + if errno != Interrupted then 1 else 0;
        return -1;
      }
      descriptors := if descriptors > 0 then descriptors - 1 else 0;
      return 0;
    }
  }

  /** How many failures an operation met: it gives up at the first. */
  ghost function Failed(io: Io): nat
  {
    if io.AllOk? then 0 else 1
  }

  /** The text it reports is that of the error number. */
  ghost predicate Explains(io: Io, errno: Errno)
  {
    io.OpenFails? || io.WriteFails? || io.SyncFails? || io.CloseFails? ==> io.text == StrError(errno)
  }

  // ----- The program's loops -----

  method WriteAll(fs: FileSystem, data: Bytes) returns (status: Status, ghost io: Io)
    modifies fs`disk, fs`script, fs`errno, fs`failures, fs`stalled
    ensures fs.failures == old(fs.failures) + Failed(io) && Explains(io, fs.errno)
    ensures io.WriteFails? ==> io.noProgress == fs.stalled
    ensures (fs.disk, status) == Written(old(fs.disk), data, io)
    ensures io.AllOk? <==> status.Ok?
    ensures io.AllOk? || (io.WriteFails? && io.written < |data|)
    ensures old(fs.Steady()) ==> fs.Steady() && io == AllOk
  {
    var remaining := data;
    ghost var before, taken := fs.disk.bytes, 0;
    assert before + data[..0] == before;
    while remaining != []
      invariant taken <= |data| && remaining == data[taken..]
      invariant fs.disk == old(fs.disk).(bytes := before + data[..taken])
      invariant old(fs.Steady()) ==> fs.Steady()
      invariant fs.failures == old(fs.failures)
      decreases |fs.script|, |remaining|
    {
      var written := fs.Write(remaining);
      if written < 0 {
        assert before + data[..taken] + [] == before + data[..taken];
        if fs.errno == Interrupted {
          continue;
        }
        var text := StrError(fs.errno);
        io := WriteFails(taken, false, text);
        return ErrnoError("failed to write WAL record", text), io;
      }
      if written == 0 {
        assert remaining[..0] == [];
        assert before + data[..taken] + [] == before + data[..taken];
        var text := StrError(fs.errno);
        io := WriteFails(taken, true, text);
        return ErrnoError("failed to make WAL write progress", text), io;
      }
      AppendSlices(before, data, taken, written);
      remaining := remaining[written..];
      taken := taken + written;
    }
    assert data[..taken] == data;
    return Ok, AllOk;
  }

  lemma AppendSlices(before: Bytes, data: Bytes, i: nat, n: nat)
    requires i + n <= |data|
    ensures before + data[..i] + data[i..][..n] == before + data[..i + n]
    ensures data[i..][n..] == data[i + n..]
  {
    ConcatAssoc(before, data[..i], data[i..][..n]);
    assert data[..i] + data[i..][..n] == data[..i + n];
  }

  const INVALID_DESCRIPTOR := -1

  class WalFileWriter {
    const fs: FileSystem
    const config: Config
    var fileDescriptor: int
    var isClosed: bool

    constructor (fs: FileSystem, config: Config)
      ensures this.fs == fs && this.config == config
      ensures State() == Writer(fs.disk, false, false) && (fs.descriptors == 0 ==> Holds())
    {
      this.fs, this.config := fs, config;
      fileDescriptor, isClosed := INVALID_DESCRIPTOR, false;
    }

    ghost function State(): Writer
      reads this, fs
    {
      Writer(fs.disk, fileDescriptor != INVALID_DESCRIPTOR, isClosed)
    }

    predicate IsOpen()
      reads this
    {
      fileDescriptor != INVALID_DESCRIPTOR
    }

    /** It holds one descriptor of the system while it is open, and none otherwise. */
    ghost predicate Holds()
      reads this, fs
    {
      fs.descriptors == if IsOpen() then 1 else 0
    }

    method SyncFile() returns (status: Status, ghost io: Io)
      modifies fs`disk, fs`script, fs`errno, fs`failures
      ensures fs.failures == old(fs.failures) + Failed(io) && Explains(io, fs.errno)
      ensures !IsOpen() ==> fs.disk == old(fs.disk) && status == UnavailableError("WAL file writer is not open")
      ensures IsOpen() ==> (fs.disk, status) == Synced(old(fs.disk), io) && (io.AllOk? <==> status.Ok?)
      ensures io.AllOk? || io.SyncFails?
      ensures old(fs.Steady()) ==> fs.Steady() && io == AllOk
    {
      if !IsOpen() {
        return UnavailableError("WAL file writer is not open"), AllOk;
      }
      var code := fs.Fsync();
      while code != 0
        invariant code == 0 || code == -1
        invariant fs.failures == old(fs.failures) + if code != 0 && fs.errno != Interrupted then 1 else 0
        invariant fs.disk == if code == 0 then old(fs.disk).(synced := |old(fs.disk.bytes)|) else old(fs.disk)
        invariant old(fs.Steady()) ==> fs.Steady() && (code != 0 ==> fs.errno == Interrupted)
        decreases |fs.script|, code != 0
      {
        if fs.errno != Interrupted {
          var text := StrError(fs.errno);
          io := SyncFails(text);
          return ErrnoError("failed to fsync WAL file", text), io;
        }
        code := fs.Fsync();
      }
      return Ok, AllOk;
    }

    method Open() returns (status: Status, ghost io: Io)
      modifies this, fs
      ensures (State(), status) == Opened(old(State()), config, io)
      ensures old(Holds()) ==> Holds()
      ensures fs.failures == old(fs.failures) + Failed(io) && Explains(io, fs.errno)
      ensures io.AllOk? || io.OpenFails?
      ensures old(IsOpen() || fs.Quiet()) ==> io == AllOk
      ensures old(fs.Steady()) ==> fs.Steady()
      ensures old(fs.Quiet()) ==> fs.Quiet()
    {
      io := AllOk;
      if config.path == [] {
        return InvalidArgumentError("WAL file path must not be empty"), io;
      }
      if isClosed {
        return CLOSED, io;
      }
      if IsOpen() {
        return Ok, io;
      }
      fileDescriptor := fs.Open();
      if fileDescriptor == INVALID_DESCRIPTOR {
        var text := StrError(fs.errno);
        io := OpenFails(text);
        return ErrnoError("failed to open WAL file for append", text), io;
      }
      return Ok, io;
    }

    method AppendRecord(record: WalRecord) returns (status: Status, ghost io: Io)
      modifies this, fs
      ensures (State(), status) == Appended(old(State()), config, record, io)
      ensures old(Holds()) ==> Holds()
      ensures fs.failures == old(fs.failures) + Failed(io) && Explains(io, fs.errno)
      ensures old(IsOpen() && fs.Steady()) ==> fs.Steady() && io == AllOk
    {
      if isClosed {
        return CLOSED, AllOk;
      }
      var serialized := Serialize(record);
      if serialized.Failure? {
        return serialized.error, AllOk;
      }
      status, io := Open();
      if status.Error? {
        return;
      }
      status, io := WriteAll(fs, serialized.value);
      if status.Error? {
        return;
      }
      if config.policy == FsyncEveryWrite {
        status, io := SyncFile();
      }
    }

    method Flush() returns (status: Status, ghost io: Io)
      modifies this, fs
      ensures (State(), status) == Flushed(old(State()), config, io)
      ensures old(Holds()) ==> Holds()
      ensures fs.failures == old(fs.failures) + Failed(io) && Explains(io, fs.errno)
      ensures old(IsOpen() && fs.Steady()) ==> fs.Steady() && io == AllOk
      ensures status.Ok? ==> io == AllOk
    {
      io := AllOk;
      if isClosed {
        return CLOSED, io;
      }
      status, io := Open();
      if status.Error? {
        return;
      }
      if config.policy == NoSync {
        return Ok, AllOk;
      }
      status, io := SyncFile();
    }

    method Close() returns (status: Status, ghost io: Io)
      modifies this, fs
      ensures (State(), status) == Closed(old(State()), config, io)
      ensures old(Holds()) ==> Holds()
      ensures fs.failures == old(fs.failures) + Failed(io) && Explains(io, fs.errno)
      ensures old(IsOpen() && fs.Steady()) ==> io == AllOk
    {
      io := AllOk;
      if isClosed {
        return Ok, io;
      }
      if IsOpen() {
        status, io := Flush();
        if status.Error? {
          return;
        }
        var code := fs.Close();
        while code != 0
          invariant code == 0 || code == -1
          invariant old(fs.Steady() && IsOpen()) ==> fs.Steady() && (code != 0 ==> fs.errno == Interrupted)
          invariant fs.disk == Flushed(old(State()), config, AllOk).0.disk
          invariant IsOpen() && !isClosed
          invariant fs.failures == old(fs.failures) + if code != 0 && fs.errno != Interrupted then 1 else 0
          invariant old(Holds()) ==> fs.descriptors == if code == 0 then 0 else 1
          decreases |fs.script|, code != 0
        {
          if fs.errno != Interrupted {
            var text := StrError(fs.errno);
            io := CloseFails(text);
            return ErrnoError("failed to close WAL file", text), io;
          }
          code := fs.Close();
        }
        fileDescriptor := INVALID_DESCRIPTOR;
      }
      isClosed := true;
      return Ok, AllOk;
    }
  }
}
