/** What every run of the log writer keeps, whatever the system does to it. */
module WalWriterRuns {
  import opened ByteStrings
  import opened Core
  import opened WalRecords
  import opened WalCodec
  import opened WalWriter

  datatype Op = Open | Append(record: WalRecord) | Flush | Close

  datatype Step = Step(op: Op, io: Io)

  ghost function Stepped(w: Writer, config: Config, step: Step): (Writer, Status)
  {
    match step.op
    case Open => Opened(w, config, step.io)
    case Append(record) => Appended(w, config, record, step.io)
    case Flush => Flushed(w, config, step.io)
    case Close => Closed(w, config, step.io)
  }

  ghost function Ran(w: Writer, config: Config, steps: seq<Step>): Writer
    decreases |steps|
  {
    if steps == [] then w else Ran(Stepped(w, config, steps[0]).0, config, steps[1..])
  }

  /** The bytes an operation may add to the file. */
  ghost function Payload(op: Op): Bytes
  {
    if op.Append? then Encoded(op.record) else []
  }

  /** Acknowledged operations that promise a durable file. */
  ghost predicate PromisesSync(w: Writer, config: Config, op: Op)
  {
    match op
    case Open => false
    case Append(_) => config.policy == FsyncEveryWrite
    case Flush => config.policy != NoSync
    case Close => config.policy != NoSync && w.open && !w.closed
  }

  lemma AppendBytes(w: Writer, config: Config, record: WalRecord, io: Io)
    ensures
      var (after, status) := Appended(w, config, record, io);
      && w.disk.bytes <= after.disk.bytes <= w.disk.bytes + Encoded(record)
      && (status.Ok? ==> after.disk.bytes == w.disk.bytes + Encoded(record))
      && (w.disk.synced <= |w.disk.bytes| ==> w.disk.synced <= after.disk.synced <= |after.disk.bytes|)
  {
    AppendPart(w, config, record, io);
    GrowsByPart(w.disk.bytes, Reached(Encoded(record), io), Encoded(record));
    hide Encoded, Appended, Reached;
  }

  /** An append adds nothing, or what got through of its record. */
  lemma AppendPart(w: Writer, config: Config, record: WalRecord, io: Io)
    ensures
      var (after, status) := Appended(w, config, record, io);
      var data := Encoded(record);
      && (after.disk.bytes == w.disk.bytes || after.disk.bytes == w.disk.bytes + Reached(data, io))
      && (status.Ok? ==> after.disk.bytes == w.disk.bytes + data)
      && (after.disk.synced == w.disk.synced || after.disk.synced == |after.disk.bytes|)
  {
    hide Encoded, Validate, Ascii;
  }

  lemma GrowsByPart(before: Bytes, part: Bytes, data: Bytes)
    requires part <= data
    ensures before <= before + part <= before + data
  {
  }

  /** The file only grows: by the whole record when the append is acknowledged, by a part of it when it fails. */
  lemma {:induction false} StepBytes(w: Writer, config: Config, step: Step)
    ensures
      var (after, status) := Stepped(w, config, step);
      && w.disk.bytes <= after.disk.bytes <= w.disk.bytes + Payload(step.op)
      && (status.Ok? ==> after.disk.bytes == w.disk.bytes + Payload(step.op))
      && (w.disk.synced <= |w.disk.bytes| ==> w.disk.synced <= after.disk.synced <= |after.disk.bytes|)
  {
    assert w.disk.bytes + [] == w.disk.bytes;
    if step.op.Append? {
      hide Encoded, Appended;
      AppendBytes(w, config, step.op.record, step.io);
    }
  }

  /** Acknowledged means durable, where the policy promises it. */
  lemma {:induction false} StepSync(w: Writer, config: Config, step: Step)
    requires Stepped(w, config, step).1.Ok? && PromisesSync(w, config, step.op)
    ensures Stepped(w, config, step).0.disk.synced == |Stepped(w, config, step).0.disk.bytes|
  {
    hide Encoded, Validate;
  }

  /** When the system does its part, an operation on an unclosed writer fails only on an invalid record. */
  lemma {:induction false} StepSucceeds(w: Writer, config: Config, step: Step)
    requires step.io == AllOk && config.path != [] && !w.closed
    ensures Stepped(w, config, step).1.Ok? <==> (step.op.Append? ==> Valid(step.op.record))
  {
    hide Encoded;
  }

  /** Closed is absorbing: nothing changes any more, and only closing again is acknowledged. */
  lemma {:induction false} ClosedIsAbsorbing(w: Writer, config: Config, steps: seq<Step>)
    requires w.closed
    ensures Ran(w, config, steps) == w
    ensures forall i :: 0 <= i < |steps| ==> (Stepped(w, config, steps[i]).1.Ok? <==> steps[i].op.Close?)
  {
    hide Encoded, Validate;
    if steps != [] {
      ClosedIsAbsorbing(w, config, steps[1..]);
      assert forall i :: 1 <= i < |steps| ==> steps[i] == steps[1..][i - 1];
    }
  }

  /** Over any run the file grows by appending and what is durable stays durable. */
  lemma {:induction false} RunGrows(w: Writer, config: Config, steps: seq<Step>)
    requires w.disk.synced <= |w.disk.bytes|
    ensures
      var end := Ran(w, config, steps).disk;
      w.disk.bytes <= end.bytes && w.disk.synced <= end.synced <= |end.bytes|
    decreases |steps|
  {
    if steps != [] {
      hide Stepped;
      StepBytes(w, config, steps[0]);
      RunGrows(Stepped(w, config, steps[0]).0, config, steps[1..]);
    }
  }

  /**
   A close that is acknowledged closes: over any later run every other operation fails, and the file does not change.
   */
  lemma {:induction false} CloseIsFinal(w: Writer, config: Config, io: Io, later: seq<Step>)
    requires Stepped(w, config, Step(Close, io)).1.Ok?
    ensures
      var closed := Stepped(w, config, Step(Close, io)).0;
      && Ran(closed, config, later).disk == closed.disk
      && forall i :: 0 <= i < |later| ==> (Trace(closed, config, later)[i].1.Ok? <==> later[i].op.Close?)
  {
    var closed := Stepped(w, config, Step(Close, io)).0;
    assert closed.closed;
    ClosedIsAbsorbing(closed, config, later);
    ClosedTrace(closed, config, later);
    hide Stepped, Ran, Trace;
  }

  lemma {:induction false} ClosedTrace(w: Writer, config: Config, steps: seq<Step>)
    requires w.closed
    ensures forall i :: 0 <= i < |steps| ==> (Trace(w, config, steps)[i].1.Ok? <==> steps[i].op.Close?)
    decreases |steps|
  {
    if steps != [] {
      ClosedStep(w, config, steps[0]);
      TraceHead(w, config, steps);
      TraceStatus(w, config, steps);
      hide Stepped, Trace, Accounts;
      ClosedTrace(w, config, steps[1..]);
      forall i | 0 < i < |steps| ensures Trace(w, config, steps)[i].1.Ok? <==> steps[i].op.Close? {
        assert Trace(w, config, steps)[i] == Trace(w, config, steps)[1..][i - 1];
        assert steps[i] == steps[1..][i - 1];
      }
    }
  }

  lemma ClosedStep(w: Writer, config: Config, step: Step)
    requires w.closed
    ensures Stepped(w, config, step).0 == w
    ensures Stepped(w, config, step).1.Ok? <==> step.op.Close?
  {
    hide Encoded, Validate;
  }

  lemma {:induction false} TraceStatus(w: Writer, config: Config, steps: seq<Step>)
    requires steps != []
    ensures Trace(w, config, steps)[0].1 == Stepped(w, config, steps[0]).1
  {
    StepBytes(w, config, steps[0]);
    hide Stepped;
  }

  /**
   A close is refused exactly if the file is open and its last sync or close(2) fails; the writer then stays open, and
   appends are acknowledged again as soon as the system does its part.
   */
  lemma {:induction false} CloseRefused(w: Writer, config: Config, io: Io, record: WalRecord)
    requires config.path != [] && Valid(record)
    ensures
      var (after, status) := Stepped(w, config, Step(Close, io));
      && (status.Error? <==>
            w.open && !w.closed && (io.CloseFails? || (io.SyncFails? && config.policy != NoSync)))
      && (status.Error? ==>
            && after.open && after.disk.bytes == w.disk.bytes
            && Stepped(after, config, Step(Append(record), AllOk)).1.Ok?)
  {
    hide Encoded, Validate;
  }

  /** No operation syncs unless the policy asks for it: never under NoSync, and no append under FsyncOnFlush. */
  lemma {:induction false} SyncsOnlyAsAsked(w: Writer, config: Config, step: Step)
    requires config.policy == NoSync || (config.policy == FsyncOnFlush && (step.op.Append? || step.op.Open?))
    ensures Stepped(w, config, step).0.disk.synced == w.disk.synced
  {
    hide Encoded, Validate;
  }

  /** What an operation is refused for: a closed writer, an invalid record, or the failure of a call it makes. */
  lemma {:induction false} StepSucceedsExactly(w: Writer, config: Config, step: Step)
    requires config.path != []
    ensures Stepped(w, config, step).1.Ok? <==>
      var opens := w.open || !step.io.OpenFails?;
      match step.op
      case Open => !w.closed && opens
      case Append(record) =>
        && !w.closed && Valid(record) && opens
        && !(step.io.WriteFails? && step.io.written < |Encoded(record)|)
        && !(step.io.SyncFails? && config.policy == FsyncEveryWrite)
      case Flush => !w.closed && opens && !(step.io.SyncFails? && config.policy != NoSync)
      case Close =>
        w.closed || !w.open || (!step.io.CloseFails? && !(step.io.SyncFails? && config.policy != NoSync))
  {
    hide Encoded, Validate;
  }

  /** The refusal that opening meets first, if any. */
  ghost function OpenRefusal(w: Writer, config: Config, io: Io): Status
  {
    if config.path == [] then Error(InvalidArgument, Ascii("WAL file path must not be empty"))
    else if w.closed then Error(Unavailable, Ascii("WAL file writer is closed"))
    else if !w.open && io.OpenFails? then
      Error(Unavailable, Ascii("failed to open WAL file for append") + Ascii(": ") + io.text)
    else Ok
  }

  ghost function SyncRefusal(asked: bool, io: Io): Status
  {
    if asked && io.SyncFails? then Error(Unavailable, Ascii("failed to fsync WAL file") + Ascii(": ") + io.text) else Ok
  }

  ghost function FirstRefusal(first: Status, second: Status): Status
  {
    if first.Error? then first else second
  }

  /** With which error an operation is refused: the first that applies, in the order of its steps. */
  lemma {:induction false} StepRefusal(w: Writer, config: Config, step: Step)
    ensures
      var io, status := step.io, Stepped(w, config, step).1;
      var closed := if w.closed then Error(Unavailable, Ascii("WAL file writer is closed")) else Ok;
      match step.op
      case Open => status == OpenRefusal(w, config, io)
      case Append(record) =>
        var size := |Encoded(record)|;
        var cut := if !io.WriteFails? || io.written >= size then Ok else Error(Unavailable,
          Ascii(if io.noProgress then "failed to make WAL write progress" else "failed to write WAL record")
            + Ascii(": ") + io.text);
        status == FirstRefusal(closed, FirstRefusal(Validate(record), FirstRefusal(OpenRefusal(w, config, io),
          FirstRefusal(cut, SyncRefusal(config.policy == FsyncEveryWrite, io)))))
      case Flush =>
        status == FirstRefusal(closed,
          FirstRefusal(OpenRefusal(w, config, io), SyncRefusal(config.policy != NoSync, io)))
      case Close =>
        var last := if !io.CloseFails? then Ok
          else Error(Unavailable, Ascii("failed to close WAL file") + Ascii(": ") + io.text);
        status == if w.closed || !w.open then Ok
          else FirstRefusal(OpenRefusal(w, config, io),
            FirstRefusal(SyncRefusal(config.policy != NoSync, io), last))
  {
    hide Encoded, Validate, Ascii;
  }

  lemma StaysInPlace(before: Bytes, piece: Bytes, after: Bytes)
    requires before + piece <= after
    ensures after[|before|..|before| + |piece|] == piece
  {
    assert (before + piece)[|before|..] == piece;
    assert after[..|before| + |piece|] == before + piece;
  }

  /**
   An acknowledged record stays in the file, whole and at the place where it was written, through
   whatever follows; under FsyncEveryWrite it is durable from then on.
   */
  lemma {:induction false} AcknowledgedRecordStays(w: Writer, config: Config, step: Step, later: seq<Step>)
    requires w.disk.synced <= |w.disk.bytes|
    requires step.op.Append? && Stepped(w, config, step).1.Ok?
    ensures
      var end := Ran(w, config, [step] + later).disk;
      var from, to := |w.disk.bytes|, |w.disk.bytes| + |Encoded(step.op.record)|;
      && to <= |end.bytes|
      && end.bytes[from..to] == Encoded(step.op.record)
      && (config.policy == FsyncEveryWrite ==> to <= end.synced)
  {
    var next := Stepped(w, config, step).0;
    StepBytes(w, config, step);
    if config.policy == FsyncEveryWrite {
      StepSync(w, config, step);
    }
    hide Stepped, Encoded;
    RunGrows(next, config, later);
    assert ([step] + later)[1..] == later;
    var end := Ran(next, config, later).disk;
    hide Ran;
    StaysInPlace(w.disk.bytes, Encoded(step.op.record), end.bytes);
  }

  /** What a run adds to the file and answers, operation by operation. */
  ghost function Trace(w: Writer, config: Config, steps: seq<Step>): (trace: seq<(Bytes, Status)>)
    ensures |trace| == |steps|
    decreases |steps|
  {
    if steps == [] then [] else
    var (after, status) := Stepped(w, config, steps[0]);
    (StepBytes(w, config, steps[0]);
     [(after.disk.bytes[|w.disk.bytes|..], status)] + Trace(after, config, steps[1..]))
  }

  ghost function Pieces(trace: seq<(Bytes, Status)>): seq<Bytes>
  {
    seq(|trace|, i requires 0 <= i < |trace| => trace[i].0)
  }

  /** Every operation adds its whole payload if it is acknowledged and a part of it if not. */
  lemma {:induction false} TraceAccounts(w: Writer, config: Config, steps: seq<Step>)
    ensures forall i :: 0 <= i < |steps| ==> Accounts(Trace(w, config, steps)[i], steps[i].op)
    decreases |steps|
  {
    if steps != [] {
      StepBytes(w, config, steps[0]);
      TraceHead(w, config, steps);
      hide Stepped, Payload, Trace, Accounts;
      var rest := Stepped(w, config, steps[0]).0;
      TraceAccounts(rest, config, steps[1..]);
      forall i | 0 < i < |steps| ensures Accounts(Trace(w, config, steps)[i], steps[i].op) {
        assert Accounts(Trace(rest, config, steps[1..])[i - 1], steps[1..][i - 1].op);
      }
    }
  }

  ghost predicate Accounts(entry: (Bytes, Status), op: Op)
  {
    entry.0 <= Payload(op) && (entry.1.Ok? ==> entry.0 == Payload(op))
  }

  lemma {:induction false} TraceHead(w: Writer, config: Config, steps: seq<Step>)
    requires steps != []
    ensures Accounts(Trace(w, config, steps)[0], steps[0].op)
    ensures Trace(w, config, steps)[1..] == Trace(Stepped(w, config, steps[0]).0, config, steps[1..])
  {
    StepBytes(w, config, steps[0]);
    hide Stepped, Payload;
  }

  /** The file is what it was, then the pieces of the run in order. */
  lemma {:induction false} RunBytes(w: Writer, config: Config, steps: seq<Step>)
    ensures Ran(w, config, steps).disk.bytes == w.disk.bytes + Flat(Pieces(Trace(w, config, steps)))
    decreases |steps|
  {
    if steps == [] {
      assert w.disk.bytes + [] == w.disk.bytes;
    } else {
      hide Stepped, Trace, Flat, Pieces;
      var after := Stepped(w, config, steps[0]).0;
      RunBytes(after, config, steps[1..]);
      PiecesSplit(w, config, steps);
      var rest := Pieces(Trace(after, config, steps[1..]));
      FirstPiece(after.disk.bytes[|w.disk.bytes|..], rest);
      SplitGrowth(w.disk.bytes, after.disk.bytes, Flat(rest));
    }
  }

  /** The first piece of a run is what its first step added. */
  lemma PiecesSplit(w: Writer, config: Config, steps: seq<Step>)
    requires steps != []
    ensures
      var after := Stepped(w, config, steps[0]).0;
      && w.disk.bytes <= after.disk.bytes
      && Pieces(Trace(w, config, steps))
        == [after.disk.bytes[|w.disk.bytes|..]] + Pieces(Trace(after, config, steps[1..]))
  {
    StepBytes(w, config, steps[0]);
    hide Stepped;
  }

  lemma FirstPiece(piece: Bytes, pieces: seq<Bytes>)
    ensures Flat([piece] + pieces) == piece + Flat(pieces)
  {
    FlatConcat([piece], pieces);
    assert [piece][..0] == [];
  }

  lemma SplitGrowth(a: Bytes, b: Bytes, c: Bytes)
    requires a <= b
    ensures b + c == a + (b[|a|..] + c)
  {
    assert b == a + b[|a|..];
  }
}
