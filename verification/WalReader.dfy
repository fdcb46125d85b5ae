/** Reading a log file back: lines in file order, fail-fast (src/wal/wal_file_reader.cpp). */
module WalReader {
  import opened ByteStrings
  import opened Decimal
  import opened Core
  import opened WalRecords
  import opened WalCodec
  import opened WalCodecProofs

  // ----- The file that a list of records makes -----

  ghost predicate AllValid(log: seq<WalRecord>)
  {
    forall i :: 0 <= i < |log| ==> Valid(log[i])
  }

  ghost function LogBytes(log: seq<WalRecord>): Bytes
  {
    if log == [] then [] else Encoded(log[0]) + LogBytes(log[1..])
  }

  /** The same file with CR LF after the records that `crlf` marks. */
  ghost function LogText(log: seq<WalRecord>, crlf: seq<bool>): Bytes
    requires |log| == |crlf|
  {
    if log == [] then [] else
    RecordLine(log[0]) + (if crlf[0] then CRLF else [LF]) + LogText(log[1..], crlf[1..])
  }

  lemma {:induction false} LogBytesAppend(a: seq<WalRecord>, b: seq<WalRecord>)
    ensures LogBytes(a + b) == LogBytes(a) + LogBytes(b)
  {
    hide Encoded;
    if a == [] {
      assert a + b == b;
    } else {
      LogBytesAppend(a[1..], b);
      assert (a + b)[1..] == a[1..] + b;
      ConcatAssoc(Encoded(a[0]), LogBytes(a[1..]), LogBytes(b));
    }
  }

  lemma LogBytesSnoc(log: seq<WalRecord>, record: WalRecord)
    ensures LogBytes(log + [record]) == LogBytes(log) + Encoded(record)
  {
    LogBytesAppend(log, [record]);
    assert [record][1..] == [];
  }

  lemma {:induction false} LogBytesEndLine(log: seq<WalRecord>)
    ensures EndsLine(LogBytes(log))
  {
    if log != [] {
      LogBytesEndLine(log[1..]);
      assert LogBytes(log) == RecordLine(log[0]) + [LF] + LogBytes(log[1..]);
    }
  }

  // ----- What reading a file means -----

  function LineParseError(lineNumber: nat, error: ErrorStatus): ErrorStatus
  {
    Error(InvalidArgument,
      Ascii("failed to parse WAL record at line ") + Digits(lineNumber) + Ascii(": ") + error.message)
  }

  ghost predicate GoodLine(line: Bytes)
  {
    line != [] && Decoded(line).Success?
  }

  /** What the reader reports of a line it rejects. */
  ghost function LineError(line: Bytes, lineNumber: nat): ErrorStatus
    requires !GoodLine(line)
  {
    if line == [] then InvalidArgumentError("WAL file contains empty record line")
    else LineParseError(lineNumber, Decoded(line).error)
  }

  ghost function LineResult(line: Bytes, lineNumber: nat): (r: Result<WalRecord>)
    ensures r.Success? <==> GoodLine(line)
    ensures r.Success? ==> r == Decoded(line) && Valid(r.value)
  {
    if GoodLine(line) then Decoded(line) else Failure(LineError(line, lineNumber))
  }

  ghost function Prepend(front: seq<WalRecord>, r: Result<seq<WalRecord>>): Result<seq<WalRecord>>
  {
    match r
    case Success(rest) => Success(front + rest)
    case Failure(error) => Failure(error)
  }

  ghost function DecodedLines(lines: seq<Bytes>, lineNumber: nat): Result<seq<WalRecord>>
  {
    if lines == [] then Success([]) else
    match LineResult(lines[0], lineNumber)
    case Failure(error) => Failure(error)
    case Success(record) => Prepend([record], DecodedLines(lines[1..], lineNumber + 1))
  }

  ghost function ReadLog(file: Bytes): Result<seq<WalRecord>>
  {
    DecodedLines(Lines(file), 1)
  }

  // ----- Framing -----

  /** Index of the first line the reader rejects, or the number of lines. */
  ghost function FirstBad(lines: seq<Bytes>): (bad: nat)
    ensures bad <= |lines|
  {
    if lines == [] || !GoodLine(lines[0]) then 0 else 1 + FirstBad(lines[1..])
  }

  lemma {:induction false} FirstBadIsFirst(lines: seq<Bytes>)
    ensures forall i :: 0 <= i < FirstBad(lines) ==> GoodLine(lines[i])
    ensures FirstBad(lines) < |lines| ==> !GoodLine(lines[FirstBad(lines)])
  {
    hide GoodLine;
    if lines != [] && GoodLine(lines[0]) {
      FirstBadIsFirst(lines[1..]);
      assert forall i :: 1 <= i < |lines| ==> lines[i] == lines[1..][i - 1];
    }
  }

  ghost predicate DecodedAs(lines: seq<Bytes>, records: seq<WalRecord>)
  {
    && |records| == |lines|
    && forall i :: 0 <= i < |lines| ==> Decoded(lines[i]) == Success(records[i])
  }

  lemma {:induction false} DecodedLinesExact(lines: seq<Bytes>, lineNumber: nat)
    ensures
      var r, bad := DecodedLines(lines, lineNumber), FirstBad(lines);
      if bad == |lines| then r.Success? && DecodedAs(lines, r.value)
      else !GoodLine(lines[bad]) && r == Failure(LineError(lines[bad], lineNumber + bad))
  {
    hide Decoded;
    if lines != [] && GoodLine(lines[0]) {
      DecodedLinesExact(lines[1..], lineNumber + 1);
      var bad := FirstBad(lines[1..]);
      if bad == |lines| - 1 {
        var first, rest := LineResult(lines[0], lineNumber).value, DecodedLines(lines[1..], lineNumber + 1).value;
        assert forall i :: 1 <= i < |lines| ==> lines[i] == lines[1..][i - 1] && ([first] + rest)[i] == rest[i - 1];
      } else {
        assert lines[1..][bad] == lines[bad + 1];
      }
    }
  }

  ghost predicate AllGood(lines: seq<Bytes>)
  {
    forall i :: 0 <= i < |lines| ==> GoodLine(lines[i])
  }

  /** The read succeeds iff every line is good, and otherwise reports the first bad one and no records. */
  lemma {:induction false} ReadExact(file: Bytes)
    ensures ReadLog(file).Success? <==> AllGood(Lines(file))
    ensures ReadLog(file).Success? ==> DecodedAs(Lines(file), ReadLog(file).value)
    ensures ReadLog(file).Failure? ==>
      var bad := FirstBad(Lines(file));
      && bad < |Lines(file)| && !GoodLine(Lines(file)[bad]) && AllGood(Lines(file)[..bad])
      && ReadLog(file) == Failure(LineError(Lines(file)[bad], 1 + bad))
  {
    hide GoodLine, DecodedLines, LineError, DecodedAs;
    FirstBadIsFirst(Lines(file));
    DecodedLinesExact(Lines(file), 1);
  }

  lemma {:induction false} FirstRecordOff(record: WalRecord, carriage: Bytes, rest: Bytes, lineNumber: nat)
    requires Valid(record) && (carriage == [] || carriage == [CR])
    ensures DecodedLines(Lines(RecordLine(record) + carriage + [LF] + rest), lineNumber)
      == Prepend([record], DecodedLines(Lines(rest), lineNumber + 1))
  {
    RoundTrip(record);
    LineBytes(record);
    hide RecordLine, Decoded;
    var line := RecordLine(record) + carriage;
    assert carriage == [] ==> line == RecordLine(record);
    LinesOfLine(line, rest);
    assert ([line] + Lines(rest))[1..] == Lines(rest);
  }

  /** Reading a file of whole records and then a rest gives those records and then the rest. */
  lemma {:induction false} ReadAfterLog(log: seq<WalRecord>, rest: Bytes, lineNumber: nat)
    requires AllValid(log)
    ensures DecodedLines(Lines(LogBytes(log) + rest), lineNumber)
      == Prepend(log, DecodedLines(Lines(rest), lineNumber + |log|))
  {
    hide Lines, DecodedLines, Encoded, RecordLine, Decoded;
    if log == [] {
      assert LogBytes(log) + rest == rest;
      PrependNone(DecodedLines(Lines(rest), lineNumber));
    } else {
      hide LogBytes, Prepend;
      var first, front := log[0], log[1..];
      assert [first] + front == log;
      LogBytesCons(log, rest);
      FirstRecordOff(first, [], LogBytes(front) + rest, lineNumber);
      ReadAfterLog(front, rest, lineNumber + 1);
      PrependTwice([first], front, DecodedLines(Lines(rest), lineNumber + |log|));
    }
  }

  lemma LogBytesCons(log: seq<WalRecord>, rest: Bytes)
    requires log != []
    ensures LogBytes(log) + rest == RecordLine(log[0]) + [] + [LF] + (LogBytes(log[1..]) + rest)
  {
    hide RecordLine;
    assert RecordLine(log[0]) + [] == RecordLine(log[0]);
    ConcatAssoc(Encoded(log[0]), LogBytes(log[1..]), rest);
  }

  lemma PrependNone(r: Result<seq<WalRecord>>)
    ensures Prepend([], r) == r
  {
    if r.Success? {
      assert [] + r.value == r.value;
    }
  }

  lemma PrependTwice(a: seq<WalRecord>, b: seq<WalRecord>, r: Result<seq<WalRecord>>)
    ensures Prepend(a, Prepend(b, r)) == Prepend(a + b, r)
  {
    if r.Success? {
      ConcatAssoc(a, b, r.value);
    }
  }

  /** Whole records only: the reader returns exactly the list that was written. */
  lemma {:induction false} ReadOfLog(log: seq<WalRecord>)
    requires AllValid(log)
    ensures ReadLog(LogBytes(log)) == Success(log)
  {
    ReadAfterLog(log, [], 1);
    assert LogBytes(log) + [] == LogBytes(log);
    assert log + [] == log;
  }

  /** Whole records and an unterminated tail: the tail counts as one more line. */
  lemma {:induction false} ReadOfLogAndTail(log: seq<WalRecord>, tail: Bytes)
    requires AllValid(log) && tail != [] && FreeOf(tail, LF)
    ensures ReadLog(LogBytes(log) + tail).Success? <==> Decoded(tail).Success?
    ensures Decoded(tail).Success? ==> ReadLog(LogBytes(log) + tail) == Success(log + [Decoded(tail).value])
  {
    ReadAfterLog(log, tail, 1);
    LinesOfTail(tail);
    hide Decoded, Lines;
    assert [tail][1..] == [];
    assert forall r: WalRecord :: [r] + [] == [r];
  }

  /** Records framed by LF or CR LF, in any mixture, are read back in order. */
  lemma {:induction false} ReadOfText(log: seq<WalRecord>, crlf: seq<bool>, lineNumber: nat)
    requires AllValid(log) && |log| == |crlf|
    ensures DecodedLines(Lines(LogText(log, crlf)), lineNumber) == Success(log)
  {
    if log != [] {
      hide LogText, Lines, DecodedLines, Encoded, RecordLine, Decoded, Prepend;
      var first, front, rest := log[0], log[1..], LogText(log[1..], crlf[1..]);
      var carriage: Bytes := if crlf[0] then [CR] else [];
      assert [first] + front == log;
      LogTextCons(log, crlf, carriage);
      FirstRecordOff(first, carriage, rest, lineNumber);
      ReadOfText(front, crlf[1..], lineNumber + 1);
      PrependOne(first, front);
    }
  }

  lemma PrependOne(first: WalRecord, front: seq<WalRecord>)
    ensures Prepend([first], Success(front)) == Success([first] + front)
  {
  }

  lemma LogTextCons(log: seq<WalRecord>, crlf: seq<bool>, carriage: Bytes)
    requires |log| == |crlf| && log != []
    requires carriage == if crlf[0] then [CR] else []
    ensures LogText(log, crlf) == RecordLine(log[0]) + carriage + [LF] + LogText(log[1..], crlf[1..])
  {
    hide RecordLine;
    assert carriage + [LF] == if crlf[0] then CRLF else [LF];
    ConcatAssoc(RecordLine(log[0]), carriage, [LF]);
  }

  // ----- The program's loop -----

  /**
   Reads the bytes the stream delivers. `bad` says that the stream then failed
   for another reason than reaching the end.
   */
  method ReadRecords(input: Bytes, bad: bool) returns (r: Result<seq<WalRecord>>)
    ensures !bad ==> r == ReadLog(input)
    ensures bad && ReadLog(input).Failure? ==> r == ReadLog(input)
    ensures bad && ReadLog(input).Success? ==> r == Failure(InvalidArgumentError("failed to read WAL file"))
  {
    hide Lines, DecodedLines, Decoded;
    var records := [];
    var lineNumber := 0;
    var position := 0;
    assert input[0..] == input;
    PrependNone(ReadLog(input));
    while position < |input|
      invariant position <= |input|
      invariant ReadLog(input) == Prepend(records, DecodedLines(Lines(input[position..]), lineNumber + 1))
    {
      // std::getline
      ghost var rest := input[position..];
      var end := position + Find(input[position..], LF);
      var line := input[position..end];
      position := if end < |input| then end + 1 else end;
      lineNumber := lineNumber + 1;
      NextLine(rest, line, input[position..], lineNumber);

      if line == [] {
        return Failure(InvalidArgumentError("WAL file contains empty record line"));
      }
      var record := Deserialize(line);
      if record.Failure? {
        return Failure(LineParseError(lineNumber, record.error));
      }
      PrependTwice(records, [record.value], DecodedLines(Lines(input[position..]), lineNumber + 1));
      records := records + [record.value];
    }
    EndOfLines(input[position..], lineNumber + 1);
    assert records + [] == records;
    if bad {
      return Failure(InvalidArgumentError("failed to read WAL file"));
    }
    return Success(records);
  }

  lemma {:induction false} NextLine(s: Bytes, line: Bytes, rest: Bytes, lineNumber: nat)
    requires s != []
    requires line == s[..Find(s, LF)]
    requires rest == if Find(s, LF) < |s| then s[Find(s, LF) + 1..] else []
    ensures DecodedLines(Lines(s), lineNumber) ==
      match LineResult(line, lineNumber)
      case Failure(error) => Failure(error)
      case Success(record) => Prepend([record], DecodedLines(Lines(rest), lineNumber + 1))
  {
    hide Decoded;
    if Find(s, LF) == |s| {
      assert line == s;
    }
    assert Lines(s) == [line] + Lines(rest);
  }

  lemma EndOfLines(s: Bytes, lineNumber: nat)
    requires s == []
    ensures DecodedLines(Lines(s), lineNumber) == Success([])
  {
  }
}
