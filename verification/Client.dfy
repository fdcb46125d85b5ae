/** How the client reads a response (src/client/response_renderer.cpp), and what of a response it recovers. */
module Client {
  import opened ByteStrings
  import opened Decimal
  import opened Core
  import opened Responses

  datatype Kind = SimpleKind | ErrorKind | IntegerKind | BulkKind

  datatype ProtocolResponse = ProtocolResponse(kind: Kind, value: Bytes)

  datatype FirstLine = FirstLine(line: Bytes, nextIndex: nat)

  function ReadFirstLine(input: Bytes): Result<FirstLine>
  {
    if input == [] then Failure(InvalidArgumentError("protocol response is empty")) else
    var newLine := Find(input, LF);
    if newLine == |input| then Success(FirstLine(StripReturn(input), |input|))
    else Success(FirstLine(StripReturn(input[..newLine]), newLine + 1))
  }

  function BulkLengthOf(number: Number): Result<Uint64>
  {
    match number
    case Value(n) => Success(n)
    case Empty => Failure(InvalidArgumentError("bulk string length is empty"))
    case NotNumeric => Failure(InvalidArgumentError("bulk string length is not numeric"))
    case TooLarge => Failure(InvalidArgumentError("bulk string length is too large"))
  }

  predicate ValidIntegerPayload(value: Bytes)
  {
    value != [] && if value[0] == MINUS then |value| > 1 && AllDigits(value[1..]) else AllDigits(value)
  }

  predicate ValidBulkTrailing(bytes: Bytes)
  {
    bytes == [] || bytes == [LF] || bytes == CRLF
  }

  function ParseLineResponse(kind: Kind, raw: Bytes): Result<ProtocolResponse>
  {
    var first := ReadFirstLine(raw);
    if first.Failure? then Failure(first.error) else
    var line := first.value.line;
    if |line| < 2 then Failure(InvalidArgumentError("protocol response line is incomplete"))
    else if kind.IntegerKind? && !ValidIntegerPayload(line[1..]) then
      Failure(InvalidArgumentError("integer response payload is invalid"))
    else Success(ProtocolResponse(kind, line[1..]))
  }

  function ParseBulkStringResponse(raw: Bytes): Result<ProtocolResponse>
  {
    var first := ReadFirstLine(raw);
    if first.Failure? then Failure(first.error) else
    var line, next := first.value.line, first.value.nextIndex;
    if |line| < 2 then Failure(InvalidArgumentError("bulk string response line is incomplete")) else
    var parsed := BulkLengthOf(Parsed(line[1..]));
    if parsed.Failure? then Failure(parsed.error) else
    var length := parsed.value as int;
    if next > |raw| then Failure(InvalidArgumentError("bulk string response payload is missing")) else
    var remaining := raw[next..];
    if |remaining| < length then Failure(InvalidArgumentError("bulk string response payload is truncated"))
    else if !ValidBulkTrailing(remaining[length..]) then
      Failure(InvalidArgumentError("bulk string response has invalid trailing bytes"))
    else Success(ProtocolResponse(BulkKind, remaining[..length]))
  }

  function ParseProtocolResponse(raw: Bytes): Result<ProtocolResponse>
  {
    if raw == [] then Failure(InvalidArgumentError("protocol response is empty"))
    else if raw[0] == PLUS then ParseLineResponse(SimpleKind, raw)
    else if raw[0] == MINUS then ParseLineResponse(ErrorKind, raw)
    else if raw[0] == COLON then ParseLineResponse(IntegerKind, raw)
    else if raw[0] == DOLLAR then ParseBulkStringResponse(raw)
    else Failure(InvalidArgumentError("unknown protocol response prefix"))
  }

  /** The digit loop of a bulk length is the guarded loop of the log codec, with its own messages. */
  method ParseBulkLength(value: Bytes) returns (r: Result<Uint64>)
    ensures r.Success? <==> value != [] && AllDigits(value) && DecimalValue(value) <= UINT64_MAX
    ensures r.Success? ==> r.value as int == DecimalValue(value)
    ensures r == BulkLengthOf(Parsed(value))
  {
    var number := ParseUnsigned(value);
    ParsedExact(value);
    return BulkLengthOf(number);
  }

  method IsValidIntegerPayload(value: Bytes) returns (valid: bool)
    ensures valid <==> ValidIntegerPayload(value)
  {
    if value == [] {
      return false;
    }
    var index := 0;
    if value[0] == MINUS {
      if |value| == 1 {
        return false;
      }
      index := 1;
    }
    ghost var start := index;
    while index < |value|
      invariant start <= index <= |value|
      invariant forall k :: start <= k < index ==> IsDigit(value[k])
    {
      if !IsDigit(value[index]) {
        assert value[start..][index - start] == value[index];
        return false;
      }
      index := index + 1;
    }
    return true;
  }

  // ----- Round trips -----

  /** The first line of a response is what precedes its first CR LF, if no line feed comes before that. */
  lemma FirstLineOf(text: Bytes, rest: Bytes)
    requires FreeOf(text, LF) && text != []
    ensures ReadFirstLine(text + CRLF + rest) == Success(FirstLine(text, |text| + 2))
  {
    var raw, line := text + CRLF + rest, text + [CR];
    assert raw[|text| + 1] == LF;
    assert forall k :: 0 <= k < |line| ==> raw[k] == line[k];
    assert Find(raw, LF) == |text| + 1;
    assert raw[..|text| + 1] == line;
    assert line[..|text|] == text;
  }

  /** A line feed in the text cuts it short. */
  lemma FirstLineCut(text: Bytes)
    requires !FreeOf(text, LF)
    ensures ReadFirstLine(text + CRLF).Success? && |ReadFirstLine(text + CRLF).value.line| < |text|
  {
    var raw := text + CRLF;
    var i :| 0 <= i < |text| && text[i] == LF;
    assert raw[i] == LF;
    assert Find(raw, LF) <= i;
  }

  lemma LineRoundTrip(kind: Kind, tag: Byte, value: Bytes)
    requires !kind.IntegerKind? && tag != LF
    ensures ParseLineResponse(kind, [tag] + value + CRLF) == Success(ProtocolResponse(kind, value))
      <==> value != [] && FreeOf(value, LF)
  {
    var text := [tag] + value;
    assert text[1..] == value;
    if FreeOf(value, LF) {
      assert FreeOf(text, LF);
      FirstLineOf(text, []);
      assert text + CRLF + [] == text + CRLF;
    } else {
      var i :| 0 <= i < |value| && value[i] == LF;
      assert text[i + 1] == LF;
      FirstLineCut(text);
    }
  }

  /** A simple string is recovered exactly when it is nonempty and has no line feed. */
  lemma {:induction false} SimpleStringRoundTrip(value: Bytes)
    ensures ParseProtocolResponse(SerializeCommandResponse(SimpleString(value)))
      == Success(ProtocolResponse(SimpleKind, value))
      <==> value != [] && FreeOf(value, LF)
  {
    LineRoundTrip(SimpleKind, PLUS, value);
    hide ParseLineResponse;
  }

  lemma AsciiFree(text: string)
    requires forall i :: 0 <= i < |text| ==> 32 <= text[i] as int < 128
    ensures FreeOf(Ascii(text), LF)
  {
  }

  lemma {:induction false} CodeTextHasNoLineFeed(code: ErrorCode)
    ensures FreeOf(Ascii("ERR "), LF) && FreeOf(CodeText(code), LF)
  {
    AsciiFree("ERR ");
    hide Ascii;
    match code
    case Unknown => AsciiFree("unknown");
    case InvalidArgument => AsciiFree("invalid_argument");
    case NotFound => AsciiFree("not_found");
    case AlreadyExists => AsciiFree("already_exists");
    case Conflict => AsciiFree("conflict");
    case Unavailable => AsciiFree("unavailable");
    case Internal => AsciiFree("internal");
  }

  /** An error is recovered, code and message, exactly when the message has no line feed. */
  lemma {:induction false} ErrorRoundTrip(error: ErrorStatus)
    ensures ParseProtocolResponse(SerializeStatus(error)) == Success(ProtocolResponse(ErrorKind, ErrorText(error)))
      <==> FreeOf(error.message, LF)
  {
    var front := Ascii("ERR ") + CodeText(error.code);
    CodeTextHasNoLineFeed(error.code);
    assert FreeOf(front, LF);
    LineRoundTrip(ErrorKind, MINUS, ErrorText(error));
    ErrorTextFree(front, error);
    hide ParseLineResponse, ErrorText;
    assert SerializeStatus(error)[0] == MINUS;
  }

  lemma ErrorTextFree(front: Bytes, error: ErrorStatus)
    requires front == Ascii("ERR ") + CodeText(error.code) && FreeOf(front, LF)
    ensures ErrorText(error) != []
    ensures FreeOf(ErrorText(error), LF) <==> FreeOf(error.message, LF)
  {
    hide Ascii, CodeText;
    assert |Ascii("ERR ")| == 4;
    var text := ErrorText(error);
    if error.message != [] {
      assert text == front + [SPACE] + error.message;
      assert forall i :: 0 <= i < |error.message| ==> text[|front| + 1 + i] == error.message[i];
    }
  }

  /** The number a signed decimal text denotes. */
  ghost function IntegerValue(text: Bytes): int
    requires ValidIntegerPayload(text)
  {
    if text[0] == MINUS then -(DecimalValue(text[1..]) as int) else DecimalValue(text)
  }

  lemma IntegerTextDenotes(number: Int64)
    ensures ValidIntegerPayload(IntegerText(number))
    ensures IntegerValue(IntegerText(number)) == number as int
  {
    var text := IntegerText(number);
    if number < 0 {
      DigitsDenote(-(number as int));
      assert text[1..] == Digits(-(number as int));
    } else {
      DigitsDenote(number as int);
      assert IsDigit(text[0]);
    }
  }

  /** Every 64-bit integer is recovered: its text, and the number the text denotes. */
  lemma {:induction false} IntegerRoundTrip(number: Int64)
    ensures
      var text := IntegerText(number);
      && ParseProtocolResponse(SerializeCommandResponse(Integer(number)))
        == Success(ProtocolResponse(IntegerKind, text))
      && ValidIntegerPayload(text) && IntegerValue(text) == number as int
  {
    IntegerTextDenotes(number);
    var text := IntegerText(number);
    var line := [COLON] + text;
    PayloadFree(text);
    hide IntegerText, ReadFirstLine, ValidIntegerPayload;
    assert FreeOf(line, LF);
    FirstLineOf(line, []);
    assert line + CRLF + [] == line + CRLF;
    assert line[1..] == text;
  }

  lemma PayloadFree(text: Bytes)
    requires ValidIntegerPayload(text)
    ensures FreeOf(text, LF) && text != []
  {
    if text[0] == MINUS {
      assert forall i :: 0 < i < |text| ==> text[i] == text[1..][i - 1];
    }
  }

  /** Without the final line ending, the bulk header. */
  ghost function BulkLine(value: Bytes): Bytes
  {
    [DOLLAR] + Digits(|value|)
  }

  lemma BulkLineShape(value: Bytes)
    ensures FreeOf(BulkLine(value), LF) && FreeOf(BulkLine(value), CR) && |BulkLine(value)| >= 2
    ensures BulkLine(value)[1..] == Digits(|value|)
    ensures BulkHeader(value) == BulkLine(value) + CRLF
  {
    DigitsDenote(|value|);
  }

  /** Past the header the client sees the declared length and what has arrived of the payload. */
  lemma BulkPastHeader(value: Bytes, tail: Bytes)
    requires |value| <= UINT64_MAX
    ensures ParseProtocolResponse(BulkHeader(value) + tail) ==
      if |tail| < |value| then Failure(InvalidArgumentError("bulk string response payload is truncated"))
      else if !ValidBulkTrailing(tail[|value|..]) then
        Failure(InvalidArgumentError("bulk string response has invalid trailing bytes"))
      else Success(ProtocolResponse(BulkKind, tail[..|value|]))
  {
    BulkLineShape(value);
    var line := BulkLine(value);
    FirstLineOf(line, tail);
    ParsedOfDigits(|value| as Uint64);
    var raw := BulkHeader(value) + tail;
    assert raw[|line| + 2..] == tail;
    assert raw[0] == DOLLAR;
    hide ReadFirstLine, Parsed, BulkLine, BulkHeader, ValidBulkTrailing;
  }

  /** Every bulk string is recovered, whatever its bytes. */
  lemma {:induction false} BulkStringRoundTrip(value: Bytes)
    requires |value| <= UINT64_MAX
    ensures ParseProtocolResponse(SerializeCommandResponse(BulkString(value)))
      == Success(ProtocolResponse(BulkKind, value))
  {
    var tail := value + CRLF;
    BulkPastHeader(value, tail);
    ConcatAssoc(BulkHeader(value), value, CRLF);
    assert tail[..|value|] == value && tail[|value|..] == CRLF;
    hide ParseProtocolResponse, BulkHeader;
  }

  lemma PrefixPositive(value: Bytes, n: nat)
    requires 0 < n <= |Digits(|value|)| && value != []
    ensures Parsed(Digits(|value|)[..n]).Value? ==> Parsed(Digits(|value|)[..n]).n > 0
  {
    var prefix := Digits(|value|)[..n];
    DigitsDenote(|value|);
    assert prefix[0] == Digits(|value|)[0];
    LeadingDigitPositive(prefix);
    ParsedExact(prefix);
  }

  lemma NoFirstLine(raw: Bytes)
    requires FreeOf(raw, LF) && raw != []
    ensures ReadFirstLine(raw) == Success(FirstLine(StripReturn(raw), |raw|))
  {
  }

  /** Inside the header only an empty string can be read, and only as the empty string. */
  lemma BulkInsideHeader(value: Bytes, n: nat)
    requires n < |BulkHeader(value)|
    ensures
      var r := ParseProtocolResponse(BulkHeader(value)[..n]);
      if value == [] && n >= 2 then r == Success(ProtocolResponse(BulkKind, value)) else r.Failure?
  {
    BulkLineShape(value);
    var line, raw := BulkLine(value), BulkHeader(value)[..n];
    if n > 0 {
      assert FreeOf(raw, LF) by {
        assert forall k :: 0 <= k < n ==> raw[k] == if k < |line| then line[k] else CR;
      }
      NoFirstLine(raw);
      var m := if n < |line| then n else |line|;
      HeaderCut(value, n);
      assert raw[0] == DOLLAR;
      if m >= 2 {
        assert line[..m][1..] == Digits(|value|)[..m - 1];
        if value != [] {
          PrefixPositive(value, m - 1);
        } else {
          assert Digits(0) == [48] && Digits(0)[..1] == [48];
          ParsedOfDigits(0);
        }
      }
      assert raw[n..] == [];
      hide Parsed, ReadFirstLine, BulkHeader, BulkLine, StripReturn, Digits;
    }
  }

  lemma HeaderCut(value: Bytes, n: nat)
    requires 0 < n < |BulkHeader(value)|
    ensures StripReturn(BulkHeader(value)[..n])
      == BulkLine(value)[..if n < |BulkLine(value)| then n else |BulkLine(value)|]
  {
    BulkLineShape(value);
    var line, raw := BulkLine(value), BulkHeader(value)[..n];
    if n <= |line| {
      assert raw == line[..n];
      assert raw[n - 1] == line[n - 1];
    } else {
      assert raw == line + [CR];
      assert raw[..|line|] == line[..|line|];
    }
  }

  /**
   No strict prefix of a serialized bulk string reads as another value: it fails, or all that is missing is the
   final line ending (or, for the empty string, anything after `$0`).
   */
  lemma {:induction false} BulkPrefix(value: Bytes, n: nat)
    requires |value| <= UINT64_MAX && n < |SerializeBulkString(value)|
    ensures
      var r := ParseProtocolResponse(SerializeBulkString(value)[..n]);
      if n == |BulkHeader(value)| + |value| || (value == [] && 2 <= n < |BulkHeader(value)|) then
        r == Success(ProtocolResponse(BulkKind, value))
      else
        r.Failure?
  {
    var header, rest := BulkHeader(value), value + CRLF;
    ConcatAssoc(header, value, CRLF);
    if n < |header| {
      assert SerializeBulkString(value)[..n] == header[..n];
      hide ParseProtocolResponse, BulkHeader;
      BulkInsideHeader(value, n);
    } else {
      TakeOfAppend(header, rest, n);
      var tail := rest[..n - |header|];
      hide ParseProtocolResponse, BulkHeader;
      BulkPastHeader(value, tail);
      if |tail| >= |value| {
        assert tail[..|value|] == value;
        assert |tail| > |value| ==> tail[|value|..] == [CR];
      }
    }
  }
}
