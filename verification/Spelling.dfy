/**
 The formats byte by byte. What goes over the wire and into the log is stated
 here in literal bytes, without the definitions that produce it.
 */
module Spelling {
  import opened ByteStrings
  import opened Decimal
  import opened Core
  import opened Commands
  import opened Parser
  import opened Responses
  import opened Client
  import opened WalRecords
  import opened WalCodec
  import opened WalCodecProofs
  import opened WalReader
  import opened EndToEnd
  import opened InMemory

  /** A string literal stands for the codes of its characters. */
  lemma AsciiIs(text: string)
    requires forall i :: 0 <= i < |text| ==> text[i] as int < 128
    ensures |Ascii(text)| == |text| && forall i :: 0 <= i < |text| ==> Ascii(text)[i] as int == text[i] as int
  {
  }

  lemma AsciiConcat(a: string, b: string)
    ensures Ascii(a + b) == Ascii(a) + Ascii(b)
  {
  }

  // ----- Command words -----

  /** The name is `word`, given in capitals, with any of its letters 32 higher. */
  ghost predicate SpelledAs(name: Bytes, word: Bytes)
  {
    |name| == |word| && forall i :: 0 <= i < |word| ==> name[i] == word[i] || name[i] as int == word[i] as int + 32
  }

  ghost predicate Capitals(word: Bytes)
  {
    forall i :: 0 <= i < |word| ==> 65 <= word[i] <= 90
  }

  lemma SpelledIsEqual(name: Bytes, word: Bytes)
    requires Capitals(word)
    ensures EqualsIgnoreCase(name, word) <==> SpelledAs(name, word)
  {
    assert EqualsIgnoreCase(name, word) ==> forall i :: 0 <= i < |word| ==> ToUpper(name[i]) == ToUpper(word[i]);
  }

  lemma NamesSpelled()
    ensures CommandName(Ping) == [80, 73, 78, 71] && CommandName(CommandType.Set) == [83, 69, 84]
    ensures CommandName(Get) == [71, 69, 84] && CommandName(CommandType.Del) == [68, 69, 76]
    ensures CommandName(Exists) == [69, 88, 73, 83, 84, 83]
  {
  }

  /** Each command is recognised by its letters, in either case, and by nothing else. */
  lemma {:induction false} CommandWords(name: Bytes)
    ensures CommandTypeOf(name) == Success(Ping) <==> SpelledAs(name, [80, 73, 78, 71])
    ensures CommandTypeOf(name) == Success(CommandType.Set) <==> SpelledAs(name, [83, 69, 84])
    ensures CommandTypeOf(name) == Success(Get) <==> SpelledAs(name, [71, 69, 84])
    ensures CommandTypeOf(name) == Success(CommandType.Del) <==> SpelledAs(name, [68, 69, 76])
    ensures CommandTypeOf(name) == Success(Exists) <==> SpelledAs(name, [69, 88, 73, 83, 84, 83])
  {
    NamesSpelled();
    hide CommandTypeOf, CommandName, EqualsIgnoreCase, SpelledAs;
    NameRecognised(name, Ping);
    NameRecognised(name, CommandType.Set);
    NameRecognised(name, Get);
    NameRecognised(name, CommandType.Del);
    NameRecognised(name, Exists);
    SpelledIsEqual(name, [80, 73, 78, 71]);
    SpelledIsEqual(name, [83, 69, 84]);
    SpelledIsEqual(name, [71, 69, 84]);
    SpelledIsEqual(name, [68, 69, 76]);
    SpelledIsEqual(name, [69, 88, 73, 83, 84, 83]);
  }

  // ----- Words -----

  /** Whitespace in the "C" locale: tab, line feed, vertical tab, form feed, carriage return, space. */
  ghost predicate White(b: Byte)
  {
    b in {9, 10, 11, 12, 13, 32}
  }

  /** A line of words with whitespace around and between them has exactly those words as tokens. */
  lemma {:induction false} WordsAreTokens(gaps: seq<Bytes>, words: seq<Bytes>)
    requires |gaps| == |words| + 1
    requires forall i :: 0 <= i < |gaps| ==> forall k :: 0 <= k < |gaps[i]| ==> White(gaps[i][k])
    requires forall i :: 0 < i < |words| ==> gaps[i] != []
    requires forall i :: 0 <= i < |words| ==> words[i] != [] && forall k :: 0 <= k < |words[i]| ==> !White(words[i][k])
    ensures Tokens(Weave(gaps, words)) == words
  {
    assert forall i :: 0 <= i < |gaps| ==> Blank(gaps[i]);
    assert forall i :: 0 <= i < |words| ==> Solid(words[i]);
    hide Tokens, Weave, Blank, Solid;
    TokensUnique(gaps, words);
  }

  // ----- Numbers -----

  /** A number is written in the digits 48 to 57, the last one for the units. */
  lemma {:induction false} DigitsSpelled(n: nat)
    ensures n < 10 ==> Digits(n) == [(48 + n) as Byte]
    ensures n >= 10 ==> Digits(n) == Digits(n / 10) + [(48 + n % 10) as Byte]
  {
  }

  lemma IntegerSpelled(number: Int64)
    ensures number >= 0 ==> IntegerText(number) == Digits(number as int)
    ensures number < 0 ==> IntegerText(number) == [45] + Digits(-(number as int))
  {
    hide Digits;
  }

  // ----- The store's own refusals -----

  /** An empty key is refused by every operation, and a missing one where a value or a removal is asked for. */
  lemma {:induction false} KeysRefused(values: Store, key: Bytes, value: Bytes)
    ensures
      var empty, missing := InvalidArgumentError("key must not be empty"), NotFoundError("key not found");
      && StoreSet(values, [], value) == (values, empty) && StoreRemove(values, []) == (values, empty)
      && StoreGet(values, []) == Failure(empty) && StoreExists(values, []) == Failure(empty)
      && (key != [] && key !in values ==>
            StoreGet(values, key) == Failure(missing) && StoreRemove(values, key) == (values, missing))
    ensures InvalidArgumentError("x").code == InvalidArgument && NotFoundError("x").code == NotFound
    ensures UnavailableError("x").code == Unavailable
  {
  }

  // ----- Log records -----

  /** Half a byte as a digit 0 to 9 or a letter a to f. */
  ghost function HexLetter(v: int): int
  {
    if v < 10 then 48 + v else 87 + v
  }

  ghost predicate HexSpelled(text: Bytes, bytes: Bytes)
  {
    && |text| == 2 * |bytes|
    && forall i :: 0 <= i < |bytes| ==>
        && text[2 * i] as int == HexLetter(bytes[i] as int / 16)
        && text[2 * i + 1] as int == HexLetter(bytes[i] as int % 16)
  }

  lemma HexOfSpelled(bytes: Bytes)
    ensures HexSpelled(HexOf(bytes), bytes)
  {
  }

  /**
   A record line has five parts with single spaces between them and one line feed at its end: AKVWAL1, the number in
   decimal, `set` or `del`, the key and the value in hexadecimal; a dash stands for no value.
   */
  lemma {:induction false} RecordSpelled(record: WalRecord)
    requires Valid(record)
    ensures
      var parts := Split(RecordLine(record), 32);
      && |parts| == 5
      && parts[0] == [65, 75, 86, 87, 65, 76, 49]
      && parts[1] == Digits(record.sequenceNumber as int)
      && (parts[2] == [115, 101, 116] <==> record.kind.Set?) && (parts[2] == [100, 101, 108] <==> record.kind.Del?)
      && HexSpelled(parts[3], record.key)
      && (if record.kind.Set? then HexSpelled(parts[4], record.value) else parts[4] == [45])
    ensures Encoded(record) == RecordLine(record) + [10]
  {
    FieldsPrintable(record);
    SplitOfJoin(Fields(record), SPACE);
    HexOfSpelled(record.key);
    HexOfSpelled(record.value);
    hide Split, Join, HexOf, Digits;
  }

  /** An accepted line means a Set exactly if its third part is `set`, and else it is `del` and means a Del. */
  lemma {:induction false} AcceptedSpelled(line: Bytes)
    requires Decoded(line).Success?
    ensures
      var parts, record := Split(StripLineEnding(line), 32), Decoded(line).value;
      && |parts| == 5 && parts[0] == [65, 75, 86, 87, 65, 76, 49]
      && (record.kind.Set? <==> parts[2] == [115, 101, 116])
      && (record.kind.Del? <==> parts[2] == [100, 101, 108])
  {
    PartsOfDecoded(line);
    hide Split, Decoded, StripLineEnding, DecodedField, DecimalValue, AllDigits;
  }

  /** The number that a hexadecimal digit stands for, in either case. */
  ghost function Worth(c: int): int
  {
    if c <= 57 then c - 48 else if c <= 70 then c - 55 else c - 87
  }

  ghost predicate HexDigitSpelled(c: int)
  {
    48 <= c <= 57 || 65 <= c <= 70 || 97 <= c <= 102
  }

  /** A field is a dash or pairs of hexadecimal digits, high half first; anything else is refused. */
  lemma {:induction false} FieldSpelled(text: Bytes)
    ensures DecodedField(text).Success? <==>
      text == [45]
      || (text != [] && |text| % 2 == 0 && forall i :: 0 <= i < |text| ==> HexDigitSpelled(text[i] as int))
    ensures DecodedField([45]) == Success([])
    ensures DecodedField(text).Success? && text != [45] ==>
      var bytes := DecodedField(text).value;
      && |text| == 2 * |bytes|
      && forall i :: 0 <= i < |bytes| ==>
          bytes[i] as int == Worth(text[2 * i] as int) * 16 + Worth(text[2 * i + 1] as int)
  {
    assert AllHex(text) <==> forall i :: 0 <= i < |text| ==> HexDigitSpelled(text[i] as int);
  }

  /** One line feed comes off the end of a line, and one carriage return before it or at the end. */
  lemma {:induction false} EndingSpelled(text: Bytes)
    requires text == [] || (text[|text| - 1] != 10 && text[|text| - 1] != 13)
    ensures StripLineEnding(text) == text && StripLineEnding(text + [10]) == text
    ensures StripLineEnding(text + [13]) == text && StripLineEnding(text + [13, 10]) == text
  {
    assert (text + [10])[..|text|] == text;
    assert (text + [13, 10])[..|text| + 1] == text + [13];
    assert (text + [13])[..|text|] == text;
  }

  lemma {:induction false} NothingElseStripped(line: Bytes)
    ensures
      var stripped := StripLineEnding(line);
      line == stripped || line == stripped + [10] || line == stripped + [13] || line == stripped + [13, 10]
  {
    var n := |line|;
    if n > 0 && line[n - 1] == 10 && n > 1 && line[n - 2] == 13 {
      assert line == line[..n - 2] + [13, 10];
      assert line[..n - 1][..n - 2] == line[..n - 2];
    } else if n > 0 {
      assert line == line[..n - 1] + [line[n - 1]];
    }
  }

  /** Why a line is refused: the first of these that applies. */
  lemma {:induction false} RefusedLineSpelled(line: Bytes)
    ensures
      var text, read := StripLineEnding(line), Decoded(line);
      var parts := Split(text, 32);
      if text == [] then read == Failure(InvalidArgumentError("serialized WAL record is empty"))
      else if |parts| != 5 || [] in parts then
        read == Failure(InvalidArgumentError("serialized WAL record must contain 5 fields"))
      else if parts[0] != [65, 75, 86, 87, 65, 76, 49] then
        read == Failure(InvalidArgumentError("unsupported WAL record format version"))
      else if !AllDigits(parts[1]) || DecimalValue(parts[1]) > 0xFFFF_FFFF_FFFF_FFFF then
        read == Failure(InvalidArgumentError(if OutgrowsEarly(parts[1]) then "WAL sequence number is too large"
          else "WAL sequence number is not numeric"))
      else if parts[2] != [115, 101, 116] && parts[2] != [100, 101, 108] then
        read == Failure(InvalidArgumentError("unknown WAL record type"))
      else if FieldRefusal(parts[3]) != "" then read == Failure(InvalidArgumentError(FieldRefusal(parts[3])))
      else if FieldRefusal(parts[4]) != "" then read == Failure(InvalidArgumentError(FieldRefusal(parts[4])))
      else
        var wrong := RecordRefusal(DecimalValue(parts[1]), parts[2] == [115, 101, 116], parts[3], parts[4]);
        wrong != "" ==> read == Failure(InvalidArgumentError(wrong))
  {
    var parts := Split(StripLineEnding(line), SPACE);
    hide StripLineEnding, Split, Ascii, DecodedField, FieldRefusal;
    if |parts| == 5 {
      ParsedExact(parts[1]);
      NumberRefused(parts[1]);
      FieldRefused(parts[3]);
      FieldRefused(parts[4]);
    }
    hide Decimal.Parsed, DecimalValue;
  }

  /** What is wrong with a field, if anything. */
  ghost function FieldRefusal(text: Bytes): string
  {
    if text == [45] then ""
    else if text == [] then "hex field must not be empty"
    else if |text| % 2 != 0 then "hex field has odd length"
    else if exists i :: 0 <= i < |text| && !HexDigitSpelled(text[i] as int) then "hex field contains invalid digit"
    else ""
  }

  /** What is wrong with the fields together, if anything. */
  ghost function RecordRefusal(number: nat, isSet: bool, key: Bytes, value: Bytes): string
  {
    if number == 0 then "WAL record sequence number must be greater than zero"
    else if key == [45] then "WAL record key must not be empty"
    else if isSet && value == [45] then "WAL set record value must not be empty"
    else if !isSet && value != [45] then "WAL del record must be empty"
    else ""
  }

  lemma {:induction false} FieldRefused(text: Bytes)
    ensures FieldRefusal(text) != "" ==> DecodedField(text) == Failure(InvalidArgumentError(FieldRefusal(text)))
    ensures FieldRefusal(text) == "" ==>
      DecodedField(text).Success? && (DecodedField(text).value == [] <==> text == [45])
  {
    assert AllHex(text) <==> forall i :: 0 <= i < |text| ==> HexDigitSpelled(text[i] as int);
    hide Ascii;
  }

  /** The digits before the first byte that is none are already a number above 64 bits. */
  ghost predicate OutgrowsEarly(text: Bytes)
  {
    exists i :: 0 <= i <= |text| && AllDigits(text[..i]) && DecimalValue(text[..i]) > 0xFFFF_FFFF_FFFF_FFFF
  }

  /** Why a number is refused: the first reason met from left to right. */
  lemma {:induction false} NumberRefused(text: Bytes)
    ensures Scan(text).TooLarge? <==> OutgrowsEarly(text)
    ensures !Scan(text).Empty?
    decreases |text|
  {
    ScanExact(text);
    if text != [] {
      var n := |text| - 1;
      NumberRefused(text[..n]);
      ScanExact(text[..n]);
      assert text[..n + 1] == text;
      assert forall i :: 0 <= i <= n ==> text[..n][..i] == text[..i];
      assert OutgrowsEarly(text) <==>
        OutgrowsEarly(text[..n]) || (AllDigits(text) && DecimalValue(text) > 0xFFFF_FFFF_FFFF_FFFF);
    }
  }

  /** What a reader reports of the first line it cannot use, lines counted from 1. */
  lemma {:induction false} BadLineSpelled(file: Bytes)
    requires ReadLog(file).Failure?
    ensures
      var bad := FirstBad(Lines(file));
      && bad < |Lines(file)|
      && var line := Lines(file)[bad];
      if line == [] then ReadLog(file).error == InvalidArgumentError("WAL file contains empty record line")
      else
        && Decoded(line).Failure?
        && ReadLog(file).error == Error(InvalidArgument,
             Ascii("failed to parse WAL record at line ") + Digits(1 + bad) + Ascii(": ") + Decoded(line).error.message)
  {
    ReadExact(file);
    hide ReadLog, Lines, Decoded, Ascii, Digits, FirstBad;
  }

  // ----- Responses -----

  ghost function CodeSpelled(code: ErrorCode): string
  {
    match code
    case Unknown => "unknown"
    case InvalidArgument => "invalid_argument"
    case NotFound => "not_found"
    case AlreadyExists => "already_exists"
    case Conflict => "conflict"
    case Unavailable => "unavailable"
    case Internal => "internal"
  }

  /** An error line: a dash, ERR, the code, the message if there is one, and CR LF. */
  lemma {:induction false} ErrorSpelled(code: ErrorCode, message: Bytes)
    ensures SerializeStatus(Error(code, message))
      == Ascii("-ERR " + CodeSpelled(code)) + (if message == [] then [] else [32] + message) + [13, 10]
  {
    DashErr();
    AsciiConcat("-ERR ", CodeSpelled(code));
    assert CodeText(code) == Ascii(CodeSpelled(code));
    hide Ascii, CodeText, CodeSpelled;
    var head, tail := Ascii("ERR ") + CodeText(code), if message == [] then [] else [SPACE] + message;
    ConcatAssoc([MINUS], Ascii("ERR "), CodeText(code));
    ConcatAssoc([MINUS], head, tail);
    assert head + [] == head;
  }

  lemma DashErr()
    ensures Ascii("-ERR ") == [45] + Ascii("ERR ")
  {
    AsciiConcat("-", "ERR ");
    assert "-" + "ERR " == "-ERR ";
  }

  /** A refusal with a message of the program. */
  lemma RefusalSpelled(code: ErrorCode, message: string, line: string)
    requires message != "" && line == "-ERR " + CodeSpelled(code) + " " + message + "\r\n"
    ensures SerializeStatus(Error(code, Ascii(message))) == Ascii(line)
  {
    ErrorSpelled(code, Ascii(message));
    var front := "-ERR " + CodeSpelled(code);
    AsciiConcat(front, " ");
    AsciiConcat(front + " ", message);
    AsciiConcat(front + " " + message, "\r\n");
    assert Ascii(" ") == [32] && Ascii("\r\n") == [13, 10];
    hide Ascii, CodeSpelled, SerializeStatus;
    ConcatAssoc(Ascii(front), [32], Ascii(message));
  }

  // ----- What the client reads -----

  ghost predicate EndsReturn(line: Bytes)
  {
    line != [] && line[|line| - 1] == 13
  }

  /** `raw` is a line without a line feed, its LF or CR LF, and a rest; or a last line, a CR at its end or not. */
  ghost predicate Opens(raw: Bytes, line: Bytes, rest: Bytes)
  {
    && FreeOf(line, 10)
    && (|| raw == line + [13, 10] + rest
        || (!EndsReturn(line) && raw == line + [10] + rest)
        || (rest == [] && (raw == line + [13] || (!EndsReturn(line) && raw == line))))
  }

  lemma {:induction false} FirstLineSpelled(raw: Bytes)
    requires raw != []
    ensures ReadFirstLine(raw).Success?
    ensures
      var first := ReadFirstLine(raw).value;
      && first.nextIndex <= |raw| && Opens(raw, first.line, raw[first.nextIndex..])
      && (first.line != [] ==> first.line[0] == raw[0])
  {
    var i := Find(raw, LF);
    hide Find;
    if i == |raw| {
      assert raw[i..] == [];
      StrippedReturn(raw);
    } else {
      StrippedReturn(raw[..i]);
      CutAt(raw, i);
      var line, rest := StripReturn(raw[..i]), raw[i + 1..];
      if raw[..i] == line + [13] {
        assert line + [13, 10] + rest == line + [13] + [10] + rest;
      }
    }
  }

  lemma StrippedReturn(line: Bytes)
    ensures
      var stripped := StripReturn(line);
      line == stripped + [13] || (line == stripped && !EndsReturn(stripped))
    ensures FreeOf(line, 10) ==> FreeOf(StripReturn(line), 10)
  {
  }

  ghost predicate DigitSpelled(b: Byte)
  {
    48 <= b <= 57
  }

  /** The text is digits after an optional dash. */
  ghost predicate NumberSpelled(text: Bytes)
  {
    var start := if text != [] && text[0] == 45 then 1 else 0;
    |text| > start && forall i :: start <= i < |text| ==> DigitSpelled(text[i])
  }

  lemma NumberIsPayload(text: Bytes)
    ensures ValidIntegerPayload(text) <==> NumberSpelled(text)
  {
    if text != [] && text[0] == 45 {
      assert AllDigits(text[1..]) ==> forall i :: 1 <= i < |text| ==> text[1..][i - 1] == text[i];
      assert NumberSpelled(text) ==> forall i :: 0 <= i < |text[1..]| ==> text[1..][i] == text[i + 1];
    }
  }

  lemma LengthIsNumber(text: Bytes)
    requires text != []
    ensures AllDigits(text) <==> NumberSpelled(text) && text[0] != 45
    ensures AllDigits(text) && DecimalValue(text) > 0xFFFF_FFFF_FFFF_FFFF ==> OutgrowsEarly(text)
  {
    assert text[..|text|] == text;
  }

  /** A bulk length in decimal, within 64 bits. */
  ghost predicate LengthSpelled(text: Bytes, rest: Bytes)
  {
    && text != [] && (forall i :: 0 <= i < |text| ==> DigitSpelled(text[i]))
    && DecimalValue(text) <= 0xFFFF_FFFF_FFFF_FFFF && DecimalValue(text) <= |rest|
    && (rest[DecimalValue(text)..] == [] || rest[DecimalValue(text)..] == [10]
        || rest[DecimalValue(text)..] == [13, 10])
  }

  /** What the client finds wrong with a response whose first byte is `tag`. */
  ghost function ClientRefusal(tag: Byte, line: Bytes, rest: Bytes): string
  {
    if tag !in {36, 43, 45, 58} then "unknown protocol response prefix"
    else if |line| < 2 && tag == 36 then "bulk string response line is incomplete"
    else if |line| < 2 then "protocol response line is incomplete"
    else if tag == 58 then "integer response payload is invalid"
    else if OutgrowsEarly(line[1..]) then "bulk string length is too large"
    else if !NumberSpelled(line[1..]) || line[1] == 45 then "bulk string length is not numeric"
    else if DecimalValue(line[1..]) > |rest| then "bulk string response payload is truncated"
    else "bulk string response has invalid trailing bytes"
  }

  /**
   The client accepts exactly this: a first line of a tag and at least one byte more, where `+` and `-` take any text,
   `:` a number, and `$` a length that the rest holds, with a line ending or nothing behind it.
   */
  ghost function ReadSpelled(tag: Byte, line: Bytes, rest: Bytes): Result<ProtocolResponse>
  {
    if |line| >= 2 && tag == 43 then Success(ProtocolResponse(SimpleKind, line[1..]))
    else if |line| >= 2 && tag == 45 then Success(ProtocolResponse(ErrorKind, line[1..]))
    else if |line| >= 2 && tag == 58 && NumberSpelled(line[1..]) then
      Success(ProtocolResponse(IntegerKind, line[1..]))
    else if |line| >= 2 && tag == 36 && LengthSpelled(line[1..], rest) then
      Success(ProtocolResponse(BulkKind, rest[..DecimalValue(line[1..])]))
    else Failure(InvalidArgumentError(ClientRefusal(tag, line, rest)))
  }

  /** What the client reads, or the first thing that it finds wrong. */
  lemma {:induction false} ClientReads(raw: Bytes) returns (line: Bytes, rest: Bytes)
    requires raw != []
    ensures Opens(raw, line, rest) && (line != [] ==> line[0] == raw[0])
    ensures ParseProtocolResponse(raw) == ReadSpelled(raw[0], line, rest)
  {
    FirstLineSpelled(raw);
    var first := ReadFirstLine(raw).value;
    line, rest := first.line, raw[first.nextIndex..];
    hide Opens, ReadFirstLine, ParseBulkStringResponse, ParseLineResponse, Ascii;
    match raw[0] {
      case 43 => LineReads(SimpleKind, raw, line, rest);
      case 45 => LineReads(ErrorKind, raw, line, rest);
      case 58 => LineReads(IntegerKind, raw, line, rest);
      case 36 => BulkReads(raw, line, rest);
      case _ => return;
    }
    hide ReadSpelled;
  }

  lemma LineReads(kind: Kind, raw: Bytes, line: Bytes, rest: Bytes)
    requires raw != [] && ReadFirstLine(raw).Success? && line == ReadFirstLine(raw).value.line
    requires !kind.BulkKind?
    requires raw[0] == if kind.SimpleKind? then 43 else if kind.ErrorKind? then 45 else 58
    ensures ParseLineResponse(kind, raw) == ReadSpelled(raw[0], line, rest)
  {
    if |line| >= 2 {
      NumberIsPayload(line[1..]);
    }
    hide ReadFirstLine, Ascii, ValidIntegerPayload, NumberSpelled, OutgrowsEarly, LengthSpelled;
  }

  lemma BulkReads(raw: Bytes, line: Bytes, rest: Bytes)
    requires raw != [] && ReadFirstLine(raw).Success?
    requires
      var first := ReadFirstLine(raw).value;
      line == first.line && first.nextIndex <= |raw| && rest == raw[first.nextIndex..]
    requires line != [] ==> line[0] == 36
    ensures ParseBulkStringResponse(raw) == ReadSpelled(36, line, rest)
  {
    if |line| >= 2 {
      var text := line[1..];
      ParsedExact(text);
      NumberRefused(text);
      LengthIsNumber(text);
      assert text[0] == line[1];
    }
    hide ReadFirstLine, Decimal.Parsed, DecimalValue, Ascii, NumberSpelled, OutgrowsEarly;
  }
}
