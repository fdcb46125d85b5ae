/**
 What clients are told, in the bytes they receive, whatever the system does to
 the log: which lines are acknowledged, what that means for map and file, and
 how every other line is answered.
 */
module Told {
  import opened ByteStrings
  import opened Decimal
  import opened Core
  import opened Commands
  import opened Parser
  import opened Responses
  import opened Client
  import opened WalRecords
  import opened WalCodec
  import opened WalWriter
  import opened InMemory
  import opened WalStorage
  import opened Pipeline
  import opened EndToEnd
  import opened Spelling
  import WalRuns
  import WalWriterRuns

  ghost function ValuesOf(engine: Engine): Store
  {
    match engine
    case Plain(values) => values
    case Durable(state) => state.values
  }

  /** How many words follow each command. */
  lemma Counts()
    ensures ExpectedArgumentCount(Ping) == 0 && ExpectedArgumentCount(CommandType.Set) == 2
    ensures ExpectedArgumentCount(Get) == 1 && ExpectedArgumentCount(CommandType.Del) == 1
    ensures ExpectedArgumentCount(Exists) == 1
  {
  }

  /** The request that a line of words makes. */
  lemma {:induction false} Request(line: Bytes, name: Bytes, word: Bytes, kind: CommandType, arguments: seq<Bytes>)
    requires Tokens(line) == [name] + arguments && Capitals(word) && SpelledAs(name, word)
    requires word == CommandName(kind) && |arguments| == ExpectedArgumentCount(kind)
    ensures Parser.Parsed(line) == Success(CommandRequest(kind, arguments))
    ensures forall i :: 0 <= i < |arguments| ==> arguments[i] != []
  {
    SpelledIsEqual(name, word);
    hide Parser.Parsed, Tokens, CommandName, SpelledAs, EqualsIgnoreCase;
    RequestOfLine(line, name, kind, arguments);
  }

  lemma {:induction false} GetRequest(line: Bytes, name: Bytes, key: Bytes)
    requires Tokens(line) == [name, key] && SpelledAs(name, [71, 69, 84])
    ensures Parser.Parsed(line) == Success(CommandRequest(Get, [key])) && key != []
    ensures WellFormed(CommandRequest(Get, [key]))
  {
    NamesSpelled();
    Counts();
    assert [name] + [key] == [name, key];
    hide Parser.Parsed, Tokens, CommandName, SpelledAs;
    Request(line, name, [71, 69, 84], Get, [key]);
    assert [key][0] != [];
  }

  lemma {:induction false} ExistsRequest(line: Bytes, name: Bytes, key: Bytes)
    requires Tokens(line) == [name, key] && SpelledAs(name, [69, 88, 73, 83, 84, 83])
    ensures Parser.Parsed(line) == Success(CommandRequest(Exists, [key])) && key != []
    ensures WellFormed(CommandRequest(Exists, [key]))
  {
    NamesSpelled();
    Counts();
    assert [name] + [key] == [name, key];
    hide Parser.Parsed, Tokens, CommandName, SpelledAs;
    Request(line, name, [69, 88, 73, 83, 84, 83], Exists, [key]);
    assert [key][0] != [];
  }

  lemma {:induction false} DelRequest(line: Bytes, name: Bytes, key: Bytes)
    requires Tokens(line) == [name, key] && SpelledAs(name, [68, 69, 76])
    ensures Parser.Parsed(line) == Success(CommandRequest(CommandType.Del, [key])) && key != []
    ensures WellFormed(CommandRequest(CommandType.Del, [key]))
  {
    NamesSpelled();
    Counts();
    assert [name] + [key] == [name, key];
    hide Parser.Parsed, Tokens, CommandName, SpelledAs;
    Request(line, name, [68, 69, 76], CommandType.Del, [key]);
    assert [key][0] != [];
  }

  lemma {:induction false} SetRequest(line: Bytes, name: Bytes, key: Bytes, value: Bytes)
    requires Tokens(line) == [name, key, value] && SpelledAs(name, [83, 69, 84])
    ensures Parser.Parsed(line) == Success(CommandRequest(CommandType.Set, [key, value])) && key != [] && value != []
    ensures WellFormed(CommandRequest(CommandType.Set, [key, value]))
  {
    NamesSpelled();
    Counts();
    assert [name] + [key, value] == [name, key, value];
    hide Parser.Parsed, Tokens, CommandName, SpelledAs;
    Request(line, name, [83, 69, 84], CommandType.Set, [key, value]);
    assert [key, value][0] != [] && [key, value][1] != [];
  }

  /** A line that calls the engine is answered with what the engine answers. */
  lemma {:induction false} Through(
      engine: Engine, config: Config, line: Bytes, call: Call, request: CommandRequest, io: Io)
    requires Parser.Parsed(line) == Success(request) && WellFormed(request)
    requires !request.kind.Ping? && call == CallOf(request)
    ensures
      var served := Served(engine, config, call, io);
      Processed(engine, config, line, io) == (served.0, SerializeExecutionResult(Respond(call, served.1)))
  {
    hide Parser.Parsed, Served, Respond, SerializeExecutionResult;
  }

  lemma ServedDurably(s: State, config: Config, call: Call, io: Io)
    ensures
      var served := ServeDurably(s, config, call, io);
      Served(Durable(s), config, call, io) == (Durable(served.0), served.1)
  {
    hide ServeDurably;
  }

  lemma SetBytes(key: Bytes, value: Bytes, status: Status)
    ensures SerializeExecutionResult(Respond(SetCall(key, value), Done(status)))
      == if status.Ok? then [43, 79, 75, 13, 10] else SerializeExecutionResult(Failure(status))
  {
    SpelledOut();
    hide SerializeExecutionResult, Ascii;
  }

  lemma DelBytes(key: Bytes, status: Status)
    ensures SerializeExecutionResult(Respond(RemoveCall(key), Done(status)))
      == if status.Ok? then [58, 49, 13, 10]
         else if status.code.NotFound? then [58, 48, 13, 10]
         else SerializeExecutionResult(Failure(status))
  {
    SpelledOut();
    hide SerializeExecutionResult, Ascii;
  }

  lemma SpelledOut()
    ensures SerializeExecutionResult(Success(SimpleString(Ascii("OK")))) == [43, 79, 75, 13, 10]
    ensures SerializeExecutionResult(Success(SimpleString(Ascii("PONG")))) == [43, 80, 79, 78, 71, 13, 10]
    ensures SerializeExecutionResult(Success(Integer(1))) == [58, 49, 13, 10]
    ensures SerializeExecutionResult(Success(Integer(0))) == [58, 48, 13, 10]
  {
    assert Ascii("OK") == [79, 75] && Ascii("PONG") == [80, 79, 78, 71];
    assert Digits(1) == [49] && Digits(0) == [48];
    hide Digits, Ascii;
  }

  // ----- Lines that change nothing -----

  lemma {:induction false} PingTold(engine: Engine, config: Config, line: Bytes, name: Bytes, io: Io)
    requires Tokens(line) == [name] && SpelledAs(name, [80, 73, 78, 71])
    ensures Processed(engine, config, line, io) == (engine, [43, 80, 79, 78, 71, 13, 10])
  {
    NamesSpelled();
    Counts();
    SpelledOut();
    assert [name] + [] == [name];
    hide Parser.Parsed, Tokens, CommandName, SpelledAs, Ascii, SerializeExecutionResult, Served;
    Request(line, name, [80, 73, 78, 71], Ping, []);
  }

  lemma ReadServed(engine: Engine, config: Config, call: Call, io: Io)
    requires !Mutates(call)
    ensures Served(engine, config, call, io) == (engine, ServeRead(ValuesOf(engine), call))
  {
    hide ServeRead, AfterSet, AfterRemove;
  }

  lemma GetBytes(values: Store, key: Bytes)
    requires key != []
    ensures
      var told := SerializeExecutionResult(Respond(GetCall(key), ServeRead(values, GetCall(key))));
      if key in values then told == [36] + Digits(|values[key]|) + [13, 10] + values[key] + [13, 10]
      else told == Ascii("-ERR not_found key not found\r\n")
  {
    RefusalSpelled(NotFound, "key not found", "-ERR not_found key not found\r\n");
    hide Ascii, SerializeStatus, Digits;
  }

  lemma ExistsBytes(values: Store, key: Bytes)
    requires key != []
    ensures SerializeExecutionResult(Respond(ExistsCall(key), ServeRead(values, ExistsCall(key))))
      == if key in values then [58, 49, 13, 10] else [58, 48, 13, 10]
  {
    SpelledOut();
    hide Ascii, SerializeExecutionResult;
  }

  /** GET: the length in decimal, the value and the line ends; or that the key is not found. */
  lemma {:induction false} GetTold(engine: Engine, config: Config, line: Bytes, name: Bytes, key: Bytes, io: Io)
    requires Tokens(line) == [name, key] && SpelledAs(name, [71, 69, 84])
    ensures Processed(engine, config, line, io).0 == engine
    ensures key in ValuesOf(engine) ==>
      var value := ValuesOf(engine)[key];
      Processed(engine, config, line, io).1 == [36] + Digits(|value|) + [13, 10] + value + [13, 10]
    ensures key !in ValuesOf(engine) ==>
      Processed(engine, config, line, io).1 == Ascii("-ERR not_found key not found\r\n")
  {
    GetRequest(line, name, key);
    hide Parser.Parsed, Tokens, SpelledAs, Ascii, Digits, Served, Processed;
    hide SerializeExecutionResult, Respond, ServeRead, ExpectedArgumentCount;
    Through(engine, config, line, GetCall(key), CommandRequest(Get, [key]), io);
    ReadServed(engine, config, GetCall(key), io);
    GetBytes(ValuesOf(engine), key);
  }

  lemma {:induction false} ExistsTold(engine: Engine, config: Config, line: Bytes, name: Bytes, key: Bytes, io: Io)
    requires Tokens(line) == [name, key] && SpelledAs(name, [69, 88, 73, 83, 84, 83])
    ensures Processed(engine, config, line, io)
      == (engine, if key in ValuesOf(engine) then [58, 49, 13, 10] else [58, 48, 13, 10])
  {
    ExistsRequest(line, name, key);
    hide Parser.Parsed, Tokens, SpelledAs, Served, Processed;
    hide SerializeExecutionResult, Respond, ServeRead, ExpectedArgumentCount;
    Through(engine, config, line, ExistsCall(key), CommandRequest(Exists, [key]), io);
    ReadServed(engine, config, ExistsCall(key), io);
    ExistsBytes(ValuesOf(engine), key);
  }

  // ----- SET and DEL over the durable engine -----

  /** The system carries an append through: it opens the file if it must, writes the record and syncs it if asked. */
  ghost predicate Carried(s: State, config: Config, record: WalRecord, io: Io)
  {
    && config.path != [] && !s.writer.closed && (s.writer.open || !io.OpenFails?)
    && !(io.WriteFails? && io.written < |Encoded(record)|)
    && !(io.SyncFails? && config.policy == FsyncEveryWrite)
  }

  /** What an acknowledged record does to the file. */
  ghost predicate Recorded(before: Disk, after: Disk, config: Config, record: WalRecord)
  {
    && after.bytes == before.bytes + Encoded(record)
    && (config.policy == FsyncEveryWrite ==> after.synced == |after.bytes|)
  }

  lemma AppendAnswer(w: Writer, config: Config, record: WalRecord, io: Io)
    requires Valid(record)
    ensures
      var (after, status) := Appended(w, config, record, io);
      && (status.Ok? <==> Carried(State(w, map[], 0), config, record, io))
      && (status.Ok? ==> Recorded(w.disk, after.disk, config, record))
      && (status.Error? ==> !status.code.NotFound?)
  {
    hide Encoded, Ascii;
  }

  /** A refusal is an error line, and the client reads it as one, whatever its message. */
  lemma {:induction false} RefusalRead(error: ErrorStatus)
    ensures
      var raw := SerializeExecutionResult(Failure(error));
      && raw != [] && raw[0] == 45
      && ParseProtocolResponse(raw).Success? && ParseProtocolResponse(raw).value.kind == ErrorKind
  {
    ErrorSpelled(error.code, error.message);
    DashErr();
    AsciiConcat("-ERR ", CodeSpelled(error.code));
    assert Ascii("ERR ") == [69, 82, 82, 32];
    var raw := SerializeStatus(error);
    hide Ascii, SerializeStatus, CodeSpelled;
    assert raw[0] == 45 && raw[1] == 69 && raw[2] == 82 && raw[3] == 82 && raw[4] == 32;
    assert Find(raw, LF) >= 5;
    hide Find;
  }

  /**
   SET, whatever the system does. The client is told OK exactly if the system carried the record through and the
   counter had not wrapped; then the map holds the value, the file has grown by the whole record, synced if the policy
   says so, and the counter has moved. Otherwise the client reads an error, and map and counter are as they were.
   */
  lemma {:induction false} SetTold(
      s: State, config: Config, line: Bytes, name: Bytes, key: Bytes, value: Bytes, io: Io)
    requires Tokens(line) == [name, key, value] && SpelledAs(name, [83, 69, 84])
    ensures
      var record := WalRecord(s.next, RecordType.Set, key, value);
      var (after, told) := Processed(Durable(s), config, line, io);
      && after.Durable?
      && (told == [43, 79, 75, 13, 10] <==> s.next != 0 && Carried(s, config, record, io))
      && (told == [43, 79, 75, 13, 10] ==>
            && after.state.values == s.values[key := value] && after.state.next == Increment(s.next)
            && Recorded(s.writer.disk, after.state.writer.disk, config, record))
      && (told != [43, 79, 75, 13, 10] ==>
            && after.state.values == s.values && after.state.next == s.next
            && ParseProtocolResponse(told).Success? && ParseProtocolResponse(told).value.kind == ErrorKind)
  {
    var call, request := SetCall(key, value), CommandRequest(CommandType.Set, [key, value]);
    SetRequest(line, name, key, value);
    hide Parser.Parsed, Tokens, SpelledAs, Processed, SerializeExecutionResult, Respond, Served, ServeDurably;
    hide ParseProtocolResponse, Carried, Recorded, ExpectedArgumentCount;
    Through(Durable(s), config, line, call, request, io);
    ServedDurably(s, config, call, io);
    SetAnswer(s, config, key, value, io);
    var status := ServeDurably(s, config, call, io).1.status;
    SetBytes(key, value, status);
    if status.Error? {
      RefusalRead(status);
    }
  }

  lemma {:induction false} SetAnswer(s: State, config: Config, key: Bytes, value: Bytes, io: Io)
    requires key != [] && value != []
    ensures
      var record := WalRecord(s.next, RecordType.Set, key, value);
      var (after, answer) := ServeDurably(s, config, SetCall(key, value), io);
      && answer.Done?
      && (answer.status.Ok? <==> s.next != 0 && Carried(s, config, record, io))
      && (answer.status.Ok? ==>
            && after.values == s.values[key := value] && after.next == Increment(s.next)
            && Recorded(s.writer.disk, after.writer.disk, config, record))
      && (answer.status.Error? ==> after.values == s.values && after.next == s.next)
  {
    var record := WalRecord(s.next, RecordType.Set, key, value);
    if Valid(record) {
      AppendAnswer(s.writer, config, record, io);
    }
    hide Appended, Encoded, Ascii;
  }

  /**
   DEL, whatever the system does. The client is told 0 exactly if the key is absent, and nothing changes; 1 exactly if
   it is there, the counter had not wrapped and the system carried the record through, and then the key is gone, the
   file has grown by the whole record and the counter has moved. Otherwise the client reads an error, and map and
   counter are as they were.
   */
  lemma {:induction false} DelTold(s: State, config: Config, line: Bytes, name: Bytes, key: Bytes, io: Io)
    requires Tokens(line) == [name, key] && SpelledAs(name, [68, 69, 76])
    ensures
      var record := WalRecord(s.next, RecordType.Del, key, []);
      var (after, told) := Processed(Durable(s), config, line, io);
      && after.Durable?
      && (told == [58, 48, 13, 10] <==> key !in s.values)
      && (told == [58, 48, 13, 10] ==> after == Durable(s))
      && (told == [58, 49, 13, 10] <==> key in s.values && s.next != 0 && Carried(s, config, record, io))
      && (told == [58, 49, 13, 10] ==>
            && after.state.values == s.values - {key} && after.state.next == Increment(s.next)
            && Recorded(s.writer.disk, after.state.writer.disk, config, record))
      && (told != [58, 48, 13, 10] && told != [58, 49, 13, 10] ==>
            && after.state.values == s.values && after.state.next == s.next
            && ParseProtocolResponse(told).Success? && ParseProtocolResponse(told).value.kind == ErrorKind)
  {
    var call, request := RemoveCall(key), CommandRequest(CommandType.Del, [key]);
    DelRequest(line, name, key);
    hide Parser.Parsed, Tokens, SpelledAs, Processed, SerializeExecutionResult, Respond, Served, ServeDurably;
    hide ParseProtocolResponse, Carried, Recorded, ExpectedArgumentCount;
    Through(Durable(s), config, line, call, request, io);
    ServedDurably(s, config, call, io);
    DelAnswer(s, config, key, io);
    var status := ServeDurably(s, config, call, io).1.status;
    DelBytes(key, status);
    if status.Error? {
      RefusalRead(status);
    }
  }

  lemma {:induction false} DelAnswer(s: State, config: Config, key: Bytes, io: Io)
    requires key != []
    ensures
      var record := WalRecord(s.next, RecordType.Del, key, []);
      var (after, answer) := ServeDurably(s, config, RemoveCall(key), io);
      && answer.Done?
      && (answer.status.Ok? <==> key in s.values && s.next != 0 && Carried(s, config, record, io))
      && (answer.status.Ok? ==>
            && after.values == s.values - {key} && after.next == Increment(s.next)
            && Recorded(s.writer.disk, after.writer.disk, config, record))
      && (answer.status.Error? ==>
            && after.values == s.values && after.next == s.next
            && (answer.status.code.NotFound? <==> key !in s.values)
            && (key !in s.values ==> after == s))
  {
    var record := WalRecord(s.next, RecordType.Del, key, []);
    if Valid(record) {
      AppendAnswer(s.writer, config, record, io);
    }
    hide Appended, Encoded, Ascii;
  }

  // ----- SET and DEL over the plain map -----

  lemma {:induction false} PlainSetTold(
      values: Store, config: Config, line: Bytes, name: Bytes, key: Bytes, value: Bytes, io: Io)
    requires Tokens(line) == [name, key, value] && SpelledAs(name, [83, 69, 84])
    ensures Processed(Plain(values), config, line, io) == (Plain(values[key := value]), [43, 79, 75, 13, 10])
  {
    var request := CommandRequest(CommandType.Set, [key, value]);
    SetRequest(line, name, key, value);
    hide Parser.Parsed, Tokens, SpelledAs, Processed, SerializeExecutionResult, Respond, ExpectedArgumentCount;
    Through(Plain(values), config, line, SetCall(key, value), request, io);
    SetBytes(key, value, Ok);
    hide Ascii;
  }

  lemma {:induction false} PlainDelTold(values: Store, config: Config, line: Bytes, name: Bytes, key: Bytes, io: Io)
    requires Tokens(line) == [name, key] && SpelledAs(name, [68, 69, 76])
    ensures Processed(Plain(values), config, line, io)
      == (Plain(values - {key}), if key in values then [58, 49, 13, 10] else [58, 48, 13, 10])
  {
    var request := CommandRequest(CommandType.Del, [key]);
    assert key !in values ==> values - {key} == values;
    DelRequest(line, name, key);
    hide Parser.Parsed, Tokens, SpelledAs, Processed, SerializeExecutionResult, Respond, ExpectedArgumentCount;
    Through(Plain(values), config, line, RemoveCall(key), request, io);
    DelBytes(key, if key in values then Ok else KEY_NOT_FOUND);
    hide Ascii;
  }

  // ----- Lines that are no request -----

  /** The error bytes of a refusal with a message of the program. */
  ghost function InvalidArgumentLine(message: string): Bytes
  {
    Ascii("-ERR invalid_argument " + message + "\r\n")
  }

  lemma InvalidSpelled(message: string)
    requires message != ""
    ensures SerializeStatus(InvalidArgumentError(message)) == InvalidArgumentLine(message)
  {
    var line := "-ERR " + "invalid_argument" + " " + message + "\r\n";
    RefusalSpelled(InvalidArgument, message, line);
    assert "-ERR " + "invalid_argument" + " " == "-ERR invalid_argument ";
    hide Ascii, SerializeStatus;
  }

  lemma {:induction false} BlankTold(engine: Engine, config: Config, line: Bytes, io: Io)
    requires Tokens(line) == []
    ensures Processed(engine, config, line, io) == (engine, InvalidArgumentLine("command line must not be empty"))
  {
    NoTokensIffBlank(line);
    InvalidSpelled("command line must not be empty");
    hide Ascii, SerializeStatus, InvalidArgumentLine, Tokens, Blank;
  }

  ghost predicate NoCommand(name: Bytes)
  {
    && !SpelledAs(name, [80, 73, 78, 71]) && !SpelledAs(name, [83, 69, 84]) && !SpelledAs(name, [71, 69, 84])
    && !SpelledAs(name, [68, 69, 76]) && !SpelledAs(name, [69, 88, 73, 83, 84, 83])
  }

  lemma {:induction false} UnknownTold(engine: Engine, config: Config, line: Bytes, io: Io)
    requires Tokens(line) != [] && NoCommand(Tokens(line)[0])
    ensures Processed(engine, config, line, io) == (engine, InvalidArgumentLine("unknown command"))
  {
    NoTokensIffBlank(line);
    FirstTokenNotEmpty(line);
    CommandWords(Tokens(line)[0]);
    InvalidSpelled("unknown command");
    UnknownError(Tokens(line)[0]);
    hide Ascii, SerializeStatus, InvalidArgumentLine, Tokens, Blank, SpelledAs, CommandTypeOf;
  }

  lemma FirstTokenNotEmpty(line: Bytes)
    requires Tokens(line) != []
    ensures Tokens(line)[0] != []
  {
    var gaps := TokensWeave(line);
    hide Tokens, Weave;
  }

  lemma UnknownError(name: Bytes)
    requires name != [] && CommandTypeOf(name).Failure?
    ensures CommandTypeOf(name) == Failure(InvalidArgumentError("unknown command"))
  {
    hide Ascii, EqualsIgnoreCase;
  }

  ghost predicate WrongCount(words: seq<Bytes>)
  {
    words != [] &&
    (|| (SpelledAs(words[0], [80, 73, 78, 71]) && |words| != 1)
     || (SpelledAs(words[0], [83, 69, 84]) && |words| != 3)
     || (SpelledAs(words[0], [71, 69, 84]) && |words| != 2)
     || (SpelledAs(words[0], [68, 69, 76]) && |words| != 2)
     || (SpelledAs(words[0], [69, 88, 73, 83, 84, 83]) && |words| != 2))
  }

  lemma {:induction false} CountTold(engine: Engine, config: Config, line: Bytes, io: Io)
    requires WrongCount(Tokens(line))
    ensures Processed(engine, config, line, io) == (engine, InvalidArgumentLine("invalid command argument count"))
  {
    NoTokensIffBlank(line);
    CommandWords(Tokens(line)[0]);
    Counts();
    InvalidSpelled("invalid command argument count");
    hide Ascii, SerializeStatus, InvalidArgumentLine, Tokens, Blank, SpelledAs, CommandTypeOf;
  }

  /** What a client is told that finds every worker taken (src/network/tcp_server.cpp:20). */
  const LIMIT_RESPONSE: Bytes := Ascii("-ERR unavailable " + "maximum client worker limit reached" + "\r\n")

  /** It is the line of an unavailable error, and the client reads it as one. */
  lemma {:induction false} LimitTold()
    ensures LIMIT_RESPONSE == SerializeStatus(UnavailableError("maximum client worker limit reached"))
    ensures ParseProtocolResponse(LIMIT_RESPONSE).Success?
    ensures ParseProtocolResponse(LIMIT_RESPONSE).value.kind == ErrorKind
  {
    LimitLine();
    LimitMessage();
    hide Ascii, SerializeStatus, ParseProtocolResponse;
    ErrorRoundTrip(UnavailableError("maximum client worker limit reached"));
  }

  lemma LimitMessage()
    ensures FreeOf(Ascii("maximum client worker limit reached"), LF)
  {
    AsciiIs("maximum client worker limit reached");
    hide Ascii;
  }

  lemma LimitLine()
    ensures LIMIT_RESPONSE == SerializeStatus(Error(Unavailable, Ascii("maximum client worker limit reached")))
  {
    assert "-ERR " + "unavailable" + " " == "-ERR unavailable ";
    hide Ascii, SerializeStatus;
    RefusalSpelled(Unavailable, "maximum client worker limit reached",
      "-ERR unavailable " + "maximum client worker limit reached" + "\r\n");
  }

  /** A request that reaches the dispatcher with a wrong number of arguments is refused before any engine sees it. */
  lemma {:induction false} MalformedDispatched(engine: Engine, config: Config, request: CommandRequest, io: Io)
    requires request.kind.Ping? ==> |request.arguments| != 0
    requires request.kind.Set? ==> |request.arguments| != 2
    requires request.kind.Get? || request.kind.Del? || request.kind.Exists? ==> |request.arguments| != 1
    ensures Dispatched(engine, config, request, io)
      == (engine, Failure(InvalidArgumentError("invalid command argument count")))
  {
    hide Ascii, Served;
  }
}
