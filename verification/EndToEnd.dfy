/**
 What a client that types a command line gets: the whole path from bytes to
 bytes, through tokenizer, dispatcher, engine, serializer and the client's own
 parser, against a reference that mentions none of them.
 */
module EndToEnd {
  import opened ByteStrings
  import opened Core
  import opened Commands
  import opened Parser
  import opened Responses
  import opened Client
  import opened InMemory
  import opened WalWriter
  import opened WalStorage
  import opened Pipeline
  import opened Refinement
  import opened LineServer

  /** The keys and values after a command. */
  ghost function Meaning(values: Store, kind: CommandType, arguments: seq<Bytes>): Store
    requires |arguments| == ExpectedArgumentCount(kind)
  {
    match kind
    case Set => values[arguments[0] := arguments[1]]
    case Del => values - {arguments[0]}
    case _ => values
  }

  /** What the client is told. */
  ghost function Reply(values: Store, kind: CommandType, arguments: seq<Bytes>): ProtocolResponse
    requires |arguments| == ExpectedArgumentCount(kind)
  {
    match kind
    case Ping => ProtocolResponse(SimpleKind, Ascii("PONG"))
    case Set => ProtocolResponse(SimpleKind, Ascii("OK"))
    case Get =>
      if arguments[0] in values then ProtocolResponse(BulkKind, values[arguments[0]])
      else ProtocolResponse(ErrorKind, ErrorText(KEY_NOT_FOUND))
    case Del => ProtocolResponse(IntegerKind, IntegerText(if arguments[0] in values then 1 else 0))
    case Exists => ProtocolResponse(IntegerKind, IntegerText(if arguments[0] in values then 1 else 0))
  }

  /** A stored value's length fits the client's counter. */
  ghost predicate Sendable(values: Store)
  {
    forall key :: key in values ==> |values[key]| <= UINT64_MAX
  }

  lemma KindsDiffer(name: Bytes, a: CommandType, b: CommandType)
    requires EqualsIgnoreCase(name, CommandName(a)) && EqualsIgnoreCase(name, CommandName(b))
    ensures a == b
  {
    NameBytes();
    hide CommandName;
    assert |name| > 2;
    assert ToUpper(name[0]) == ToUpper(CommandName(a)[0]) == ToUpper(CommandName(b)[0]);
    assert ToUpper(name[1]) == ToUpper(CommandName(a)[1]) == ToUpper(CommandName(b)[1]);
  }

  lemma NameBytes()
    ensures |CommandName(Ping)| == 4 && |CommandName(Exists)| == 6
    ensures |CommandName(Set)| == |CommandName(Get)| == |CommandName(Del)| == 3
    ensures CommandName(Set)[0] == 83 && CommandName(Get)[0] == 71 && CommandName(Del)[0] == 68
  {
  }

  /** The command word names its command in any mixture of cases, and no other. */
  lemma {:induction false} NameRecognised(name: Bytes, kind: CommandType)
    ensures CommandTypeOf(name) == Success(kind) <==> EqualsIgnoreCase(name, CommandName(kind))
  {
    NameBytes();
    forall other | EqualsIgnoreCase(name, CommandName(kind)) && EqualsIgnoreCase(name, CommandName(other))
      ensures other == kind
    {
      KindsDiffer(name, kind, other);
    }
    hide CommandName, EqualsIgnoreCase, InvalidArgumentError;
  }

  lemma {:induction false} RequestOfLine(line: Bytes, name: Bytes, kind: CommandType, arguments: seq<Bytes>)
    requires Tokens(line) == [name] + arguments && EqualsIgnoreCase(name, CommandName(kind))
    requires |arguments| == ExpectedArgumentCount(kind)
    ensures Parser.Parsed(line) == Success(CommandRequest(kind, arguments))
    ensures forall i :: 0 <= i < |arguments| ==> arguments[i] != []
  {
    NameRecognised(name, kind);
    NoTokensIffBlank(line);
    assert ([name] + arguments)[1..] == arguments;
    hide CommandTypeOf, CommandName, EqualsIgnoreCase, Tokens, Blank;
    assert Parser.Parsed(line) == Success(CommandRequest(kind, arguments));
    hide Parser.Parsed;
    ParsedRequest(line);
  }

  /** Serving the call that a well-formed request stands for does what the command means. */
  lemma CallMeans(values: Store, config: Config, kind: CommandType, arguments: seq<Bytes>, io: Io)
    requires |arguments| == ExpectedArgumentCount(kind) && Sendable(values)
    requires forall i :: 0 <= i < |arguments| ==> arguments[i] != []
    ensures
      var (after, result) := Dispatched(Plain(values), config, CommandRequest(kind, arguments), io);
      && after == Plain(Meaning(values, kind, arguments))
      && ParseProtocolResponse(SerializeExecutionResult(result)) == Success(Reply(values, kind, arguments))
  {
    hide ParseProtocolResponse, SerializeCommandResponse, SerializeStatus, ErrorText, IntegerText, Ascii;
    Literals();
    match kind
    case Ping => SimpleStringRoundTrip(Ascii("PONG"));
    case Set => SimpleStringRoundTrip(Ascii("OK"));
    case Get =>
      if arguments[0] in values {
        BulkStringRoundTrip(values[arguments[0]]);
      } else {
        ErrorRoundTrip(KEY_NOT_FOUND);
      }
    case Del => IntegerRoundTrip(if arguments[0] in values then 1 else 0);
    case Exists => IntegerRoundTrip(if arguments[0] in values then 1 else 0);
  }

  lemma Literals()
    ensures Ascii("PONG") != [] && FreeOf(Ascii("PONG"), LF) && Ascii("OK") != [] && FreeOf(Ascii("OK"), LF)
    ensures FreeOf(KEY_NOT_FOUND.message, LF)
  {
    AsciiFree("PONG");
    AsciiFree("OK");
    AsciiFree("key not found");
  }

  /**
   A well-formed command line, over the plain map: the map changes as the command means, and what the client
   parses out of the response is what it should be told.
   */
  lemma {:induction false} LineMeans(
      values: Store, config: Config, line: Bytes, name: Bytes, kind: CommandType, arguments: seq<Bytes>, io: Io)
    requires Tokens(line) == [name] + arguments && EqualsIgnoreCase(name, CommandName(kind))
    requires |arguments| == ExpectedArgumentCount(kind) && Sendable(values)
    ensures
      var after := Processed(Plain(values), config, line, io);
      && after.0 == Plain(Meaning(values, kind, arguments))
      && ParseProtocolResponse(after.1) == Success(Reply(values, kind, arguments))
  {
    RequestOfLine(line, name, kind, arguments);
    hide Parser.Parsed, Tokens, CommandName, EqualsIgnoreCase;
    CallMeans(values, config, kind, arguments, io);
    hide Dispatched, ParseProtocolResponse, SerializeExecutionResult, Meaning, Reply;
  }

  /** And so over the durable engine, while the system works and the counter has not wrapped. */
  lemma {:induction false} LineMeansDurably(
      s: State, config: Config, line: Bytes, name: Bytes, kind: CommandType, arguments: seq<Bytes>)
    requires Tokens(line) == [name] + arguments && EqualsIgnoreCase(name, CommandName(kind))
    requires |arguments| == ExpectedArgumentCount(kind) && Sendable(s.values)
    requires config.path != [] && !s.writer.closed && s.next != 0
    ensures
      var after := Processed(Durable(s), config, line, AllOk);
      && after.0.Durable? && after.0.state.values == Meaning(s.values, kind, arguments)
      && ParseProtocolResponse(after.1) == Success(Reply(s.values, kind, arguments))
  {
    LineMeans(s.values, config, line, name, kind, arguments, AllOk);
    hide Processed, ParseProtocolResponse, Meaning, Reply, Tokens, CommandName, EqualsIgnoreCase;
    var t := LineAgrees(s, config, line);
  }

  /** Any other line is answered with an error and changes nothing, whatever the engine. */
  lemma {:induction false} RefusedLine(engine: Engine, config: Config, line: Bytes, io: Io)
    requires Parser.Parsed(line).Failure?
    ensures Processed(engine, config, line, io).0 == engine
    ensures Processed(engine, config, line, io).1 == SerializeStatus(Parser.Parsed(line).error)
    ensures Tokens(line) == []
      || CommandTypeOf(Tokens(line)[0]).Failure?
      || |Tokens(line)| - 1 != ExpectedArgumentCount(CommandTypeOf(Tokens(line)[0]).value)
  {
    NoTokensIffBlank(line);
    hide Tokens, CommandTypeOf, SerializeStatus, Blank;
  }

  /** What was set is what is got: any key and value that can be typed, in one session after any other lines. */
  lemma {:induction false} SetThenGet(values: Store, config: Config, key: Bytes, value: Bytes, io: Io, later: Io)
    requires key != [] && Solid(key) && value != [] && Solid(value) && Sendable(values) && |value| <= UINT64_MAX
    ensures
      var wrote := Processed(Plain(values), config, Join([CommandName(Set), key, value], SPACE), io);
      var get := Processed(wrote.0, config, Join([CommandName(Get), key], SPACE), later);
      && ParseProtocolResponse(wrote.1) == Success(ProtocolResponse(SimpleKind, Ascii("OK")))
      && ParseProtocolResponse(get.1) == Success(ProtocolResponse(BulkKind, value))
      && get.0 == wrote.0
  {
    NamesAreWords();
    hide CommandName, Ascii, Solid, Join, ParseProtocolResponse, Processed, Tokens;
    TokensOfJoin([CommandName(Set), key, value]);
    TokensOfJoin([CommandName(Get), key]);
    assert [CommandName(Set), key, value] == [CommandName(Set)] + [key, value];
    assert [CommandName(Get), key] == [CommandName(Get)] + [key];
    LineMeans(values, config, Join([CommandName(Set), key, value], SPACE), CommandName(Set), Set, [key, value], io);
    LineMeans(values[key := value], config, Join([CommandName(Get), key], SPACE), CommandName(Get), Get, [key], later);
  }

  lemma NamesAreWords()
    ensures CommandName(Set) != [] && Solid(CommandName(Set)) && CommandName(Get) != [] && Solid(CommandName(Get))
  {
  }

  /** The same session over either engine, line by line and in its output. */
  lemma {:induction false} WireRefinement(s: State, config: Config, plain: Config, raws: seq<Bytes>)
    requires config.path != [] && !s.writer.closed
    requires RecordsLogged(s.values, config, CommandLines(raws)) <= NumbersLeft(s.next)
    ensures
      var ios := NoFailures(|raws|);
      var after := EngineOf(Durable(s), config, raws, ios);
      && OutputOf(Durable(s), config, raws, ios) == OutputOf(Plain(s.values), plain, raws, ios)
      && after.Durable? && EngineOf(Plain(s.values), plain, raws, ios) == Plain(after.state.values)
  {
    DurableRefinesPlain(s, config, CommandLines(raws));
    PlainIgnoresConfig(s.values, config, plain, CommandLines(raws), NoFailures(|raws|));
    hide Session, RecordsLogged;
  }

  /** The plain map has no use for the log's settings. */
  lemma {:induction false} PlainIgnoresConfig(values: Store, a: Config, b: Config, lines: seq<Bytes>, ios: seq<Io>)
    requires |lines| == |ios|
    ensures Session(Plain(values), a, lines, ios) == Session(Plain(values), b, lines, ios)
    decreases |lines|
  {
    if lines != [] {
      LineIgnoresConfig(values, a, b, lines[0], ios[0]);
      hide Processed;
      PlainIgnoresConfig(Processed(Plain(values), a, lines[0], ios[0]).0.values, a, b, lines[1..], ios[1..]);
    }
  }

  lemma LineIgnoresConfig(values: Store, a: Config, b: Config, line: Bytes, io: Io)
    ensures Processed(Plain(values), a, line, io) == Processed(Plain(values), b, line, io)
    ensures Processed(Plain(values), a, line, io).0.Plain?
  {
    hide Parser.Parsed, SerializeExecutionResult, SerializeStatus, Respond, Serve, ValidateCommandRequest;
  }

  /** What a client makes a connection execute, when nobody stops the server and every send succeeds. */
  ghost function LinesServed(incoming: seq<Received>): seq<Bytes>
  {
    if Orderly(incoming) then Lines(StreamOf(incoming)) else Completed(StreamOf(incoming))
  }

  /**
   On the wire: a client that talks to the durable engine and one that says the same to the plain map, however each
   stream and each answer is cut into pieces, are sent the same bytes, and leave the same map, as long as no system
   call fails for good, nobody stops the servers, and the numbers last.
   */
  method ServeSameClient(durable: ClientConnection, plain: ClientConnection)
    requires durable.Footprint() !! plain.Footprint()
    requires durable.State().Durable? && plain.State() == Plain(durable.State().state.values)
    requires durable.Settings().path != [] && !durable.State().state.writer.closed
    requires durable.Steady() && plain.Steady()
    requires durable.socket.NoStops() && durable.socket.SendsSucceed() && !Breaks(durable.socket.incoming)
    requires plain.socket.NoStops() && plain.socket.SendsSucceed() && !Breaks(plain.socket.incoming)
    requires LinesServed(durable.socket.incoming) == LinesServed(plain.socket.incoming)
    requires
      var state, lines := durable.State().state, CommandLines(LinesServed(durable.socket.incoming));
      RecordsLogged(state.values, durable.Settings(), lines) <= NumbersLeft(state.next)
    modifies durable.Footprint(), plain.Footprint()
    ensures
      var output := OutputOf(old(plain.State()), plain.Settings(), old(LinesServed(plain.socket.incoming)),
        NoFailures(|old(LinesServed(plain.socket.incoming))|));
      && durable.socket.sent == old(durable.socket.sent) + output
      && plain.socket.sent == old(plain.socket.sent) + output
    ensures durable.State().Durable? && plain.State() == Plain(durable.State().state.values)
  {
    hide Lines, Completed, StreamOf, Orderly, Breaks, EngineOf, OutputOf, RecordsLogged, NumbersLeft, NoFailures;
    hide InPieces, AnswersOf;
    ghost var raws, s := LinesServed(durable.socket.incoming), durable.State().state;
    WireRefinement(s, durable.Settings(), plain.Settings(), raws);
    var status;
    ghost var served, ios;
    status, served, ios := durable.ServeClient();
    status, served, ios := plain.ServeClient();
  }
}
