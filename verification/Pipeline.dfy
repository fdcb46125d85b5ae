/**
 From a command line to response bytes, over either storage engine
 (src/execution/command_dispatcher.cpp, src/pipeline/local_pipeline.cpp).
 */
module Pipeline {
  import opened ByteStrings
  import opened Core
  import opened Commands
  import opened Parser
  import opened Responses
  import opened InMemory
  import opened WalWriter
  import opened WalStorage

  /** The engine behind the storage interface, by its state. */
  datatype Engine = Plain(values: Store) | Durable(state: State)

  ghost function Served(engine: Engine, config: Config, call: Call, io: Io): (Engine, Answer)
  {
    match engine
    case Plain(values) =>
      var (after, answer) := Serve(values, call);
      (Plain(after), answer)
    case Durable(state) =>
      var (after, answer) := ServeDurably(state, config, call, io);
      (Durable(after), answer)
  }

  // ----- Dispatching -----

  predicate WellFormed(request: CommandRequest)
  {
    |request.arguments| == ExpectedArgumentCount(request.kind)
  }

  function CallOf(request: CommandRequest): Call
    requires WellFormed(request) && !request.kind.Ping?
  {
    match request.kind
    case Set => SetCall(request.arguments[0], request.arguments[1])
    case Get => GetCall(request.arguments[0])
    case Del => RemoveCall(request.arguments[0])
    case Exists => ExistsCall(request.arguments[0])
  }

  function RespondStatus(ok: CommandResponse, status: Status): Result<CommandResponse>
  {
    if status.Error? then Failure(status) else Success(ok)
  }

  /** A missing key is no error for DEL: it deleted 0 keys. */
  function RespondRemoved(status: Status): Result<CommandResponse>
  {
    if status.Ok? then Success(Integer(1))
    else if status.code.NotFound? then Success(Integer(0))
    else Failure(status)
  }

  function RespondGot(result: Result<Bytes>): Result<CommandResponse>
  {
    match result
    case Failure(error) => Failure(error)
    case Success(value) => Success(BulkString(value))
  }

  function RespondFound(present: Result<bool>): Result<CommandResponse>
  {
    match present
    case Failure(error) => Failure(error)
    case Success(found) => Success(Integer(if found then 1 else 0))
  }

  function Respond(call: Call, answer: Answer): Result<CommandResponse>
  {
    match answer
    case Done(status) =>
      if call.RemoveCall? then RespondRemoved(status) else RespondStatus(SimpleString(Ascii("OK")), status)
    case Got(result) => RespondGot(result)
    case Found(present) => RespondFound(present)
  }

  ghost function Dispatched(engine: Engine, config: Config, request: CommandRequest, io: Io)
    : (Engine, Result<CommandResponse>)
  {
    var status := ValidateCommandRequest(request);
    if status.Error? then (engine, Failure(status))
    else if request.kind.Ping? then (engine, Success(SimpleString(Ascii("PONG"))))
    else
      var (after, answer) := Served(engine, config, CallOf(request), io);
      (after, Respond(CallOf(request), answer))
  }

  /** One command line: the engine after it and the bytes of the response. */
  ghost function Processed(engine: Engine, config: Config, line: Bytes, io: Io): (Engine, Bytes)
  {
    var request := Parsed(line);
    if request.Failure? then (engine, SerializeStatus(request.error)) else
    var (after, result) := Dispatched(engine, config, request.value, io);
    (after, SerializeExecutionResult(result))
  }

  /** A command line matters only through its tokens. */
  lemma {:induction false} ProcessedThroughTokens(engine: Engine, config: Config, a: Bytes, b: Bytes, io: Io)
    requires Tokens(a) == Tokens(b)
    ensures Processed(engine, config, a, io) == Processed(engine, config, b, io)
  {
    ParsedThroughTokens(a, b);
    hide Parsed, Dispatched, SerializeStatus;
  }

  /** The responses to a session of command lines, in order. */
  ghost function Session(engine: Engine, config: Config, lines: seq<Bytes>, ios: seq<Io>): (Engine, seq<Bytes>)
    requires |lines| == |ios|
    decreases |lines|
  {
    if lines == [] then (engine, []) else
    var (next, response) := Processed(engine, config, lines[0], ios[0]);
    var (end, responses) := Session(next, config, lines[1..], ios[1..]);
    (end, [response] + responses)
  }

  ghost function EngineAfter(engine: Engine, config: Config, lines: seq<Bytes>, ios: seq<Io>): Engine
    requires |lines| == |ios|
  {
    Session(engine, config, lines, ios).0
  }

  ghost function ResponsesTo(engine: Engine, config: Config, lines: seq<Bytes>, ios: seq<Io>): seq<Bytes>
    requires |lines| == |ios|
  {
    Session(engine, config, lines, ios).1
  }

  /** What a system that completes every call does to `n` calls. */
  ghost function NoFailures(n: nat): (ios: seq<Io>)
    ensures |ios| == n
  {
    seq(n, i => AllOk)
  }

  lemma NoFailuresConcat(a: nat, b: nat)
    ensures NoFailures(a) + NoFailures(b) == NoFailures(a + b)
    ensures NoFailures(1) == [AllOk] && NoFailures(0) == []
  {
  }

  /** One more line at the end of a session. */
  lemma {:induction false} SessionSnoc(
      engine: Engine, config: Config, lines: seq<Bytes>, ios: seq<Io>, line: Bytes, io: Io)
    requires |lines| == |ios|
    ensures
      var last := Processed(EngineAfter(engine, config, lines, ios), config, line, io);
      && EngineAfter(engine, config, lines + [line], ios + [io]) == last.0
      && ResponsesTo(engine, config, lines + [line], ios + [io]) == ResponsesTo(engine, config, lines, ios) + [last.1]
    decreases |lines|
  {
    hide Processed;
    if lines == [] {
      var last := Processed(engine, config, line, io);
      assert lines + [line] == [line] && ios + [io] == [io];
      assert [line][1..] == [] && [io][1..] == [];
      assert Session(last.0, config, [line][1..], [io][1..]) == (last.0, []);
      assert [last.1] + [] == [] + [last.1];
    } else {
      var next := Processed(engine, config, lines[0], ios[0]);
      SessionSnoc(next.0, config, lines[1..], ios[1..], line, io);
      assert (lines + [line])[1..] == lines[1..] + [line] && (ios + [io])[1..] == ios[1..] + [io];
      ConcatAssoc([next.1], ResponsesTo(next.0, config, lines[1..], ios[1..]),
        [Processed(EngineAfter(engine, config, lines, ios), config, line, io).1]);
    }
  }

  // ----- The program's objects -----

  /** Dispatches to the durable engine when there is one, as the server runtime selects it. */
  class CommandDispatcher {
    const storage: InMemoryStorage
    const durable: WalBackedStorage?

    constructor (storage: InMemoryStorage, durable: WalBackedStorage?)
      ensures this.storage == storage && this.durable == durable
    {
      this.storage, this.durable := storage, durable;
    }

    ghost function Footprint(): set<object>
    {
      if durable == null then {storage}
      else {durable, durable.storage, durable.writer, durable.writer.fs}
    }

    ghost function State(): Engine
      reads Footprint()
    {
      if durable == null then Plain(storage.values) else Durable(durable.Abstract())
    }

    ghost function Settings(): Config
    {
      if durable == null then Config([], NoSync) else durable.writer.config
    }

    /** No system call fails for good. */
    ghost predicate Steady()
      reads Footprint()
    {
      durable != null ==> durable.writer.IsOpen() && durable.writer.fs.Steady()
    }

    /** How many system calls under the engine have failed so far. */
    ghost function Failures(): nat
      reads Footprint()
    {
      if durable == null then 0 else durable.writer.fs.failures
    }

    method SetKey(key: Bytes, value: Bytes) returns (status: Status, ghost io: Io)
      modifies Footprint()
      ensures (State(), Done(status)) == Served(old(State()), Settings(), SetCall(key, value), io)
      ensures Failures() == old(Failures()) + Failed(io)
      ensures old(Steady()) ==> Steady() && io == AllOk
    {
      io := AllOk;
      if durable != null {
        status, io := durable.Set(key, value);
      } else {
        status := storage.Set(key, value);
      }
    }

    method RemoveKey(key: Bytes) returns (status: Status, ghost io: Io)
      modifies Footprint()
      ensures (State(), Done(status)) == Served(old(State()), Settings(), RemoveCall(key), io)
      ensures Failures() == old(Failures()) + Failed(io)
      ensures old(Steady()) ==> Steady() && io == AllOk
    {
      io := AllOk;
      if durable != null {
        status, io := durable.Remove(key);
      } else {
        status := storage.Remove(key);
      }
    }

    method GetKey(key: Bytes) returns (r: Result<Bytes>)
      ensures (State(), Got(r)) == Served(State(), Settings(), GetCall(key), AllOk)
    {
      if durable != null {
        r := durable.Get(key);
      } else {
        r := storage.Get(key);
      }
    }

    method KeyExists(key: Bytes) returns (r: Result<bool>)
      ensures (State(), Found(r)) == Served(State(), Settings(), ExistsCall(key), AllOk)
    {
      if durable != null {
        r := durable.Exists(key);
      } else {
        r := storage.Exists(key);
      }
    }

    method Dispatch(request: CommandRequest) returns (r: Result<CommandResponse>, ghost io: Io)
      modifies Footprint()
      ensures (State(), r) == Dispatched(old(State()), Settings(), request, io)
      ensures Failures() == old(Failures()) + Failed(io)
      ensures old(Steady()) ==> Steady() && io == AllOk
    {
      io := AllOk;
      var validation := ValidateCommandRequest(request);
      if validation.Error? {
        return Failure(validation), io;
      }
      hide Served, ValidateCommandRequest;
      match request.kind
      case Ping =>
        r := Success(SimpleString(Ascii("PONG")));
      case Set =>
        var status;
        status, io := SetKey(request.arguments[0], request.arguments[1]);
        r := RespondStatus(SimpleString(Ascii("OK")), status);
      case Get =>
        var result := GetKey(request.arguments[0]);
        r := RespondGot(result);
      case Del =>
        var status;
        status, io := RemoveKey(request.arguments[0]);
        r := RespondRemoved(status);
      case Exists =>
        var present := KeyExists(request.arguments[0]);
        r := RespondFound(present);
    }
  }

  class LocalPipeline {
    const dispatcher: CommandDispatcher

    constructor (dispatcher: CommandDispatcher)
      ensures this.dispatcher == dispatcher
    {
      this.dispatcher := dispatcher;
    }

    method ProcessLine(line: Bytes) returns (response: Bytes, ghost io: Io)
      modifies dispatcher.Footprint()
      ensures (dispatcher.State(), response)
        == Processed(old(dispatcher.State()), dispatcher.Settings(), line, io)
      ensures dispatcher.Failures() == old(dispatcher.Failures()) + Failed(io)
      ensures old(dispatcher.Steady()) ==> dispatcher.Steady() && io == AllOk
    {
      hide Parsed, Dispatched;
      io := AllOk;
      var request := ParseCommandLine(line);
      if request.Failure? {
        return SerializeStatus(request.error), io;
      }
      var result;
      result, io := dispatcher.Dispatch(request.value);
      response := SerializeExecutionResult(result);
    }
  }
}
