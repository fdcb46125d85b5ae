/** The durable engine answers like the plain map, byte for byte, as long as the system works and numbers last. */
module Refinement {
  import opened ByteStrings
  import opened Core
  import opened Commands
  import opened Parser
  import opened Responses
  import opened WalRecords
  import opened InMemory
  import opened WalWriter
  import opened WalStorage
  import opened Pipeline
  import WalRuns
  import Decimal

  lemma MessagesDiffer()
    ensures Ascii("WAL record key must not be empty") != Ascii("key must not be empty")
    ensures Ascii("WAL record sequence number must be greater than zero") != Ascii("key must not be empty")
  {
    assert |"WAL record key must not be empty"| != |"key must not be empty"|;
    assert |"WAL record sequence number must be greater than zero"| != |"key must not be empty"|;
  }

  /**
   While the system works, the two engines give the same answer and the same map exactly unless the call needs a
   record that is not valid: an empty key or value in a SET, or a mutation after the counter has wrapped.
   */
  lemma {:induction false} EnginesAgreeExactly(s: State, config: Config, call: Call)
    requires config.path != [] && !s.writer.closed
    ensures
      var durable, plain := ServeDurably(s, config, call, AllOk), Serve(s.values, call);
      (durable.0.values == plain.0 && durable.1 == plain.1) <==> !Unloggable(s.values, s.next, call)
  {
    MessagesDiffer();
    hide Ascii;
    if Mutates(call) {
      WalRuns.MutationIsAppend(s, config, call, AllOk);
      hide ServeDurably, Appended;
      if Valid(RecordFor(s.next, call)) {
        AppendWorks(s.writer, config, RecordFor(s.next, call));
      }
    }
  }

  lemma AppendWorks(w: Writer, config: Config, record: WalRecord)
    requires config.path != [] && !w.closed && Valid(record)
    ensures Appended(w, config, record, AllOk).1 == Ok
    ensures !Appended(w, config, record, AllOk).0.closed
  {
  }

  /** An acknowledged mutation moves the counter by one, anything else leaves it; the writer stays usable. */
  lemma CallCounts(s: State, config: Config, call: Call)
    requires config.path != [] && !s.writer.closed && !Unloggable(s.values, s.next, call)
    ensures
      var after := ServeDurably(s, config, call, AllOk).0;
      var logs := call.SetCall? || (call.RemoveCall? && call.key in s.values);
      && !after.writer.closed
      && (logs && Valid(RecordFor(s.next, call)) ==> after.next == Increment(s.next))
      && (!logs ==> after.next == s.next)
  {
    if Mutates(call) {
      WalRuns.MutationIsAppend(s, config, call, AllOk);
      hide ServeDurably, Appended;
      if Valid(RecordFor(s.next, call)) {
        AppendWorks(s.writer, config, RecordFor(s.next, call));
      }
    }
  }

  /** The plain map after a line. */
  ghost function PlainAfter(values: Store, config: Config, line: Bytes): Store
  {
    var after := Processed(Plain(values), config, line, AllOk).0;
    if after.Plain? then after.values else values
  }

  /** The line sets a key or deletes one that is there, so the durable engine logs a record for it. */
  ghost predicate LineLogs(values: Store, line: Bytes)
  {
    Parsed(line).Success? &&
    var request := Parsed(line).value;
    && |request.arguments| == ExpectedArgumentCount(request.kind)
    && (request.kind.Set? || (request.kind.Del? && request.arguments[0] in values))
  }

  /** How many records a session logs, told from the plain map alone. */
  ghost function RecordsLogged(values: Store, config: Config, lines: seq<Bytes>): nat
    decreases |lines|
  {
    if lines == [] then 0 else
    (if LineLogs(values, lines[0]) then 1 else 0)
      + RecordsLogged(PlainAfter(values, config, lines[0]), config, lines[1..])
  }

  /** How many numbers are left; none once the counter has wrapped. */
  ghost function NumbersLeft(next: Uint64): nat
  {
    if next == 0 then 0 else UINT64_MAX + 1 - next as int
  }

  /** A request that the parser accepts never carries an empty key or value. */
  lemma LoggableRequest(s: State, line: Bytes)
    requires Parsed(line).Success? && !Parsed(line).value.kind.Ping?
    ensures WellFormed(Parsed(line).value)
    ensures Unloggable(s.values, s.next, CallOf(Parsed(line).value)) <==> s.next == 0 && LineLogs(s.values, line)
    ensures
      var call := CallOf(Parsed(line).value);
      && (LineLogs(s.values, line) <==> call.SetCall? || (call.RemoveCall? && call.key in s.values))
      && (LineLogs(s.values, line) && s.next != 0 ==> Valid(RecordFor(s.next, call)))
  {
    ParsedRequest(line);
    hide Parsed;
  }

  lemma LineAgrees(s: State, config: Config, line: Bytes) returns (t: State)
    requires config.path != [] && !s.writer.closed
    requires !(s.next == 0 && LineLogs(s.values, line))
    ensures Processed(Durable(s), config, line, AllOk).0 == Durable(t)
    ensures Processed(Plain(s.values), config, line, AllOk).0 == Plain(t.values)
    ensures Processed(Durable(s), config, line, AllOk).1 == Processed(Plain(s.values), config, line, AllOk).1
    ensures !t.writer.closed && t.next == if LineLogs(s.values, line) then Increment(s.next) else s.next
    ensures t.values == PlainAfter(s.values, config, line)
  {
    t := s;
    if Parsed(line).Success? {
      var request := Parsed(line).value;
      if !request.kind.Ping? && ValidateCommandRequest(request).Ok? {
        LoggableRequest(s, line);
        hide Parsed, ValidateCommandRequest, ServeDurably, Serve, SerializeExecutionResult, Respond, Unloggable;
        var call := CallOf(request);
        EnginesAgreeExactly(s, config, call);
        CallCounts(s, config, call);
        t := ServeDurably(s, config, call, AllOk).0;
        hide LineLogs, Valid;
      }
    }
  }

  /** Once the counter has wrapped, a line that would be logged is answered with an error; the plain map obeys it. */
  lemma LineDiffers(s: State, config: Config, line: Bytes)
    requires config.path != [] && !s.writer.closed
    requires s.next == 0 && LineLogs(s.values, line)
    ensures Processed(Durable(s), config, line, AllOk).1 != Processed(Plain(s.values), config, line, AllOk).1
  {
    var request := Parsed(line).value;
    LoggableRequest(s, line);
    ParsedRequest(line);
    hide Parsed;
    var call := CallOf(request);
    MessagesDiffer();
    hide Ascii, ErrorText, IntegerText;
    assert Serve(s.values, call).1 == Done(Ok);
    var refusal := ServeDurably(s, config, call, AllOk).1.status;
    assert refusal.Error? && !refusal.code.NotFound?;
    hide Serve, ServeDurably;
    assert SerializeExecutionResult(Failure(refusal))[0] == Decimal.MINUS;
  }

  /**
   While no system call fails, the durable engine's responses to a session are byte for byte those of the plain map,
   starting from the same contents, exactly if the session logs no more records than there are numbers left. Empty
   values, on which the engines differ too, cannot be typed.
   */
  lemma {:induction false} DurableRefinesPlain(s: State, config: Config, lines: seq<Bytes>)
    requires config.path != [] && !s.writer.closed
    ensures
      var durable := Session(Durable(s), config, lines, NoFailures(|lines|));
      var plain := Session(Plain(s.values), config, lines, NoFailures(|lines|));
      && (durable.1 == plain.1 <==> RecordsLogged(s.values, config, lines) <= NumbersLeft(s.next))
      && (durable.1 == plain.1 ==> durable.0.Durable? && plain.0 == Plain(durable.0.state.values))
    decreases |lines|
  {
    hide Processed, LineLogs, PlainAfter, Session;
    if lines == [] {
      SessionOfNothing(Durable(s), config);
      SessionOfNothing(Plain(s.values), config);
    } else {
      SessionCons(Durable(s), config, lines);
      SessionCons(Plain(s.values), config, lines);
      if s.next == 0 && LineLogs(s.values, lines[0]) {
        LineDiffers(s, config, lines[0]);
        var ios := NoFailures(|lines|);
        assert Session(Durable(s), config, lines, ios).1[0] != Session(Plain(s.values), config, lines, ios).1[0];
      } else {
        var t := LineAgrees(s, config, lines[0]);
        DurableRefinesPlain(t, config, lines[1..]);
        var durable := Session(Durable(s), config, lines, NoFailures(|lines|)).1;
        var plain := Session(Plain(s.values), config, lines, NoFailures(|lines|)).1;
        assert durable[1..] == Session(Durable(t), config, lines[1..], NoFailures(|lines| - 1)).1;
        assert plain[1..] == Session(Plain(t.values), config, lines[1..], NoFailures(|lines| - 1)).1;
      }
    }
  }

  lemma SessionOfNothing(engine: Engine, config: Config)
    ensures Session(engine, config, [], NoFailures(0)) == (engine, [])
  {
  }

  /** The first line of a session, and the rest. */
  lemma SessionCons(engine: Engine, config: Config, lines: seq<Bytes>)
    requires lines != []
    ensures
      var first := Processed(engine, config, lines[0], AllOk);
      var rest := Session(first.0, config, lines[1..], NoFailures(|lines| - 1));
      Session(engine, config, lines, NoFailures(|lines|)) == (rest.0, [first.1] + rest.1)
  {
    assert NoFailures(|lines|)[1..] == NoFailures(|lines| - 1);
    hide Processed;
  }

  /** The engines do differ on an empty value: the plain map stores it, the log refuses it. */
  lemma {:induction false} EnginesDifferOnEmptyValue(s: State, config: Config, key: Bytes)
    requires config.path != [] && !s.writer.closed && key != []
    ensures Serve(s.values, SetCall(key, [])).1 == Done(Ok)
    ensures ServeDurably(s, config, SetCall(key, []), AllOk).1 != Done(Ok)
  {
  }
}
