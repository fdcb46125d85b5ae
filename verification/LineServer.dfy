/**
 One client connection: bytes arrive in pieces, complete lines are executed as
 they appear, and responses go back possibly in pieces
 (src/network/tcp_server.cpp:178-306).
 */
module LineServer {
  import opened ByteStrings
  import opened Core
  import opened WalWriter
  import opened Pipeline

  // ----- Splitting a stream into lines -----

  /** The lines of `s` that a line feed ends. */
  ghost function Completed(s: Bytes): seq<Bytes>
    decreases |s|
  {
    var i := Find(s, LF);
    if i == |s| then [] else [s[..i]] + Completed(s[i + 1..])
  }

  /** What follows the last line feed. */
  ghost function Tail(s: Bytes): Bytes
    decreases |s|
  {
    var i := Find(s, LF);
    if i == |s| then s else Tail(s[i + 1..])
  }

  /** The lines of a stream: the completed ones, and a nonempty tail. */
  lemma {:induction false} LinesAreCompletedAndTail(s: Bytes)
    ensures Lines(s) == Completed(s) + (if Tail(s) == [] then [] else [Tail(s)])
    ensures FreeOf(Tail(s), LF)
    decreases |s|
  {
    var i := Find(s, LF);
    if i < |s| {
      LinesAreCompletedAndTail(s[i + 1..]);
    }
  }

  lemma CompletedOfLine(line: Bytes, rest: Bytes)
    requires FreeOf(line, LF)
    ensures Completed(line + [LF] + rest) == [line] + Completed(rest)
    ensures Tail(line + [LF] + rest) == Tail(rest)
  {
    var s := line + [LF] + rest;
    assert s[|line|] == LF;
    assert forall k :: 0 <= k < |line| ==> s[k] == line[k];
    assert Find(s, LF) == |line|;
    assert s[..|line|] == line && s[|line| + 1..] == rest;
  }

  /** Splitting may stop anywhere and go on with the tail it kept. */
  lemma {:induction false} CompletedAppend(a: Bytes, b: Bytes)
    ensures Completed(a + b) == Completed(a) + Completed(Tail(a) + b)
    ensures Tail(a + b) == Tail(Tail(a) + b)
    decreases |a|
  {
    var i := Find(a, LF);
    if i == |a| {
      assert [] + Completed(a + b) == Completed(a + b);
    } else {
      var line, rest := a[..i], a[i + 1..];
      CutAt(a, i);
      CompletedAppend(rest, b);
      CompletedOfLine(line, rest);
      ConcatAssoc(line + [LF], rest, b);
      CompletedOfLine(line, rest + b);
      hide Completed, Tail, Find;
      ConcatAssoc([line], Completed(rest), Completed(Tail(rest) + b));
    }
  }

  /** Feeding chunks one by one: the lines executed so far and the pending input. */
  ghost function Fed(chunks: seq<Bytes>): (seq<Bytes>, Bytes)
  {
    if chunks == [] then ([], []) else
    var before := Fed(chunks[..|chunks| - 1]);
    var input := before.1 + chunks[|chunks| - 1];
    (before.0 + Completed(input), Tail(input))
  }

  /** However the stream is cut, the lines executed are those of the whole stream, and what is pending is its tail. */
  lemma {:induction false} FedIsWhole(chunks: seq<Bytes>)
    ensures Fed(chunks) == (Completed(Flat(chunks)), Tail(Flat(chunks)))
    ensures FreeOf(Fed(chunks).1, LF)
  {
    LinesAreCompletedAndTail(Flat(chunks));
    if chunks != [] {
      var front, last := chunks[..|chunks| - 1], chunks[|chunks| - 1];
      FedIsWhole(front);
      CompletedAppend(Flat(front), last);
      hide Completed, Tail;
    }
  }

  /** Two ways of cutting the same stream execute the same lines and keep the same pending input. */
  lemma {:induction false} FragmentationIndependence(a: seq<Bytes>, b: seq<Bytes>)
    requires Flat(a) == Flat(b)
    ensures Fed(a) == Fed(b)
  {
    FedIsWhole(a);
    FedIsWhole(b);
    hide Fed;
  }

  // ----- The socket -----

  datatype Received =
    | Chunk(bytes: Bytes)
    | Interruption
    | NothingYet
    | IdleTooLong
    | Broken(text: Bytes)

  datatype Sending = Takes(count: nat) | Later | Fault(text: Bytes)

  /** The client's bytes up to the end of the stream, or up to where reading is given up. */
  ghost function StreamOf(incoming: seq<Received>): Bytes
  {
    if incoming == [] then [] else
    match incoming[0]
    case Chunk(bytes) => if bytes == [] then [] else bytes + StreamOf(incoming[1..])
    case Interruption => StreamOf(incoming[1..])
    case NothingYet => StreamOf(incoming[1..])
    case IdleTooLong => []
    case Broken(_) => []
  }

  /** The client closes its side before anything goes wrong. */
  ghost predicate Orderly(incoming: seq<Received>)
  {
    incoming == [] || incoming[0] == Chunk([])
      || (!incoming[0].IdleTooLong? && !incoming[0].Broken? && Orderly(incoming[1..]))
  }

  /** Receiving fails before the client closes its side or has been idle for too long. */
  ghost predicate Breaks(incoming: seq<Received>)
  {
    incoming != [] && incoming[0] != Chunk([]) && !incoming[0].IdleTooLong?
      && (incoming[0].Broken? || Breaks(incoming[1..]))
  }

  /** The stream is the pieces received before the client closed its side, was idle for too long, or reading failed. */
  lemma {:induction false} StreamIsItsPieces(incoming: seq<Received>) returns (n: nat)
    ensures n <= |incoming|
    ensures forall i :: 0 <= i < n ==>
      incoming[i].Interruption? || incoming[i].NothingYet? || (incoming[i].Chunk? && incoming[i].bytes != [])
    ensures n == |incoming| || incoming[n] == Chunk([]) || incoming[n].IdleTooLong? || incoming[n].Broken?
    ensures StreamOf(incoming) == Flat(PiecesIn(incoming[..n]))
    ensures Orderly(incoming) <==> n == |incoming| || incoming[n] == Chunk([])
    ensures Breaks(incoming) <==> n < |incoming| && incoming[n].Broken?
  {
    if incoming == [] || incoming[0] == Chunk([]) || incoming[0].IdleTooLong? || incoming[0].Broken? {
      n := 0;
    } else {
      var rest := incoming[1..];
      n := StreamIsItsPieces(rest);
      n := n + 1;
      assert forall i :: 0 < i < |incoming| ==> incoming[i] == rest[i - 1];
      PiecesSplit(incoming, n);
      hide Flat, PiecesIn;
    }
  }

  lemma PiecesSplit(incoming: seq<Received>, n: nat)
    requires 0 < n <= |incoming|
    ensures Flat(PiecesIn(incoming[..n]))
      == (if incoming[0].Chunk? then incoming[0].bytes else []) + Flat(PiecesIn(incoming[1..][..n - 1]))
  {
    var first, rest := PiecesIn(incoming[..1]), PiecesIn(incoming[1..][..n - 1]);
    assert PiecesIn(incoming[..n]) == first + rest;
    FlatConcat(first, rest);
    assert first[..0] == [] && Flat(first) == first[0];
  }

  /** What each receive brought. */
  ghost function PiecesIn(incoming: seq<Received>): (pieces: seq<Bytes>)
    ensures |pieces| == |incoming|
  {
    seq(|incoming|, i requires 0 <= i < |incoming| => if incoming[i].Chunk? then incoming[i].bytes else [])
  }

  function SocketError(prefix: string, text: Bytes): ErrorStatus
  {
    Error(Unavailable, Ascii(prefix) + Ascii(": ") + text)
  }

  ghost predicate NeverStops(stops: seq<bool>)
  {
    forall i :: 0 <= i < |stops| ==> !stops[i]
  }

  ghost predicate NeverFails(sends: seq<Sending>)
  {
    forall i :: 0 <= i < |sends| ==> sends[i].Later? || (sends[i].Takes? && sends[i].count > 0)
  }

  /** How many polls of the stop flag find it down before one finds it raised. */
  ghost function Patience(stops: seq<bool>): nat
  {
    if stops == [] || stops[0] then 0 else 1 + Patience(stops[1..])
  }

  /** How many sends are still to be told to wait. */
  ghost function Waits(sends: seq<Sending>): nat
  {
    if sends == [] then 0 else (if sends[0].Later? then 1 else 0) + Waits(sends[1..])
  }

  /** How many sends are still to fail or to take nothing. */
  ghost function Faults(sends: seq<Sending>): nat
  {
    if sends == [] then 0 else (if sends[0].Fault? || sends[0] == Takes(0) then 1 else 0) + Faults(sends[1..])
  }

  class ClientSocket {
    var incoming: seq<Received>
    var sends: seq<Sending>
    var stops: seq<bool>
    var sent: Bytes
    ghost var polled: bool // the stop flag was found down since the last receive
    ghost var blind: nat // how often it was read without that

    constructor (incoming: seq<Received>, sends: seq<Sending>, stops: seq<bool>)
      ensures this.incoming == incoming && this.sends == sends && this.stops == stops && sent == []
    {
      this.incoming, this.sends, this.stops, this.sent := incoming, sends, stops, [];
      polled, blind := false, 0;
    }

    /** Nobody asks the server to stop while this client is served. */
    ghost predicate NoStops()
      reads this`stops
    {
      NeverStops(stops)
    }

    ghost predicate StopPending()
      reads this`stops
    {
      stops != [] && stops[0]
    }

    ghost predicate SendsSucceed()
      reads this`sends
    {
      NeverFails(sends)
    }

    /** Polls the stop flag, which a signal sets and nothing clears while the server runs. */
    method IsStopRequested() returns (stop: bool)
      modifies this`stops, this`polled
      ensures polled == (old(polled) || !stop)
      ensures stop == old(StopPending()) && (stop ==> stops == old(stops))
      ensures NoStops() == old(NoStops()) && (NoStops() ==> !stop)
      ensures SendsSucceed() == old(SendsSucceed())
      ensures Patience(stops) <= old(Patience(stops))
      ensures stop || NoStops() || Patience(stops) + 1 == old(Patience(stops))
    {
      stop := stops != [] && stops[0];
      if !stop && stops != [] {
        assert stops == [false] + stops[1..];
        stops := stops[1..];
      }
      polled := polled || !stop;
    }

    /** recv(2): an exhausted script is the end of the stream. */
    method Recv() returns (received: Received)
      modifies this`incoming, this`polled, this`blind
      ensures !polled && blind == old(blind) + if old(polled) then 0 else 1
      ensures received == if old(incoming) == [] then Chunk([]) else old(incoming)[0]
      ensures incoming == if old(incoming) == [] then [] else old(incoming)[1..]
      ensures NoStops() == old(NoStops()) && SendsSucceed() == old(SendsSucceed())
    {
      received := if incoming == [] then Chunk([]) else incoming[0];
      incoming := if incoming == [] then [] else incoming[1..];
      blind := blind + if polled then 0 else 1;
      polled := false;
    }

    /** send(2): an exhausted script takes everything. */
    method Send(bytes: Bytes) returns (outcome: Sending)
      requires bytes != []
      modifies this`sends, this`sent
      ensures |sends| < |old(sends)| || (old(sends) == sends == [] && outcome == Takes(|bytes|))
      ensures old(Waits(sends)) == Waits(sends) + if outcome.Later? then 1 else 0
      ensures old(Faults(sends)) == Faults(sends) + if outcome.Fault? || outcome == Takes(0) then 1 else 0
      ensures outcome.Takes? ==> outcome.count <= |bytes|
      ensures sent == old(sent) + if outcome.Takes? then bytes[..outcome.count] else []
      ensures old(SendsSucceed()) ==> SendsSucceed() && !outcome.Fault? && (outcome.Takes? ==> outcome.count > 0)
    {
      outcome := if sends == [] then Takes(|bytes|) else sends[0];
      sends := if sends == [] then [] else sends[1..];
      if outcome.Takes? {
        outcome := Takes(if outcome.count < |bytes| then outcome.count else |bytes|);
        sent := sent + bytes[..outcome.count];
      } else {
        assert sent + [] == sent;
      }
    }

    /**
     Sends a part of `bytes`; all of it if the result is OK and nobody asked to stop. It polls the stop flag each time
     it is told to wait, and waits no more once that is raised.
     */
    method SendAll(bytes: Bytes) returns (status: Status, ghost reached: nat)
      modifies this`sends, this`sent, this`stops, this`polled
      ensures reached <= |bytes| && sent == old(sent) + bytes[..reached]
      ensures NoStops() == old(NoStops()) && (NoStops() && status.Ok? ==> reached == |bytes|)
      ensures old(SendsSucceed()) ==> SendsSucceed() && status.Ok?
      ensures old(Faults(sends)) == Faults(sends) + if status.Ok? then 0 else 1
      ensures old(polled) ==> polled
      ensures status.Error? ==> status.code.Unavailable?
      ensures Patience(stops) <= old(Patience(stops))
      ensures NoStops() || old(Waits(sends)) - Waits(sends) <= old(Patience(stops)) - Patience(stops) + 1
    {
      hide Waits, Faults, Patience;
      var totalSent := 0;
      assert sent + bytes[..0] == sent;
      while totalSent < |bytes|
        invariant totalSent <= |bytes| && sent == old(sent) + bytes[..totalSent]
        invariant NoStops() == old(NoStops())
        invariant old(SendsSucceed()) ==> SendsSucceed()
        invariant Faults(sends) == old(Faults(sends))
        invariant old(polled) ==> polled
        invariant Patience(stops) <= old(Patience(stops))
        invariant NoStops() || old(Waits(sends)) - Waits(sends) <= old(Patience(stops)) - Patience(stops)
        decreases |sends|, |bytes| - totalSent
      {
        var outcome := Send(bytes[totalSent..]);
        match outcome
        case Later =>
          assert old(sent) + bytes[..totalSent] + [] == old(sent) + bytes[..totalSent];
          var stop := IsStopRequested();
          if stop {
            return Ok, totalSent;
          }
        case Fault(text) =>
          assert old(sent) + bytes[..totalSent] + [] == old(sent) + bytes[..totalSent];
          return SocketError("failed to write client connection", text), totalSent;
        case Takes(count) =>
          AppendSlices(old(sent), bytes, totalSent, count);
          if count == 0 {
            return UnavailableError("failed to write client connection: zero bytes written"), totalSent;
          }
          totalSent := totalSent + count;
      }
      return Ok, totalSent;
    }
  }

  // ----- Serving -----

  ghost function CommandLines(raws: seq<Bytes>): (lines: seq<Bytes>)
    ensures |lines| == |raws|
  {
    seq(|raws|, i requires 0 <= i < |raws| => StripReturn(raws[i]))
  }

  /** What a session of raw lines does: the engine after it, and everything it responds. */
  ghost function EngineOf(engine: Engine, config: Config, raws: seq<Bytes>, ios: seq<Io>): Engine
    requires |raws| == |ios|
  {
    EngineAfter(engine, config, CommandLines(raws), ios)
  }

  ghost function AnswersOf(engine: Engine, config: Config, raws: seq<Bytes>, ios: seq<Io>): (answers: seq<Bytes>)
    requires |raws| == |ios|
    ensures |answers| == |raws|
  {
    SessionLength(engine, config, CommandLines(raws), ios);
    ResponsesTo(engine, config, CommandLines(raws), ios)
  }

  ghost function OutputOf(engine: Engine, config: Config, raws: seq<Bytes>, ios: seq<Io>): Bytes
    requires |raws| == |ios|
  {
    Flat(AnswersOf(engine, config, raws, ios))
  }

  lemma {:induction false} SessionLength(engine: Engine, config: Config, lines: seq<Bytes>, ios: seq<Io>)
    requires |lines| == |ios|
    ensures |ResponsesTo(engine, config, lines, ios)| == |lines|
    decreases |lines|
  {
    hide Processed;
    if lines != [] {
      SessionLength(Processed(engine, config, lines[0], ios[0]).0, config, lines[1..], ios[1..]);
    }
  }

  lemma {:induction false} OneMoreLine(
      engine: Engine, config: Config, raws: seq<Bytes>, ios: seq<Io>, raw: Bytes, io: Io)
    requires |raws| == |ios|
    ensures
      var last := Processed(EngineOf(engine, config, raws, ios), config, StripReturn(raw), io);
      && EngineOf(engine, config, raws + [raw], ios + [io]) == last.0
      && AnswersOf(engine, config, raws + [raw], ios + [io]) == AnswersOf(engine, config, raws, ios) + [last.1]
      && OutputOf(engine, config, raws + [raw], ios + [io]) == OutputOf(engine, config, raws, ios) + last.1
  {
    hide Processed, Session;
    var lines := CommandLines(raws);
    assert CommandLines(raws + [raw]) == lines + [StripReturn(raw)];
    SessionSnoc(engine, config, lines, ios, StripReturn(raw), io);
    var responses := ResponsesTo(engine, config, lines, ios);
    var last := Processed(EngineAfter(engine, config, lines, ios), config, StripReturn(raw), io).1;
    assert (responses + [last])[..|responses|] == responses;
  }

  /** Executing the lines leads from `engine` to `current`. */
  ghost predicate Ran(engine: Engine, config: Config, raws: seq<Bytes>, ios: seq<Io>, current: Engine)
  {
    |raws| == |ios| && current == EngineOf(engine, config, raws, ios)
  }

  /** What was sent after `before` is the responses to the lines, or a first part of them unless it is complete. */
  ghost predicate Answered(engine: Engine, config: Config, raws: seq<Bytes>, ios: seq<Io>,
      before: Bytes, sent: Bytes, complete: bool)
  {
    && |raws| == |ios|
    && sent <= before + OutputOf(engine, config, raws, ios)
    && (complete ==> sent == before + OutputOf(engine, config, raws, ios))
  }

  /** What was sent after `before` is, answer by answer, the answer or a first part of it. */
  ghost predicate InPieces(before: Bytes, sent: Bytes, answers: seq<Bytes>)
  {
    exists pieces :: PiecesOf(pieces, answers) && sent == before + Flat(pieces)
  }

  ghost predicate PiecesOf(pieces: seq<Bytes>, answers: seq<Bytes>)
  {
    |pieces| == |answers| && forall i :: 0 <= i < |pieces| ==> pieces[i] <= answers[i]
  }

  lemma NoPieces(before: Bytes)
    ensures InPieces(before, before, [])
  {
    assert PiecesOf([], []) && before + Flat([]) == before;
  }

  lemma OneMorePiece(before: Bytes, sent: Bytes, answers: seq<Bytes>, piece: Bytes, answer: Bytes)
    requires InPieces(before, sent, answers) && piece <= answer
    ensures InPieces(before, sent + piece, answers + [answer])
  {
    var pieces :| PiecesOf(pieces, answers) && sent == before + Flat(pieces);
    var longer := pieces + [piece];
    assert longer[..|pieces|] == pieces;
    ConcatAssoc(before, Flat(pieces), piece);
    assert PiecesOf(longer, answers + [answer]);
    assert sent + piece == before + Flat(longer);
  }

  lemma MorePieces(before: Bytes, middle: Bytes, sent: Bytes, a: seq<Bytes>, b: seq<Bytes>)
    requires InPieces(before, middle, a) && InPieces(middle, sent, b)
    ensures InPieces(before, sent, a + b)
  {
    var first :| PiecesOf(first, a) && middle == before + Flat(first);
    var second :| PiecesOf(second, b) && sent == middle + Flat(second);
    FlatConcat(first, second);
    ConcatAssoc(before, Flat(first), Flat(second));
    hide Flat;
    assert PiecesOf(first + second, a + b);
    assert sent == before + Flat(first + second);
  }

  /** No system call failed while the lines were executed. */
  ghost predicate Untroubled(ios: seq<Io>)
  {
    ios == NoFailures(|ios|)
  }

  lemma NoTroubleYet()
    ensures Untroubled([])
  {
  }

  /**
   The lines were executed, and the client was sent pieces of their answers after `before`: if nobody stops the
   server, all of the output or, unless it is complete, a first part of it.
   */
  ghost predicate Accounted(engine: Engine, config: Config, raws: seq<Bytes>, ios: seq<Io>, current: Engine,
      before: Bytes, sent: Bytes, noStops: bool, complete: bool)
  {
    && Ran(engine, config, raws, ios, current)
    && InPieces(before, sent, AnswersOf(engine, config, raws, ios))
    && (noStops ==> Answered(engine, config, raws, ios, before, sent, complete))
  }

  /** A served connection: a socket and the pipeline its lines go to. */
  class ClientConnection {
    const socket: ClientSocket
    const pipeline: LocalPipeline

    constructor (socket: ClientSocket, pipeline: LocalPipeline)
      ensures this.socket == socket && this.pipeline == pipeline
    {
      this.socket, this.pipeline := socket, pipeline;
    }

    ghost function Footprint(): set<object>
    {
      {socket} + pipeline.dispatcher.Footprint()
    }

    ghost function Settings(): Config
    {
      pipeline.dispatcher.Settings()
    }

    ghost function State(): Engine
      reads pipeline.dispatcher.Footprint()
    {
      pipeline.dispatcher.State()
    }

    /** No system call under the engine fails for good. */
    ghost predicate Steady()
      reads pipeline.dispatcher.Footprint()
    {
      pipeline.dispatcher.Steady()
    }

    /** `Accounted` for this connection as it is. */
    ghost predicate Executed(engine: Engine, before: Bytes, raws: seq<Bytes>, ios: seq<Io>, complete: bool)
      reads Footprint()
    {
      Accounted(engine, Settings(), raws, ios, State(), before, socket.sent, socket.NoStops(), complete)
    }

    // The socket's operations leave the pipeline alone.

    method PollStop() returns (stop: bool)
      modifies Footprint()
      ensures State() == old(State()) && Steady() == old(Steady())
      ensures socket.sent == old(socket.sent) && socket.incoming == old(socket.incoming)
      ensures socket.blind == old(socket.blind) && socket.polled == (old(socket.polled) || !stop)
      ensures stop == old(socket.StopPending()) && (stop ==> socket.StopPending())
      ensures socket.NoStops() == old(socket.NoStops()) && (socket.NoStops() ==> !stop)
      ensures socket.SendsSucceed() == old(socket.SendsSucceed())
    {
      stop := socket.IsStopRequested();
    }

    method Receive() returns (received: Received)
      modifies Footprint()
      ensures State() == old(State()) && Steady() == old(Steady()) && socket.sent == old(socket.sent)
      ensures !socket.polled && socket.blind == old(socket.blind) + if old(socket.polled) then 0 else 1
      ensures received == if old(socket.incoming) == [] then Chunk([]) else old(socket.incoming)[0]
      ensures socket.incoming == if old(socket.incoming) == [] then [] else old(socket.incoming)[1..]
      ensures socket.NoStops() == old(socket.NoStops()) && socket.SendsSucceed() == old(socket.SendsSucceed())
    {
      received := socket.Recv();
    }

    /** Sends `piece` of the response: all of it if the result is OK and nobody asked to stop. */
    method Respond(response: Bytes) returns (status: Status, ghost piece: Bytes)
      modifies Footprint()
      ensures State() == old(State()) && Steady() == old(Steady()) && socket.incoming == old(socket.incoming)
      ensures socket.NoStops() == old(socket.NoStops())
      ensures socket.blind == old(socket.blind) && (old(socket.polled) ==> socket.polled)
      ensures socket.sent == old(socket.sent) + piece && piece <= response
      ensures socket.NoStops() && status.Ok? ==> piece == response
      ensures old(socket.SendsSucceed()) ==> socket.SendsSucceed() && status.Ok?
    {
      ghost var reached;
      status, reached := socket.SendAll(response);
      piece := response[..reached];
      assert response[..|response|] == response;
    }

    method ProcessLineAndSendResponse(rawLine: Bytes)
      returns (status: Status, ghost io: Io, ghost response: Bytes, ghost piece: Bytes)
      modifies Footprint()
      ensures (State(), response) == Processed(old(State()), Settings(), StripReturn(rawLine), io)
      ensures old(Steady()) ==> Steady() && io == AllOk
      ensures socket.incoming == old(socket.incoming)
      ensures socket.NoStops() == old(socket.NoStops())
      ensures socket.blind == old(socket.blind) && (old(socket.polled) ==> socket.polled)
      ensures socket.sent == old(socket.sent) + piece && piece <= response
      ensures socket.NoStops() && status.Ok? ==> piece == response
      ensures old(socket.SendsSucceed()) ==> socket.SendsSucceed() && status.Ok?
    {
      var text;
      text, io := pipeline.ProcessLine(StripReturn(rawLine));
      response := text;
      status, piece := Respond(text);
    }

    /**
     Executes every complete line of `input` and keeps the rest. `raws` are the lines executed; with a failing
     send that may be only the first of them.
     */
    method ProcessBufferedLines(input: Bytes)
      returns (status: Status, rest: Bytes, ghost raws: seq<Bytes>, ghost ios: seq<Io>)
      modifies Footprint()
      ensures |raws| == |ios|
      ensures raws <= Completed(input)
      ensures status.Ok? ==> raws == Completed(input) && rest == Tail(input)
      ensures Executed(old(State()), old(socket.sent), raws, ios, status.Ok?)
      ensures old(Steady()) ==> Steady() && Untroubled(ios)
      ensures socket.incoming == old(socket.incoming) && socket.NoStops() == old(socket.NoStops())
      ensures socket.blind == old(socket.blind) && (old(socket.polled) ==> socket.polled)
      ensures old(socket.SendsSucceed()) ==> socket.SendsSucceed() && status.Ok?
    {
      rest, raws, ios := input, [], [];
      NothingRan(State(), Settings(), socket.sent);
      NoFailuresConcat(0, 0);
      assert [] + Completed(input) == Completed(input);
      var newlinePosition := Find(rest, LF);
      while newlinePosition < |rest|
        invariant newlinePosition == Find(rest, LF)
        invariant |raws| == |ios|
        invariant Completed(input) == raws + Completed(rest) && Tail(input) == Tail(rest)
        invariant Executed(old(State()), old(socket.sent), raws, ios, true)
        invariant old(Steady()) ==> Steady() && Untroubled(ios)
        invariant socket.incoming == old(socket.incoming) && socket.NoStops() == old(socket.NoStops())
        invariant socket.blind == old(socket.blind) && (old(socket.polled) ==> socket.polled)
        invariant old(socket.SendsSucceed()) ==> socket.SendsSucceed()
        decreases |rest|
      {
        hide Completed, Tail, Processed, Ran, Answered, InPieces, NoFailures;
        var line := rest[..newlinePosition];
        NextCompleted(rest, newlinePosition);
        NextTail(rest, newlinePosition);
        ConcatAssoc(raws, [line], Completed(rest[newlinePosition + 1..]));
        ghost var io, response, piece;
        ghost var was, sent := State(), socket.sent;
        status, io, response, piece := ProcessLineAndSendResponse(line);
        RanFurther(old(State()), Settings(), raws, ios, was, old(socket.sent), sent, line, io, piece);
        NoFailuresConcat(|ios|, 1);
        raws, ios := raws + [line], ios + [io];
        if status.Error? {
          return;
        }
        rest := rest[newlinePosition + 1..];
        newlinePosition := Find(rest, LF);
      }
      assert raws + [] == raws;
      return Ok, rest, raws, ios;
    }

    /** Appends what was received to the pending input and executes the lines that completes. */
    method ProcessReceived(pending: Bytes, bytes: Bytes,
        ghost engine: Engine, ghost before: Bytes, ghost raws: seq<Bytes>, ghost ios: seq<Io>)
      returns (status: Status, rest: Bytes, ghost allRaws: seq<Bytes>, ghost allIos: seq<Io>)
      requires Executed(engine, before, raws, ios, true)
      modifies Footprint()
      ensures allRaws <= raws + Completed(pending + bytes) && Executed(engine, before, allRaws, allIos, status.Ok?)
      ensures status.Ok? ==> allRaws == raws + Completed(pending + bytes) && rest == Tail(pending + bytes)
      ensures old(Steady()) ==> Steady() && (Untroubled(ios) ==> Untroubled(allIos))
      ensures socket.incoming == old(socket.incoming) && socket.NoStops() == old(socket.NoStops())
      ensures socket.blind == old(socket.blind) && (old(socket.polled) ==> socket.polled)
      ensures old(socket.SendsSucceed()) ==> socket.SendsSucceed() && status.Ok?
    {
      hide Completed, Tail, Ran, Answered, InPieces, AnswersOf, NoFailures, State, Settings, Steady;
      ghost var was, sent, more, moreIos := State(), socket.sent, [], [];
      status, rest, more, moreIos := ProcessBufferedLines(pending + bytes);
      RanOn(engine, Settings(), raws, ios, was, before, sent, more, moreIos, State(), socket.sent, status.Ok?);
      NoFailuresConcat(|ios|, |moreIos|);
      allRaws, allIos := raws + more, ios + moreIos;
    }

    /** Executes what the client left without a line feed, unless a stop is requested. */
    method ProcessTail(
        pending: Bytes, ghost engine: Engine, ghost before: Bytes, ghost raws: seq<Bytes>, ghost ios: seq<Io>)
      returns (status: Status, ghost allRaws: seq<Bytes>, ghost allIos: seq<Io>)
      requires Executed(engine, before, raws, ios, true)
      modifies Footprint()
      ensures Executed(engine, before, allRaws, allIos, status.Ok?)
      ensures allRaws == if pending == [] || old(socket.StopPending()) then raws else raws + [pending]
      ensures socket.NoStops() && pending != [] ==> allRaws == raws + [pending]
      ensures old(Steady()) ==> Steady() && (Untroubled(ios) ==> Untroubled(allIos))
      ensures socket.NoStops() == old(socket.NoStops())
      ensures socket.blind == old(socket.blind) && (old(socket.polled) ==> socket.polled)
      ensures allRaws == raws || socket.polled
      ensures old(socket.SendsSucceed()) ==> status.Ok?
    {
      hide Ran, Answered, InPieces, NoFailures, Processed;
      allRaws, allIos := raws, ios;
      var stop := PollStop();
      if pending == [] || stop {
        return Ok, raws, ios;
      }
      ghost var io, response, piece;
      ghost var was, sent := State(), socket.sent;
      status, io, response, piece := ProcessLineAndSendResponse(pending);
      RanFurther(engine, Settings(), raws, ios, was, before, sent, pending, io, piece);
      NoFailuresConcat(|ios|, 1);
      allRaws, allIos := raws + [pending], ios + [io];
    }

    /**
     Receives until the client closes its side or a stop is requested, and then returns with `ended` and what is
     pending; or it gives up, or times out.
     */
    method ReceiveLines()
      returns (status: Status, ended: bool, pending: Bytes, ghost raws: seq<Bytes>, ghost ios: seq<Io>)
      modifies Footprint()
      ensures Within(raws, StreamOf(old(socket.incoming)))
      ensures Executed(old(State()), old(socket.sent), raws, ios, status.Ok?)
      ensures old(Steady()) ==> Steady() && Untroubled(ios)
      ensures socket.NoStops() == old(socket.NoStops()) && socket.blind == old(socket.blind)
      ensures ended ==> status.Ok? && (socket.StopPending() || Ended(StreamOf(old(socket.incoming)), raws, pending))
      ensures old(socket.NoStops() && socket.SendsSucceed()) ==>
        && socket.SendsSucceed() && (ended ==> Ended(StreamOf(old(socket.incoming)), raws, pending))
        && (status.Ok? <==> !Breaks(old(socket.incoming))) && (ended <==> Orderly(old(socket.incoming)))
        && (!ended ==> raws == Completed(StreamOf(old(socket.incoming))))
    {
      hide Within, Ended, StreamOf, Accounted, Remaining, Orderly, Breaks, SocketError;
      hide socket.NoStops, socket.StopPending, socket.SendsSucceed, State, Steady, Footprint, Settings;
      hide Completed, Tail, Untroubled;
      ghost var engine, before, stream := State(), socket.sent, StreamOf(socket.incoming);
      pending, raws, ios := [], [], [];
      NothingRan(engine, Settings(), before);
      assert Untroubled(ios) by {
        NoTroubleYet();
      }
      RemainingAtStart(stream);
      var stop := PollStop();
      while !stop
        invariant Remaining(stream, raws, pending, StreamOf(socket.incoming))
        invariant socket.blind == old(socket.blind) && (socket.polled || stop)
        invariant old(Orderly(socket.incoming)) == Orderly(socket.incoming)
        invariant old(Breaks(socket.incoming)) == Breaks(socket.incoming)
        invariant Executed(engine, before, raws, ios, true)
        invariant old(Steady()) ==> Steady() && Untroubled(ios)
        invariant stop ==> socket.StopPending()
        invariant socket.NoStops() == old(socket.NoStops()) && (socket.NoStops() ==> !stop)
        invariant old(socket.SendsSucceed()) ==> socket.SendsSucceed()
        decreases |socket.incoming|
      {
        OrderlyStep(socket.incoming);
        RemainingStep(stream, raws, pending, socket.incoming);
        var outcome := Receive();
        match outcome {
          case Interruption =>
            stop := PollStop();
            if stop {
              return Ok, false, pending, raws, ios;
            }
          case NothingYet =>
            stop := PollStop();
            if stop {
              return Ok, false, pending, raws, ios;
            }
          case IdleTooLong =>
            stop := PollStop();
            return Ok, false, pending, raws, ios;
          case Broken(text) =>
            AccountedInPart(engine, Settings(), raws, ios, State(), before, socket.sent, socket.NoStops());
            return SocketError("failed to read client connection", text), false, pending, raws, ios;
          case Chunk(bytes) =>
            if bytes == [] {
              return Ok, true, pending, raws, ios;
            }
            ghost var reached := raws + Completed(pending + bytes);
            status, pending, raws, ios := ProcessReceived(pending, bytes, engine, before, raws, ios);
            if status.Error? {
              WithinPart(raws, reached, stream);
              return status, false, pending, raws, ios;
            }
        }
        stop := PollStop();
      }
      RemainingWithin(stream, raws, pending, StreamOf(socket.incoming));
      return Ok, true, pending, raws, ios;
    }

    /**
     Serves the client until its stream ends or something gives up. However the stream was cut into pieces, the
     lines executed are the lines of the whole stream, and the bytes sent are the responses to them, in order.
     It never reads, and never executes what follows the last line feed, without having found the stop flag down since
     it last read.
     */
    method ServeClient() returns (status: Status, ghost raws: seq<Bytes>, ghost ios: seq<Io>)
      modifies Footprint()
      ensures raws <= Lines(StreamOf(old(socket.incoming)))
      ensures Executed(old(State()), old(socket.sent), raws, ios, status.Ok?)
      ensures old(Steady()) ==> Steady() && Untroubled(ios)
      ensures socket.NoStops() == old(socket.NoStops()) && socket.blind == old(socket.blind)
      ensures raws <= Completed(StreamOf(old(socket.incoming))) || socket.polled
      ensures old(socket.NoStops() && socket.SendsSucceed()) ==>
        && (status.Ok? <==> !Breaks(old(socket.incoming)))
        && raws == if old(Orderly(socket.incoming)) then Lines(StreamOf(old(socket.incoming)))
                   else Completed(StreamOf(old(socket.incoming)))
    {
      hide Lines, StreamOf, Executed, Orderly, Breaks, Completed, Untroubled;
      hide socket.NoStops, socket.StopPending, socket.SendsSucceed, State, Steady, Footprint, Settings;
      ghost var engine, before := State(), socket.sent;
      var ended, pending;
      status, ended, pending, raws, ios := ReceiveLines();
      NotBoth(old(socket.incoming));
      if ended {
        status, raws, ios := ProcessTail(pending, engine, before, raws, ios);
      }
    }
  }

  lemma {:induction false} NotBoth(incoming: seq<Received>)
    ensures !(Orderly(incoming) && Breaks(incoming))
  {
    if incoming != [] {
      NotBoth(incoming[1..]);
    }
  }

  /** The lines are first lines of the stream, and completed ones. */
  ghost predicate Within(raws: seq<Bytes>, stream: Bytes)
  {
    raws <= Lines(stream) && raws <= Completed(stream)
  }

  lemma WithinPart(raws: seq<Bytes>, more: seq<Bytes>, stream: Bytes)
    requires raws <= more && Within(more, stream)
    ensures Within(raws, stream)
  {
    hide Lines, Completed;
  }

  /** Of the whole stream only the pending input is left, as a last line if there is any. */
  ghost predicate Ended(stream: Bytes, raws: seq<Bytes>, pending: Bytes)
  {
    Lines(stream) == if pending == [] then raws else raws + [pending]
  }

  lemma RemainingWithin(stream: Bytes, raws: seq<Bytes>, pending: Bytes, coming: Bytes)
    requires Remaining(stream, raws, pending, coming)
    ensures Within(raws, stream)
  {
    hide Lines, Completed;
  }

  /** What is left to execute of the stream: the lines of the pending input and what is still coming. */
  ghost predicate Remaining(stream: Bytes, raws: seq<Bytes>, pending: Bytes, coming: Bytes)
  {
    && Lines(stream) == raws + Lines(pending + coming)
    && Completed(stream) == raws + Completed(pending + coming)
    && FreeOf(pending, LF)
  }

  lemma RemainingAtStart(stream: Bytes)
    ensures Remaining(stream, [], [], stream)
  {
    hide Lines, Completed;
    assert [] + stream == stream;
    assert [] + Lines(stream) == Lines(stream) && [] + Completed(stream) == Completed(stream);
  }

  /** What the next receive does to it, whichever way that turns out. */
  lemma {:induction false} RemainingStep(stream: Bytes, raws: seq<Bytes>, pending: Bytes, incoming: seq<Received>)
    requires Remaining(stream, raws, pending, StreamOf(incoming))
    ensures Within(raws, stream)
    ensures incoming == [] || incoming[0] == Chunk([]) ==> Ended(stream, raws, pending)
    ensures incoming != [] && (incoming[0].IdleTooLong? || incoming[0].Broken?) ==> Completed(stream) == raws
    ensures incoming != [] && incoming[0].Chunk? && incoming[0].bytes != [] ==>
      var input := pending + incoming[0].bytes;
      && Within(raws + Completed(input), stream)
      && Remaining(stream, raws + Completed(input), Tail(input), StreamOf(incoming[1..]))
    ensures incoming != [] && (incoming[0].Interruption? || incoming[0].NothingYet?) ==>
      Remaining(stream, raws, pending, StreamOf(incoming[1..]))
  {
    StreamStep(incoming);
    if incoming == [] || incoming[0] == Chunk([]) || incoming[0].IdleTooLong? || incoming[0].Broken? {
      assert pending + [] == pending;
      LinesOfTail(pending);
      hide Lines, Completed;
      assert raws + [] == raws;
    } else if incoming[0].Chunk? {
      hide StreamOf;
      LinesGoOn(pending, incoming[0].bytes, StreamOf(incoming[1..]));
      hide Lines, Completed, Tail;
      var input := pending + incoming[0].bytes;
      ConcatAssoc(raws, Completed(input), Lines(Tail(input) + StreamOf(incoming[1..])));
      ConcatAssoc(raws, Completed(input), Completed(Tail(input) + StreamOf(incoming[1..])));
    }
  }

  lemma LinesOfTail(pending: Bytes)
    requires FreeOf(pending, LF)
    ensures Lines(pending) == if pending == [] then [] else [pending]
    ensures Completed(pending) == []
  {
  }

  lemma LinesGoOn(pending: Bytes, bytes: Bytes, coming: Bytes)
    ensures FreeOf(Tail(pending + bytes), LF)
    ensures Lines(pending + (bytes + coming)) == Completed(pending + bytes) + Lines(Tail(pending + bytes) + coming)
    ensures Completed(pending + (bytes + coming))
      == Completed(pending + bytes) + Completed(Tail(pending + bytes) + coming)
  {
    var input := pending + bytes;
    ConcatAssoc(pending, bytes, coming);
    LinesAreCompletedAndTail(input);
    LinesAreCompletedAndTail(input + coming);
    LinesAreCompletedAndTail(Tail(input) + coming);
    CompletedAppend(input, coming);
    hide Lines, Completed, Tail;
    var tail := Tail(input + coming);
    ConcatAssoc(Completed(input), Completed(Tail(input) + coming), if tail == [] then [] else [tail]);
  }

  lemma NothingRan(engine: Engine, config: Config, before: Bytes)
    ensures forall noStops :: Accounted(engine, config, [], [], engine, before, before, noStops, true)
  {
    NothingExecuted(engine, config);
    NoPieces(before);
    hide EngineOf, OutputOf, InPieces;
    assert before + [] == before;
  }

  /** One more line executed, and a piece of its answer sent. */
  lemma RanFurther(engine: Engine, config: Config, raws: seq<Bytes>, ios: seq<Io>, current: Engine,
      before: Bytes, sent: Bytes, raw: Bytes, io: Io, piece: Bytes)
    requires Ran(engine, config, raws, ios, current)
    requires piece <= Processed(current, config, StripReturn(raw), io).1
    ensures Ran(engine, config, raws + [raw], ios + [io], Processed(current, config, StripReturn(raw), io).0)
    ensures InPieces(before, sent, AnswersOf(engine, config, raws, ios)) ==>
      InPieces(before, sent + piece, AnswersOf(engine, config, raws + [raw], ios + [io]))
    ensures Answered(engine, config, raws, ios, before, sent, true) ==>
      && Answered(engine, config, raws + [raw], ios + [io], before, sent + piece, false)
      && (piece == Processed(current, config, StripReturn(raw), io).1 ==>
            Answered(engine, config, raws + [raw], ios + [io], before, sent + piece, true))
  {
    OneMoreLine(engine, config, raws, ios, raw, io);
    hide EngineOf, OutputOf, AnswersOf, Processed, InPieces;
    var answer := Processed(current, config, StripReturn(raw), io).1;
    if InPieces(before, sent, AnswersOf(engine, config, raws, ios)) {
      OneMorePiece(before, sent, AnswersOf(engine, config, raws, ios), piece, answer);
    }
    ConcatAssoc(before, OutputOf(engine, config, raws, ios), answer);
    PieceOfSum(before + OutputOf(engine, config, raws, ios), piece, answer);
  }

  lemma PieceOfSum(a: Bytes, piece: Bytes, whole: Bytes)
    requires piece <= whole
    ensures a + piece <= a + whole
  {
  }

  /** One session after another. */
  lemma RanOn(engine: Engine, config: Config, raws: seq<Bytes>, ios: seq<Io>, middle: Engine, before: Bytes,
      sent: Bytes, more: seq<Bytes>, moreIos: seq<Io>, current: Engine, sentAfter: Bytes, complete: bool)
    requires Ran(engine, config, raws, ios, middle) && Ran(middle, config, more, moreIos, current)
    ensures Ran(engine, config, raws + more, ios + moreIos, current)
    requires InPieces(before, sent, AnswersOf(engine, config, raws, ios))
    requires InPieces(sent, sentAfter, AnswersOf(middle, config, more, moreIos))
    ensures InPieces(before, sentAfter, AnswersOf(engine, config, raws + more, ios + moreIos))
    ensures
      var first := Answered(engine, config, raws, ios, before, sent, true);
      var second := Answered(middle, config, more, moreIos, sent, sentAfter, complete);
      first && second ==> Answered(engine, config, raws + more, ios + moreIos, before, sentAfter, complete)
  {
    SessionConcat(engine, config, raws, ios, more, moreIos);
    hide EngineOf, OutputOf, AnswersOf, InPieces;
    ConcatAssoc(before, OutputOf(engine, config, raws, ios), OutputOf(middle, config, more, moreIos));
    MorePieces(before, sent, sentAfter,
      AnswersOf(engine, config, raws, ios), AnswersOf(middle, config, more, moreIos));
  }

  lemma AccountedInPart(engine: Engine, config: Config, raws: seq<Bytes>, ios: seq<Io>, current: Engine,
      before: Bytes, sent: Bytes, noStops: bool)
    ensures Accounted(engine, config, raws, ios, current, before, sent, noStops, true)
      ==> Accounted(engine, config, raws, ios, current, before, sent, noStops, false)
  {
    hide InPieces, AnswersOf, OutputOf;
  }

  lemma OrderlyStep(incoming: seq<Received>)
    ensures incoming == [] || incoming[0] == Chunk([]) ==> Orderly(incoming) && !Breaks(incoming)
    ensures incoming != [] && incoming[0].IdleTooLong? ==> !Orderly(incoming) && !Breaks(incoming)
    ensures incoming != [] && incoming[0].Broken? ==> !Orderly(incoming) && Breaks(incoming)
    ensures incoming != [] && incoming[0] != Chunk([]) && !incoming[0].IdleTooLong? && !incoming[0].Broken? ==>
      Orderly(incoming) == Orderly(incoming[1..]) && Breaks(incoming) == Breaks(incoming[1..])
  {
  }

  lemma NothingExecuted(engine: Engine, config: Config)
    ensures EngineOf(engine, config, [], []) == engine && OutputOf(engine, config, [], []) == []
    ensures AnswersOf(engine, config, [], []) == []
  {
    assert CommandLines([]) == [];
  }

  lemma NextCompleted(s: Bytes, i: nat)
    requires i == Find(s, LF) < |s|
    ensures Completed(s) == [s[..i]] + Completed(s[i + 1..])
  {
    hide Find;
  }

  lemma NextTail(s: Bytes, i: nat)
    requires i == Find(s, LF) < |s|
    ensures Tail(s) == Tail(s[i + 1..])
  {
    hide Find;
  }

  /** A session may stop after any line and go on from the engine it left. */
  lemma {:induction false} SessionConcat(engine: Engine, config: Config,
      a: seq<Bytes>, aIos: seq<Io>, b: seq<Bytes>, bIos: seq<Io>)
    requires |a| == |aIos| && |b| == |bIos|
    ensures Composes(engine, config, a, aIos, b, bIos)
    decreases |b|
  {
    hide Composes;
    if b == [] {
      ComposesWithNothing(engine, config, a, aIos);
    } else {
      var n := |b| - 1;
      SessionConcat(engine, config, a, aIos, b[..n], bIos[..n]);
      ComposesFurther(engine, config, a, aIos, b[..n], bIos[..n], b[n], bIos[n]);
      assert b[..n] + [b[n]] == b && bIos[..n] + [bIos[n]] == bIos;
    }
  }

  ghost predicate Composes(engine: Engine, config: Config, a: seq<Bytes>, aIos: seq<Io>, b: seq<Bytes>, bIos: seq<Io>)
    requires |a| == |aIos| && |b| == |bIos|
  {
    var middle := EngineOf(engine, config, a, aIos);
    && EngineOf(engine, config, a + b, aIos + bIos) == EngineOf(middle, config, b, bIos)
    && AnswersOf(engine, config, a + b, aIos + bIos)
      == AnswersOf(engine, config, a, aIos) + AnswersOf(middle, config, b, bIos)
    && OutputOf(engine, config, a + b, aIos + bIos)
      == OutputOf(engine, config, a, aIos) + OutputOf(middle, config, b, bIos)
  }

  lemma {:induction false} ComposesWithNothing(engine: Engine, config: Config, a: seq<Bytes>, aIos: seq<Io>)
    requires |a| == |aIos|
    ensures Composes(engine, config, a, aIos, [], [])
  {
    NothingExecuted(EngineOf(engine, config, a, aIos), config);
    hide EngineOf, OutputOf, AnswersOf;
    assert a + [] == a && aIos + [] == aIos;
    assert AnswersOf(engine, config, a, aIos) + [] == AnswersOf(engine, config, a, aIos);
    assert OutputOf(engine, config, a, aIos) + [] == OutputOf(engine, config, a, aIos);
  }

  lemma {:induction false} ComposesFurther(engine: Engine, config: Config,
      a: seq<Bytes>, aIos: seq<Io>, b: seq<Bytes>, bIos: seq<Io>, raw: Bytes, io: Io)
    requires |a| == |aIos| && |b| == |bIos| && Composes(engine, config, a, aIos, b, bIos)
    ensures Composes(engine, config, a, aIos, b + [raw], bIos + [io])
  {
    hide EngineOf, OutputOf, AnswersOf, Processed, StripReturn;
    var middle := EngineOf(engine, config, a, aIos);
    OneMoreLine(engine, config, a + b, aIos + bIos, raw, io);
    OneMoreLine(middle, config, b, bIos, raw, io);
    ConcatAssoc(a, b, [raw]);
    ConcatAssoc(aIos, bIos, [io]);
    var last := Processed(EngineOf(middle, config, b, bIos), config, StripReturn(raw), io).1;
    ConcatAssoc(OutputOf(engine, config, a, aIos), OutputOf(middle, config, b, bIos), last);
    ConcatAssoc(AnswersOf(engine, config, a, aIos), AnswersOf(middle, config, b, bIos), [last]);
  }

  lemma StreamStep(incoming: seq<Received>)
    ensures incoming == [] ==> StreamOf(incoming) == []
    ensures incoming != [] && (incoming[0].Interruption? || incoming[0].NothingYet?) ==>
      StreamOf(incoming) == StreamOf(incoming[1..])
    ensures incoming != [] && incoming[0].Chunk? && incoming[0].bytes != [] ==>
      StreamOf(incoming) == incoming[0].bytes + StreamOf(incoming[1..])
    ensures incoming != [] && (incoming[0] == Chunk([]) || incoming[0].IdleTooLong? || incoming[0].Broken?) ==>
      StreamOf(incoming) == []
  {
  }
}
