/**
 The interleaved machine and the program's operations are about the same
 engine: a call that runs by itself does in the machine exactly what the
 operation does.
 */
module WalSolo {
  import opened ByteStrings
  import opened Core
  import opened WalRecords
  import opened WalCodec
  import opened WalWriter
  import opened InMemory
  import opened WalStorage
  import opened WalThreads

  ghost function By(t: Thread, moves: seq<Move>): seq<(Thread, Move)>
  {
    seq(|moves|, i requires 0 <= i < |moves| => (t, moves[i]))
  }

  ghost function Solo(s: System, config: Config, t: Thread, moves: seq<Move>): System
  {
    RunThreads(s, config, By(t, moves))
  }

  lemma SoloStep(s: System, config: Config, t: Thread, move: Move, moves: seq<Move>)
    ensures Solo(s, config, t, [move] + moves) == Solo(Moved(s, config, t, move), config, t, moves)
  {
    hide Moved;
    assert By(t, [move] + moves)[1..] == By(t, moves);
  }

  lemma SoloNothing(s: System, config: Config, t: Thread)
    ensures Solo(s, config, t, []) == s
  {
    hide Moved;
  }

  /** The engine's state in the machine; its file is open. */
  ghost function EngineIn(s: System): State
  {
    State(Writer(s.disk, true, false), s.values, s.next)
  }

  ghost predicate Quiescent(s: System, t: Thread)
  {
    s.disk.created && s.holder.None? && PcOf(s, t).Idle?
  }

  /** The call was invoked, took effect and returned with that answer, and left the engine in that state. */
  ghost predicate Completed(s: System, t: Thread, call: Call, answer: Answer, engine: State, end: System)
  {
    && EngineIn(end) == engine
    && Quiescent(end, t)
    && end.history == s.history + [Invoke(t, call), Effect(t, call, answer), Return(t, call, answer)]
  }

  /** Once the call has taken effect, releasing the mutex and returning completes it. */
  lemma SoloEnd(s: System, config: Config, t: Thread, call: Call, answer: Answer, u: System)
    requires u.disk.created && u.holder == Some(t) && PcOf(u, t) == Releasing(call, answer)
    requires u.history == s.history + [Invoke(t, call), Effect(t, call, answer)]
    ensures Completed(s, t, call, answer, EngineIn(u), Solo(u, config, t, [Release, Finish]))
  {
    var released := Moved(u, config, t, Release);
    SoloStep(u, config, t, Release, [Finish]);
    SoloStep(released, config, t, Finish, []);
    SoloNothing(Moved(released, config, t, Finish), config, t);
    assert [Release] + [Finish] == [Release, Finish] && [Finish] + [] == [Finish];
    hide Solo, Encoded, Validate, ServeRead, Acknowledged, StoreRemove;
    var before := [Invoke(t, call), Effect(t, call, answer)];
    ConcatAssoc(s.history, before, [Return(t, call, answer)]);
  }

  /** From the check on: appending the record, syncing, applying and counting is the engine's acknowledged append. */
  lemma SoloAppend(s: System, config: Config, t: Thread, call: Call, record: WalRecord)
    requires s.disk.created && s.holder == Some(t) && PcOf(s, t) == Appending(call, record, 0)
    requires Valid(record) && config.path != []
    ensures
      var moves := [Write(|Encoded(record)|), Sync, ApplyRecord, Count];
      var end := Solo(s, config, t, moves);
      && EngineIn(end) == State(
           Appended(Writer(s.disk, true, false), config, record, AllOk).0,
           Acknowledged(s.values, call, Done(Ok)), Increment(s.next))
      && end.disk.created && end.holder == Some(t) && PcOf(end, t) == Releasing(call, Done(Ok))
      && end.history == s.history + [Effect(t, call, Done(Ok))]
  {
    hide Encoded, Validate, Valid, Acknowledged, ServeRead, StoreRemove, Solo;
    var n := |Encoded(record)|;
    EncodedNotEmpty(record);
    assert Encoded(record)[0..n] == Encoded(record);
    var a := Moved(s, config, t, Write(n));
    var b := Moved(a, config, t, Sync);
    var c := Moved(b, config, t, ApplyRecord);
    var d := Moved(c, config, t, Count);
    SoloStep(s, config, t, Write(n), [Sync, ApplyRecord, Count]);
    SoloStep(a, config, t, Sync, [ApplyRecord, Count]);
    SoloStep(b, config, t, ApplyRecord, [Count]);
    SoloStep(c, config, t, Count, []);
    SoloNothing(d, config, t);
    assert [Write(n)] + [Sync, ApplyRecord, Count] == [Write(n), Sync, ApplyRecord, Count];
    assert [Sync] + [ApplyRecord, Count] == [Sync, ApplyRecord, Count];
    assert [ApplyRecord] + [Count] == [ApplyRecord, Count];
    assert [Count] + [] == [Count];
  }

  lemma EncodedNotEmpty(record: WalRecord)
    ensures Encoded(record) != []
  {
    hide RecordLine;
  }

  ghost function Holding(s: System, t: Thread, call: Call): System
  {
    s.(holder := Some(t), threads := s.threads[t := Locked(call)], history := s.history + [Invoke(t, call)])
  }

  /** A mutation goes through the mutex and the check first. */
  lemma SoloStart(s: System, config: Config, t: Thread, call: Call)
    requires Quiescent(s, t) && Mutates(call)
    ensures Solo(s, config, t, [Start(call), Lock, Check]) == Checked(Holding(s, t, call), t, call)
  {
    hide Encoded, Acknowledged, ServeRead, StoreRemove, Solo, Checked;
    var a := Moved(s, config, t, Start(call));
    var b := Moved(a, config, t, Lock);
    assert b.threads == s.threads[t := Locked(call)];
    SoloStep(s, config, t, Start(call), [Lock, Check]);
    SoloStep(a, config, t, Lock, [Check]);
    SoloStep(b, config, t, Check, []);
    SoloNothing(Moved(b, config, t, Check), config, t);
    assert [Start(call)] + [Lock, Check] == [Start(call), Lock, Check];
    assert [Lock] + [Check] == [Lock, Check] && [Check] + [] == [Check];
  }

  lemma {:induction false} SoloConcat(s: System, config: Config, t: Thread, a: seq<Move>, b: seq<Move>)
    ensures Solo(s, config, t, a + b) == Solo(Solo(s, config, t, a), config, t, b)
    decreases |a|
  {
    hide Moved, Solo;
    if a == [] {
      assert a + b == b;
      SoloNothing(s, config, t);
    } else {
      assert a == [a[0]] + a[1..];
      ConcatAssoc([a[0]], a[1..], b);
      SoloStep(s, config, t, a[0], a[1..]);
      SoloStep(s, config, t, a[0], a[1..] + b);
      SoloConcat(Moved(s, config, t, a[0]), config, t, a[1..], b);
    }
  }

  /** How the engine answers a mutation, by where the check sends it. */
  lemma CheckMatches(s: System, config: Config, t: Thread, call: Call)
    requires Mutates(call) && config.path != []
    ensures
      var u, served := Checked(Holding(s, t, call), t, call), ServeDurably(EngineIn(s), config, call, AllOk);
      var pc := PcOf(u, t);
      && EngineIn(u) == EngineIn(s) && u.holder == Some(t)
      && (pc.Releasing? ==>
            served == (EngineIn(s), pc.answer) && pc.call == call
            && u.history == s.history + [Invoke(t, call)] + [Effect(t, call, pc.answer)])
      && (pc.Absent? ==>
            pc.call == call && call.RemoveCall? && u.history == s.history + [Invoke(t, call)]
            && served == (EngineIn(s), Done(KEY_NOT_FOUND))
            && StoreRemove(s.values, call.key) == (s.values, KEY_NOT_FOUND))
      && (pc.Appending? ==>
            var record := pc.record;
            && pc == Appending(call, record, 0) && Valid(record) && u.history == s.history + [Invoke(t, call)]
            && served == (State(Appended(EngineIn(s).writer, config, record, AllOk).0,
                                Acknowledged(s.values, call, Done(Ok)), Increment(s.next)), Done(Ok)))
      && (pc.Releasing? || pc.Absent? || pc.Appending?)
  {
    var record := RecordFor(s.next, call);
    if Valid(record) {
      AppendOk(EngineIn(s).writer, config, record);
    }
    hide Encoded, Appended, Ascii;
  }

  lemma AppendOk(w: Writer, config: Config, record: WalRecord)
    requires Valid(record) && config.path != [] && !w.closed
    ensures Appended(w, config, record, AllOk).1 == Ok
  {
    hide Encoded;
  }

  /** Run by itself, a mutation does in the machine what the engine's operation does. */
  lemma {:induction false} SoloMutation(s: System, config: Config, t: Thread, call: Call) returns (moves: seq<Move>)
    requires Quiescent(s, t) && Mutates(call) && config.path != []
    ensures
      var served := ServeDurably(EngineIn(s), config, call, AllOk);
      Completed(s, t, call, served.1, served.0, Solo(s, config, t, moves))
  {
    var u := Checked(Holding(s, t, call), t, call);
    SoloStart(s, config, t, call);
    CheckMatches(s, config, t, call);
    hide Checked, ServeDurably, Appended, Encoded, Acknowledged, Solo, Completed, Valid, Validate, ServeRead;
    var first := [Start(call), Lock, Check];
    var pc := PcOf(u, t);
    ConcatAssoc(s.history, [Invoke(t, call)], [Effect(t, call, ServeDurably(EngineIn(s), config, call, AllOk).1)]);
    if pc.Releasing? {
      moves := first + [Release, Finish];
      SoloConcat(s, config, t, first, [Release, Finish]);
      SoloEnd(s, config, t, call, pc.answer, u);
    } else if pc.Absent? {
      var v := Moved(u, config, t, RemoveAbsent);
      moves := first + ([RemoveAbsent] + [Release, Finish]);
      SoloConcat(s, config, t, first, [RemoveAbsent] + [Release, Finish]);
      SoloStep(u, config, t, RemoveAbsent, [Release, Finish]);
      SoloEnd(s, config, t, call, Done(KEY_NOT_FOUND), v);
    } else {
      var append := [Write(|Encoded(pc.record)|), Sync, ApplyRecord, Count];
      moves := first + (append + [Release, Finish]);
      SoloConcat(s, config, t, first, append + [Release, Finish]);
      SoloConcat(u, config, t, append, [Release, Finish]);
      SoloAppend(u, config, t, call, pc.record);
      SoloEnd(s, config, t, call, Done(Ok), Solo(u, config, t, append));
    }
  }

  /** A read needs no log mutex: it takes effect whoever holds it, and sees the map as it is then. */
  lemma {:induction false} ReadAnyTime(s: System, config: Config, t: Thread, call: Call)
    requires PcOf(s, t).Idle? && !Mutates(call)
    ensures
      var answer, end := ServeRead(s.values, call), Solo(s, config, t, [Start(call), Read, Finish]);
      && EngineIn(end) == EngineIn(s) && end.holder == s.holder && PcOf(end, t).Idle?
      && end.history == s.history + [Invoke(t, call), Effect(t, call, answer), Return(t, call, answer)]
  {
    hide Encoded, Acknowledged, ServeRead, StoreRemove, Solo, Checked;
    var a := Moved(s, config, t, Start(call));
    var b := Moved(a, config, t, Read);
    SoloStep(s, config, t, Start(call), [Read, Finish]);
    SoloStep(a, config, t, Read, [Finish]);
    SoloStep(b, config, t, Finish, []);
    SoloNothing(Moved(b, config, t, Finish), config, t);
    assert [Start(call)] + [Read, Finish] == [Start(call), Read, Finish];
    assert [Read] + [Finish] == [Read, Finish] && [Finish] + [] == [Finish];
  }

  /** And so a read does in the machine what the engine's operation does. */
  lemma {:induction false} SoloRead(s: System, config: Config, t: Thread, call: Call)
    requires Quiescent(s, t) && !Mutates(call)
    ensures
      var served := ServeDurably(EngineIn(s), config, call, AllOk);
      Completed(s, t, call, served.1, served.0, Solo(s, config, t, [Start(call), Read, Finish]))
  {
    ReadAnyTime(s, config, t, call);
    hide Solo, ServeRead;
  }

  /** Short writes add up: two of them are one of both lengths, wherever in the record. */
  lemma {:induction false} ShortWrites(s: System, config: Config, t: Thread, a: nat, b: nat)
    requires PcOf(s, t).Appending? && a > 0 && b > 0
    requires PcOf(s, t).written + a + b <= |Encoded(PcOf(s, t).record)|
    ensures Moved(Moved(s, config, t, Write(a)), config, t, Write(b)) == Moved(s, config, t, Write(a + b))
    ensures Moved(s, config, t, Write(a)).disk.bytes != s.disk.bytes
  {
    var pc := PcOf(s, t);
    var data, w := Encoded(pc.record), pc.written;
    assert data[w..w + a] + data[w + a..w + a + b] == data[w..w + a + b];
    ConcatAssoc(s.disk.bytes, data[w..w + a], data[w + a..w + a + b]);
    assert |s.disk.bytes + data[w..w + a]| > |s.disk.bytes|;
    hide Encoded, Acknowledged, ServeRead, StoreRemove, Checked;
    var half := Moved(s, config, t, Write(a));
    assert PcOf(half, t) == Appending(pc.call, pc.record, w + a);
    assert half.threads[t := Syncing(pc.call, pc.record)] == s.threads[t := Syncing(pc.call, pc.record)];
    var further := Appending(pc.call, pc.record, w + a + b);
    assert half.threads[t := further] == s.threads[t := further];
  }

  /** A mutation whose write fails at once is refused in the machine as by the engine. */
  lemma {:induction false} SoloRefused(
      s: System, config: Config, t: Thread, call: Call, noProgress: bool, text: Bytes)
    returns (moves: seq<Move>)
    requires Quiescent(s, t) && config.path != []
    requires Mutates(call) && PcOf(Checked(Holding(s, t, call), t, call), t).Appending?
    ensures
      var served := ServeDurably(EngineIn(s), config, call, WriteFails(0, noProgress, text));
      && served.1.Done? && served.1.status.Error?
      && Completed(s, t, call, served.1, served.0, Solo(s, config, t, moves))
  {
    var u := Checked(Holding(s, t, call), t, call);
    var served := ServeDurably(EngineIn(s), config, call, WriteFails(0, noProgress, text));
    SoloStart(s, config, t, call);
    CheckMatches(s, config, t, call);
    RefusedAtOnce(EngineIn(s), config, call, noProgress, text, s, t);
    hide Checked, ServeDurably, Solo, Completed, Moved;
    var first, refuse := [Start(call), Lock, Check], Refuse(served.1.status.message);
    var v := Moved(u, config, t, refuse);
    ConcatAssoc(s.history, [Invoke(t, call)], [Effect(t, call, served.1)]);
    moves := first + ([refuse] + [Release, Finish]);
    SoloConcat(s, config, t, first, [refuse] + [Release, Finish]);
    SoloStep(u, config, t, refuse, [Release, Finish]);
    RefuseStep(u, config, t, served.1.status.message);
    SoloEnd(s, config, t, call, served.1, v);
  }

  lemma RefuseStep(u: System, config: Config, t: Thread, message: Bytes)
    requires PcOf(u, t).Appending? && PcOf(u, t).written == 0
    ensures
      var call, answer := PcOf(u, t).call, Done(Error(Unavailable, message));
      var v := Moved(u, config, t, Refuse(message));
      && PcOf(v, t) == Releasing(call, answer) && EngineIn(v) == EngineIn(u)
      && v.disk == u.disk && v.holder == u.holder
      && v.history == u.history + [Effect(t, call, answer)]
  {
    hide Encoded, Acknowledged, StoreRemove, ServeRead, Checked;
  }

  lemma RefusedAtOnce(e: State, config: Config, call: Call, noProgress: bool, text: Bytes, s: System, t: Thread)
    requires Mutates(call) && e == EngineIn(s) && config.path != []
    requires PcOf(Checked(Holding(s, t, call), t, call), t).Appending?
    ensures
      var served := ServeDurably(e, config, call, WriteFails(0, noProgress, text));
      served.0 == e && served.1.Done? && served.1.status.Error? && served.1.status.code.Unavailable?
  {
    assert e.writer.disk.bytes + [] == e.writer.disk.bytes;
    var record := RecordFor(s.next, call);
    NotEmpty(record);
    assert Reached(Encoded(record), WriteFails(0, noProgress, text)) == [];
    hide Encoded, Ascii;
  }

  lemma NotEmpty(record: WalRecord)
    ensures |Encoded(record)| > 0
  {
    hide RecordLine;
  }
}
