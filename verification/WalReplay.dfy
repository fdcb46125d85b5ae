/** Applying a log to a store, stopping at the first failure (src/wal/wal_replay.cpp). */
module WalReplay {
  import opened ByteStrings
  import opened Core
  import opened WalRecords
  import opened InMemory

  ghost function Apply(values: Store, record: WalRecord): (Store, Status)
  {
    if !Valid(record) then (values, Validate(record)) else
    match record.kind
    case Set => StoreSet(values, record.key, record.value)
    case Del => StoreRemove(values, record.key)
  }

  /** The store after the log, and how the replay ended. */
  ghost function Replay(values: Store, log: seq<WalRecord>): (Store, Status)
  {
    if log == [] then (values, Ok) else
    var before := Replay(values, log[..|log| - 1]);
    if before.1.Error? then before else Apply(before.0, log[|log| - 1])
  }

  ghost function After(values: Store, log: seq<WalRecord>): Store
  {
    Replay(values, log).0
  }

  ghost predicate Replays(values: Store, log: seq<WalRecord>)
  {
    Replay(values, log).1.Ok?
  }

  lemma ReplaySnoc(values: Store, log: seq<WalRecord>, record: WalRecord)
    ensures Replay(values, log + [record])
      == if Replays(values, log) then Apply(After(values, log), record) else Replay(values, log)
  {
    assert (log + [record])[..|log|] == log;
  }

  /** Replaying a concatenation is replaying its parts in turn. */
  lemma {:induction false} ReplayConcat(values: Store, a: seq<WalRecord>, b: seq<WalRecord>)
    ensures Replay(values, a + b)
      == if Replays(values, a) then Replay(After(values, a), b) else Replay(values, a)
  {
    if b == [] {
      assert a + b == a;
    } else {
      var front, last := b[..|b| - 1], b[|b| - 1];
      ReplayConcat(values, a, front);
      assert a + b == a + front + [last];
      ReplaySnoc(values, a + front, last);
    }
  }

  /** A replay succeeds exactly when every record is valid and every Del names a key that is live there. */
  lemma {:induction false} ReplaysExactly(values: Store, log: seq<WalRecord>)
    ensures Replays(values, log) <==>
      forall i :: 0 <= i < |log| ==>
        Valid(log[i]) && (log[i].kind.Del? ==> log[i].key in After(values, log[..i]))
  {
    if log != [] {
      var front, last := log[..|log| - 1], log[|log| - 1];
      ReplaysExactly(values, front);
      assert forall i :: 0 <= i < |front| ==> front[..i] == log[..i];
      hide Validate;
      assert Replays(values, log) <==>
        Replays(values, front) && Valid(last) && (last.kind.Del? ==> last.key in After(values, front));
    }
  }

  // ----- Last writer wins -----

  /** A replay that fails stops at its first failing record, with that record's error and the store before it. */
  lemma {:induction false} StopsAtFirst(values: Store, log: seq<WalRecord>) returns (i: nat)
    requires !Replays(values, log)
    ensures i < |log| && Replays(values, log[..i])
    ensures Replay(values, log).0 == After(values, log[..i])
    ensures
      if !Valid(log[i]) then Replay(values, log).1 == Validate(log[i])
      else
        && log[i].kind.Del? && log[i].key !in After(values, log[..i])
        && Replay(values, log).1 == NotFoundError("key not found")
    decreases |log|
  {
    var n := |log| - 1;
    if Replays(values, log[..n]) {
      i := n;
      hide Validate, Ascii;
    } else {
      i := StopsAtFirst(values, log[..n]);
      assert log[..n][..i] == log[..i] && log[..n][i] == log[i];
      hide Validate, Ascii, Apply;
    }
  }

  /** The last record about `key`. */
  ghost function LastFor(log: seq<WalRecord>, key: Bytes): Option<WalRecord>
  {
    if log == [] then None
    else if log[|log| - 1].key == key then Some(log[|log| - 1])
    else LastFor(log[..|log| - 1], key)
  }

  /** What the log leaves under `key`, starting from a store that held `before` there. */
  ghost function Outcome(log: seq<WalRecord>, key: Bytes, before: Option<Bytes>): Option<Bytes>
  {
    match LastFor(log, key)
    case None => before
    case Some(record) => if record.kind.Set? then Some(record.value) else None
  }

  ghost predicate Overrides(base: Store, log: seq<WalRecord>, result: Store)
  {
    forall key :: Lookup(result, key) == Outcome(log, key, Lookup(base, key))
  }

  lemma OutcomeSnoc(log: seq<WalRecord>, record: WalRecord, key: Bytes, before: Option<Bytes>)
    ensures Outcome(log + [record], key, before)
      == if record.key != key then Outcome(log, key, before)
         else if record.kind.Set? then Some(record.value) else None
  {
    assert (log + [record])[..|log|] == log;
  }

  lemma ApplyOverrides(base: Store, log: seq<WalRecord>, values: Store, record: WalRecord)
    requires Overrides(base, log, values) && Apply(values, record).1.Ok?
    ensures Overrides(base, log + [record], Apply(values, record).0)
  {
    hide Validate;
    forall key
      ensures Lookup(Apply(values, record).0, key) == Outcome(log + [record], key, Lookup(base, key))
    {
      OutcomeSnoc(log, record, key, Lookup(base, key));
    }
  }

  /** A successful replay is the base overridden by the last record of each key. */
  lemma {:induction false} ReplayOverrides(base: Store, log: seq<WalRecord>)
    requires Replays(base, log)
    ensures Overrides(base, log, After(base, log))
  {
    if log != [] {
      var front, last := log[..|log| - 1], log[|log| - 1];
      ReplayOverrides(base, front);
      ApplyOverrides(base, front, After(base, front), last);
      assert front + [last] == log;
    }
  }

  /** A log that replays from the empty store replays from every store. */
  lemma {:induction false} ReplaysFromAnywhere(base: Store, log: seq<WalRecord>)
    requires Replays(map[], log)
    ensures Replays(base, log)
    ensures Overrides(base, log, After(base, log))
  {
    if log != [] {
      var front, last := log[..|log| - 1], log[|log| - 1];
      ReplaysFromAnywhere(base, front);
      ReplayOverrides(map[], front);
      hide Validate;
      var here, there := After(map[], front), After(base, front);
      if last.kind.Del? {
        assert Lookup(here, last.key) == Outcome(front, last.key, None);
        assert Lookup(there, last.key) == Outcome(front, last.key, Lookup(base, last.key));
      }
      assert Apply(there, last).1.Ok?;
      ApplyOverrides(base, front, there, last);
      assert front + [last] == log;
    }
  }

  lemma SameLookups(a: Store, b: Store)
    requires forall key :: Lookup(a, key) == Lookup(b, key)
    ensures a == b
  {
    assert forall key :: key in a ==> Lookup(a, key) == Lookup(b, key);
    assert forall key :: key in b ==> Lookup(a, key) == Lookup(b, key);
  }

  /** Recovering twice changes nothing: a log replayed onto its own result leaves it as it is. */
  lemma {:induction false} ReplayIdempotent(base: Store, log: seq<WalRecord>)
    requires Replays(map[], log)
    ensures Replay(After(base, log), log) == (After(base, log), Ok)
  {
    var once := After(base, log);
    ReplaysFromAnywhere(base, log);
    ReplaysFromAnywhere(once, log);
    var twice := After(once, log);
    forall key
      ensures Lookup(twice, key) == Lookup(once, key)
    {
      assert Lookup(once, key) == Outcome(log, key, Lookup(base, key));
      assert Lookup(twice, key) == Outcome(log, key, Lookup(once, key));
    }
    SameLookups(twice, once);
  }

  // ----- The program's loop -----

  method ReplayRecord(record: WalRecord, target: InMemoryStorage) returns (status: Status)
    modifies target
    ensures (target.values, status) == Apply(old(target.values), record)
  {
    var validation := Validate(record);
    if validation.Error? {
      return validation;
    }
    match record.kind
    case Set =>
      status := target.Set(record.key, record.value);
    case Del =>
      status := target.Remove(record.key);
  }

  lemma ReplayStopped(values: Store, log: seq<WalRecord>, i: nat)
    requires i <= |log| && !Replays(values, log[..i])
    ensures Replay(values, log) == Replay(values, log[..i])
  {
    ReplayConcat(values, log[..i], log[i..]);
    assert log[..i] + log[i..] == log;
  }

  method ReplayRecords(records: seq<WalRecord>, target: InMemoryStorage) returns (status: Status)
    modifies target
    ensures (target.values, status) == Replay(old(target.values), records)
  {
    hide Apply;
    for i := 0 to |records|
      invariant (target.values, Ok) == Replay(old(target.values), records[..i])
    {
      ReplaySnoc(old(target.values), records[..i], records[i]);
      assert records[..i + 1] == records[..i] + [records[i]];
      status := ReplayRecord(records[i], target);
      if status.Error? {
        ReplayStopped(old(target.values), records, i + 1);
        return status;
      }
    }
    assert records[..|records|] == records;
    return Ok;
  }
}
