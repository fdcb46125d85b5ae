/** The plain in-memory engine: the simple specification of the store (src/storage/in_memory_storage.cpp). */
module InMemory {
  import opened ByteStrings
  import opened Core

  type Store = map<Bytes, Bytes>

  const EMPTY_KEY: ErrorStatus := InvalidArgumentError("key must not be empty")
  const KEY_NOT_FOUND: ErrorStatus := NotFoundError("key not found")

  function StoreSet(values: Store, key: Bytes, value: Bytes): (Store, Status)
  {
    if key == [] then (values, EMPTY_KEY) else (values[key := value], Ok)
  }

  function StoreGet(values: Store, key: Bytes): Result<Bytes>
  {
    if key == [] then Failure(EMPTY_KEY)
    else if key !in values then Failure(KEY_NOT_FOUND)
    else Success(values[key])
  }

  function StoreRemove(values: Store, key: Bytes): (Store, Status)
  {
    if key == [] then (values, EMPTY_KEY)
    else if key !in values then (values, KEY_NOT_FOUND)
    else (values - {key}, Ok)
  }

  function StoreExists(values: Store, key: Bytes): Result<bool>
  {
    if key == [] then Failure(EMPTY_KEY) else Success(key in values)
  }

  // ----- Calls, whichever engine serves them -----

  datatype Call =
    | SetCall(key: Bytes, value: Bytes)
    | RemoveCall(key: Bytes)
    | GetCall(key: Bytes)
    | ExistsCall(key: Bytes)

  datatype Answer = Done(status: Status) | Got(result: Result<Bytes>) | Found(present: Result<bool>)

  predicate Mutates(call: Call)
  {
    call.SetCall? || call.RemoveCall?
  }

  function ServeRead(values: Store, call: Call): Answer
    requires !Mutates(call)
  {
    if call.GetCall? then Got(StoreGet(values, call.key)) else Found(StoreExists(values, call.key))
  }

  /** The plain engine: the simple specification of every call. */
  function Serve(values: Store, call: Call): (Store, Answer)
  {
    match call
    case SetCall(key, value) =>
      var (after, status) := StoreSet(values, key, value);
      (after, Done(status))
    case RemoveCall(key) =>
      var (after, status) := StoreRemove(values, key);
      (after, Done(status))
    case _ => (values, ServeRead(values, call))
  }

  /** The store a client may count on: only acknowledged mutations happened. */
  ghost function Acknowledged(values: Store, call: Call, answer: Answer): Store
  {
    if answer != Done(Ok) then values else
    match call
    case SetCall(key, value) => values[key := value]
    case RemoveCall(key) => values - {key}
    case _ => values
  }

  /** What a reader sees under a key. */
  ghost function Lookup(values: Store, key: Bytes): Option<Bytes>
  {
    if key in values then Some(values[key]) else None
  }

  class InMemoryStorage {
    var values: Store

    constructor ()
      ensures values == map[]
    {
      values := map[];
    }

    method Set(key: Bytes, value: Bytes) returns (status: Status)
      modifies this
      ensures (values, status) == StoreSet(old(values), key, value)
    {
      if key == [] {
        return EMPTY_KEY;
      }
      values := values[key := value];
      return Ok;
    }

    method Get(key: Bytes) returns (r: Result<Bytes>)
      ensures r == StoreGet(values, key)
    {
      if key == [] {
        return Failure(EMPTY_KEY);
      }
      if key !in values {
        return Failure(KEY_NOT_FOUND);
      }
      return Success(values[key]);
    }

    method Remove(key: Bytes) returns (status: Status)
      modifies this
      ensures (values, status) == StoreRemove(old(values), key)
    {
      if key == [] {
        return EMPTY_KEY;
      }
      if key !in values {
        return KEY_NOT_FOUND;
      }
      values := values - {key};
      return Ok;
    }

    method Exists(key: Bytes) returns (r: Result<bool>)
      ensures r == StoreExists(values, key)
    {
      if key == [] {
        return Failure(EMPTY_KEY);
      }
      return Success(key in values);
    }

    method Clear()
      modifies this
      ensures values == map[]
    {
      values := map[];
    }
  }
}
