/** One mutation of the store, as the write-ahead log keeps it (src/wal/wal_record.cpp). */
module WalRecords {
  import opened ByteStrings
  import opened Core

  datatype RecordType = Set | Del

  datatype WalRecord = WalRecord(
    sequenceNumber: Uint64,
    kind: RecordType,
    key: Bytes,
    value: Bytes)

  /** A loggable record. A Del carries no value: the code and the design notes disagree, the code wins. */
  predicate Valid(record: WalRecord)
  {
    && record.sequenceNumber != 0
    && record.key != []
    && (record.kind.Set? <==> record.value != [])
  }

  function Validate(record: WalRecord): (status: Status)
    ensures status.Ok? <==> Valid(record)
    ensures status.Error? ==> status.code == InvalidArgument
  {
    if record.sequenceNumber == 0 then
      InvalidArgumentError("WAL record sequence number must be greater than zero")
    else if record.key == [] then
      InvalidArgumentError("WAL record key must not be empty")
    else
      match record.kind
      case Set =>
        if record.value == [] then InvalidArgumentError("WAL set record value must not be empty") else Ok
      case Del =>
        if record.value != [] then InvalidArgumentError("WAL del record must be empty") else Ok
  }

  function MakeSetRecord(number: Uint64, key: Bytes, value: Bytes): WalRecord
  {
    WalRecord(number, Set, key, value)
  }

  function MakeDelRecord(number: Uint64, key: Bytes): WalRecord
  {
    WalRecord(number, Del, key, [])
  }

  function TypeName(kind: RecordType): Bytes
  {
    match kind
    case Set => [115, 101, 116]
    case Del => [100, 101, 108]
  }
}
