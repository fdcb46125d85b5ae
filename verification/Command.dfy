/** The commands of the line protocol (src/command/command.cpp). */
module Commands {
  import opened ByteStrings
  import opened Core

  datatype CommandType = Ping | Set | Get | Del | Exists

  datatype CommandRequest = CommandRequest(kind: CommandType, arguments: seq<Bytes>)

  /** toupper in the "C" locale. */
  function ToUpper(b: Byte): Byte
  {
    if 97 <= b <= 122 then b - 32 else b
  }

  predicate EqualsIgnoreCase(left: Bytes, right: Bytes)
  {
    |left| == |right| && forall i :: 0 <= i < |left| ==> ToUpper(left[i]) == ToUpper(right[i])
  }

  method AsciiEqualsIgnoreCase(left: Bytes, right: Bytes) returns (equal: bool)
    ensures equal <==> EqualsIgnoreCase(left, right)
  {
    if |left| != |right| {
      return false;
    }
    for i := 0 to |left|
      invariant forall k :: 0 <= k < i ==> ToUpper(left[k]) == ToUpper(right[k])
    {
      if ToUpper(left[i]) != ToUpper(right[i]) {
        return false;
      }
    }
    return true;
  }

  function CommandName(kind: CommandType): Bytes
  {
    match kind
    case Ping => Ascii("PING")
    case Set => Ascii("SET")
    case Get => Ascii("GET")
    case Del => Ascii("DEL")
    case Exists => Ascii("EXISTS")
  }

  function ExpectedArgumentCount(kind: CommandType): nat
  {
    match kind
    case Ping => 0
    case Set => 2
    case Get => 1
    case Del => 1
    case Exists => 1
  }

  function CommandTypeOf(name: Bytes): Result<CommandType>
  {
    if name == [] then Failure(InvalidArgumentError("command name must not be empty"))
    else if EqualsIgnoreCase(name, CommandName(Ping)) then Success(Ping)
    else if EqualsIgnoreCase(name, CommandName(Set)) then Success(Set)
    else if EqualsIgnoreCase(name, CommandName(Get)) then Success(Get)
    else if EqualsIgnoreCase(name, CommandName(Del)) then Success(Del)
    else if EqualsIgnoreCase(name, CommandName(Exists)) then Success(Exists)
    else Failure(InvalidArgumentError("unknown command"))
  }

  function ValidateCommandRequest(request: CommandRequest): (status: Status)
    ensures status.Ok? <==> |request.arguments| == ExpectedArgumentCount(request.kind)
  {
    if |request.arguments| != ExpectedArgumentCount(request.kind) then
      InvalidArgumentError("invalid command argument count")
    else
      Ok
  }
}
