/** Responses as bytes (src/protocol/response_serializer.cpp, src/execution/command_response.cpp). */
module Responses {
  import opened ByteStrings
  import opened Decimal
  import opened Core

  newtype Int64 = n: int | -0x8000_0000_0000_0000 <= n < 0x8000_0000_0000_0000

  datatype CommandResponse = SimpleString(value: Bytes) | BulkString(value: Bytes) | Integer(number: Int64)

  const PLUS: Byte := 43
  const COLON: Byte := 58
  const DOLLAR: Byte := 36

  /** std::to_string of a signed number. */
  function IntegerText(number: Int64): Bytes
  {
    if number < 0 then [MINUS] + Digits(-(number as int)) else Digits(number as int)
  }

  function SerializeSimpleString(value: Bytes): Bytes
  {
    [PLUS] + value + CRLF
  }

  /** `$`, the length and the end of that line. */
  function BulkHeader(value: Bytes): Bytes
  {
    [DOLLAR] + Digits(|value|) + CRLF
  }

  function SerializeBulkString(value: Bytes): Bytes
  {
    BulkHeader(value) + value + CRLF
  }

  function SerializeInteger(number: Int64): Bytes
  {
    [COLON] + IntegerText(number) + CRLF
  }

  function SerializeCommandResponse(response: CommandResponse): Bytes
  {
    match response
    case SimpleString(value) => SerializeSimpleString(value)
    case BulkString(value) => SerializeBulkString(value)
    case Integer(number) => SerializeInteger(number)
  }

  /** The text of an error after its leading dash. */
  function ErrorText(error: ErrorStatus): Bytes
  {
    Ascii("ERR ") + CodeText(error.code) + if error.message == [] then [] else [SPACE] + error.message
  }

  function SerializeStatus(status: Status): Bytes
  {
    if status.Ok? then SerializeSimpleString(Ascii("OK")) else [MINUS] + ErrorText(status) + CRLF
  }

  function SerializeExecutionResult(result: Result<CommandResponse>): Bytes
  {
    match result
    case Success(response) => SerializeCommandResponse(response)
    case Failure(error) => SerializeStatus(error)
  }
}
