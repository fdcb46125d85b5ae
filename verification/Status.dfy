/** Statuses and results, as every operation of the program returns them. */
module Core {
  import opened ByteStrings

  datatype ErrorCode =
    | Unknown
    | InvalidArgument
    | NotFound
    | AlreadyExists
    | Conflict
    | Unavailable
    | Internal

  datatype Status = Ok | Error(code: ErrorCode, message: Bytes)

  /** A failure never carries an OK status: the program would turn one into an internal error. */
  type ErrorStatus = status: Status | status.Error? witness Error(Unknown, [])

  datatype Result<T> = Success(value: T) | Failure(error: ErrorStatus)

  datatype Option<T> = None | Some(value: T)

  function InvalidArgumentError(message: string): ErrorStatus
  {
    Error(InvalidArgument, Ascii(message))
  }

  function NotFoundError(message: string): ErrorStatus
  {
    Error(NotFound, Ascii(message))
  }

  function UnavailableError(message: string): ErrorStatus
  {
    Error(Unavailable, Ascii(message))
  }

  function CodeText(code: ErrorCode): (text: Bytes)
  {
    match code
    case Unknown => Ascii("unknown")
    case InvalidArgument => Ascii("invalid_argument")
    case NotFound => Ascii("not_found")
    case AlreadyExists => Ascii("already_exists")
    case Conflict => Ascii("conflict")
    case Unavailable => Ascii("unavailable")
    case Internal => Ascii("internal")
  }
}
