/**
 * How an operation of the connector ends, and what it throws.
 *
 * The connector is asynchronous TypeScript: a call either returns a value, throws
 * (an `Error` instance or some other value), or never settles (an awaited promise
 * that never resolves, or a loop that never ends). `Completion` records these three
 * endings so that every operation of the model is total.
 */
module Outcomes {

  datatype Option<+T> = None | Some(value: T)

  /** Error codes of the gateway's error handler that the connector uses. */
  datatype ErrorCode =
    | ServiceUninitializedCode
    | TokenNotSupportedCode
    | PriceFailedCode
    | UnknownErrorCode

  /**
   * Error messages, kept as structure rather than text: the message prefixes are
   * constants of the gateway's error handler, and the model only needs to know which
   * prefix is followed by which suffix.
   */
  datatype Message =
    | Text(text: string)                      // a literal message, e.g. 'Unsupported chain'
    | ServiceUninitialized(service: string)   // SERVICE_UNITIALIZED_ERROR_MESSAGE(service)
    | TokenNotSupported(symbol: string)       // TOKEN_NOT_SUPPORTED_ERROR_MESSAGE + symbol
    | PriceFailed(cause: Message)             // PRICE_FAILED_ERROR_MESSAGE + e.message
    | UnknownError                            // UNKNOWN_ERROR_MESSAGE
    | InvalidDecimal(input: string)           // decimal.js rejecting its constructor argument

  /** A thrown value. Every alternative but `NonError` is an `Error` instance. */
  datatype Thrown =
    | Error(message: Message)
    | InitializationError(message: Message, code: ErrorCode)
    | HttpException(status: int, message: Message, code: ErrorCode)
    | NonError
  {
    predicate IsError() { !NonError? }
  }

  const UNSUPPORTED_CHAIN := Error(Text("Unsupported chain"))

  /** The three ways an (awaited) call can end. */
  datatype Completion<+T> = Returns(value: T) | Throws(thrown: Thrown) | Hangs {

    predicate IsFailure() { !Returns? }

    function PropagateFailure<U>(): (r: Completion<U>)
      requires !Returns?
      ensures r.Throws? == Throws? && r.Hangs? == Hangs? && (Throws? ==> r.thrown == thrown)
    {
      if Throws? then Throws(thrown) else Hangs
    }

    function Extract(): T
      requires Returns?
    {
      value
    }
  }
}
