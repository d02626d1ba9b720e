/**
 * Responses and the `handle_db_error` wrapper: an exception raised inside a gateway
 * operation becomes an `{error: message}` response whose status is chosen by the first
 * `except` clause whose class the exception belongs to.
 */
module DbErrors {
  import opened Documents

  datatype Body =
    | ErrorBody(error: string)
    | MessageBody(message: string)
    | RecordBody(record: Doc)
    | ListBody(records: seq<Doc>)

  datatype Response = Response(status: int, body: Body)

  /** `make_error_response`. */
  function ErrorResponse(message: string, status: int): Response
  {
    Response(status, ErrorBody(message))
  }

  /** `make_success_response` with its default status. */
  function SuccessResponse(message: string): Response
  {
    Response(200, MessageBody(message))
  }

  predicate IsSuccess(r: Response)
  {
    200 <= r.status <= 299
  }

  /** The exceptions gateway operations raise, by their most specific class. */
  datatype Raised =
    | InvalidOperation(reason: string)
    | AuthenticationError
    | UnauthorizedError
    | DuplicateKeyError(reason: string)
    | ValidationError(messages: seq<string>)
    | WriteError
    | NetworkTimeout
    | AutoReconnect
    | ServerSelectionTimeoutError
    | ConnectionFailure
    | OtherError(arg0: string)

  /** The classes the `except` clauses name, plus their common bases. */
  datatype ExcClass =
    | InvalidOperationClass | AuthenticationErrorClass | UnauthorizedErrorClass
    | DuplicateKeyErrorClass | ValidationErrorClass | WriteErrorClass | OperationFailureClass
    | NetworkTimeoutClass | AutoReconnectClass | ServerSelectionTimeoutErrorClass
    | ConnectionFailureClass | PyMongoErrorClass | ValueErrorClass | ExceptionClass

  /** `isinstance(e, c)`, following the class hierarchy of the driver and of the validation library. */
  predicate IsInstance(e: Raised, c: ExcClass)
  {
    c == ExceptionClass ||
    match e
    case InvalidOperation(_) => c in {InvalidOperationClass, PyMongoErrorClass}
    case AuthenticationError => c == AuthenticationErrorClass
    case UnauthorizedError => c == UnauthorizedErrorClass
    case DuplicateKeyError(_) =>
      c in {DuplicateKeyErrorClass, WriteErrorClass, OperationFailureClass, PyMongoErrorClass}
    case ValidationError(_) => c in {ValidationErrorClass, ValueErrorClass}
    case WriteError => c in {WriteErrorClass, OperationFailureClass, PyMongoErrorClass}
    case NetworkTimeout =>
      c in {NetworkTimeoutClass, AutoReconnectClass, ConnectionFailureClass, PyMongoErrorClass}
    case AutoReconnect => c in {AutoReconnectClass, ConnectionFailureClass, PyMongoErrorClass}
    case ServerSelectionTimeoutError =>
      c in {ServerSelectionTimeoutErrorClass, AutoReconnectClass, ConnectionFailureClass, PyMongoErrorClass}
    case ConnectionFailure => c in {ConnectionFailureClass, PyMongoErrorClass}
    case OtherError(_) => false
  }

  /** `"; ".join(messages)`. */
  function JoinMessages(messages: seq<string>): string
  {
    if |messages| == 0 then ""
    else if |messages| == 1 then messages[0]
    else messages[0] + "; " + JoinMessages(messages[1..])
  }

  /** The `args[0]` of the exceptions that reach the last clause. */
  function FirstArg(e: Raised): string
  {
    match e
    case InvalidOperation(reason) => reason
    case DuplicateKeyError(reason) => reason
    case OtherError(a) => a
    case _ => ""
  }

  /**
   * The position of the first `except` clause of `handle_db_error` whose class `e` belongs to;
   * 8 is the final catch-all. A duplicate key is a write error and a network timeout is a
   * connection failure in the driver's hierarchy; the earlier clauses decide both.
   */
  function FirstClause(e: Raised): (i: nat)
    ensures e.InvalidOperation? ==> i == 0
    ensures e.AuthenticationError? ==> i == 1
    ensures e.UnauthorizedError? ==> i == 2
    ensures e.DuplicateKeyError? ==> i == 3
    ensures e.ValidationError? ==> i == 4
    ensures e.WriteError? ==> i == 5
    ensures e.NetworkTimeout? ==> i == 6
    ensures e.AutoReconnect? || e.ServerSelectionTimeoutError? || e.ConnectionFailure? ==> i == 7
    ensures e.OtherError? ==> i == 8
  {
    if IsInstance(e, InvalidOperationClass) then 0
    else if IsInstance(e, AuthenticationErrorClass) then 1
    else if IsInstance(e, UnauthorizedErrorClass) then 2
    else if IsInstance(e, DuplicateKeyErrorClass) then 3
    else if IsInstance(e, ValidationErrorClass) then 4
    else if IsInstance(e, WriteErrorClass) then 5
    else if IsInstance(e, NetworkTimeoutClass) then 6
    else if IsInstance(e, ConnectionFailureClass) || IsInstance(e, ServerSelectionTimeoutErrorClass) then 7
    else 8
  }

  /** The response each clause of `handle_db_error` makes. */
  function ClauseResponse(i: nat, e: Raised): Response
    requires i == 4 ==> e.ValidationError?
  {
    if i == 0 then ErrorResponse("Invalid query", 400)
    else if i == 1 then ErrorResponse("Authentication failed", 401)
    else if i == 2 then ErrorResponse("Unauthorised", 403)
    else if i == 3 then ErrorResponse("Value already exists", 409)
    else if i == 4 then ErrorResponse(JoinMessages(e.messages), 422)
    else if i == 5 then ErrorResponse("Failed to write to database", 500)
    else if i == 6 then ErrorResponse("Database network timeout", 502)
    else if i == 7 then ErrorResponse("Failed to connect to database", 503)
    else ErrorResponse(FirstArg(e), 500)
  }

  /**
   * `handle_db_error`: the response of the first `except` clause whose class the exception
   * belongs to.
   */
  function HandleDbError(e: Raised): (r: Response)
    ensures e.InvalidOperation? ==> r == ErrorResponse("Invalid query", 400)
    ensures e.AuthenticationError? ==> r == ErrorResponse("Authentication failed", 401)
    ensures e.UnauthorizedError? ==> r == ErrorResponse("Unauthorised", 403)
    ensures e.DuplicateKeyError? ==> r == ErrorResponse("Value already exists", 409)
    ensures e.ValidationError? ==> r == ErrorResponse(JoinMessages(e.messages), 422)
    ensures e.WriteError? ==> r == ErrorResponse("Failed to write to database", 500)
    ensures e.NetworkTimeout? ==> r == ErrorResponse("Database network timeout", 502)
    ensures e.AutoReconnect? || e.ServerSelectionTimeoutError? || e.ConnectionFailure? ==>
      r == ErrorResponse("Failed to connect to database", 503)
    ensures e.OtherError? ==> r == ErrorResponse(e.arg0, 500)
    ensures r.body.ErrorBody? && !IsSuccess(r)
  {
    ClauseResponse(FirstClause(e), e)
  }
}
