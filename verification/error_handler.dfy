/** The application-wide error middleware
    (backend/src/middleware/errorHandler.js): which status and message an
    error that reaches it is answered with, and the catch-all 404 for
    unknown routes. */
module ErrorHandler {
  import opened Wrappers
  import opened Http
  import opened Documents

  /** `err.code`: absent, a number (the store's duplicate-key error carries
      11000) or a string (as library errors such as multer's carry). */
  datatype ErrorCode = NoCode | NumCode(n: int) | TextCode(text: string)

  /** The fields of a thrown error the middleware reads. A missing
      `statusCode` and a missing `message` are `None` and `""`. */
  datatype AppError = AppError(
    name: string,
    code: ErrorCode,
    statusCode: Option<int>,
    message: string,
    errors: seq<string>)

  const ValidationFailed: string := "Validation error"
  const InvalidId: string := "Invalid ID format"
  const DuplicateEntry: string := "Duplicate entry - resource already exists"
  const InternalError: string := "Internal server error"
  const RouteNotFound: string := "Route not found"
  const DuplicateKeyCode: int := 11000

  /** The reply; its `data` is the `errors` list, sent only for a
      validation error. */
  function HandleError(err: AppError): (r: Reply<seq<string>>)
    ensures err.name == "ValidationError" ==> r == Reply(400, ValidationFailed, Some(err.errors))
    ensures err.name == "CastError" ==> r == Reply(400, InvalidId, None)
    ensures r.status == 409 <==>
      (err.name != "ValidationError" && err.name != "CastError"
       && (err.code == NumCode(DuplicateKeyCode) || (err.statusCode == Some(409))))
    ensures r.data.Some? <==> err.name == "ValidationError"
    ensures r.message != ""
    ensures !r.Success()
      || (err.name != "ValidationError" && err.name != "CastError" && err.code != NumCode(DuplicateKeyCode)
          && err.statusCode.Some? && 200 <= err.statusCode.value < 300)
  {
    if err.name == "ValidationError" then Reply(400, ValidationFailed, Some(err.errors))
    else if err.name == "CastError" then Reply(400, InvalidId, None)
    else if err.code == NumCode(DuplicateKeyCode) then Reply(409, DuplicateEntry, None)
    else
      var status := if err.statusCode.Some? && err.statusCode.value != 0 then err.statusCode.value else 500;
      Reply(status, OrElse(err.message, InternalError), None)
  }

  /** The name checks come before the code check: a validation error
      carrying the duplicate-key code is still a 400. */
  lemma NameBeforeCode(err: AppError)
    requires err.code == NumCode(DuplicateKeyCode)
    ensures err.name == "ValidationError" || err.name == "CastError" ==> HandleError(err).status == 400
    ensures err.name != "ValidationError" && err.name != "CastError" ==> HandleError(err) == Reply(409, DuplicateEntry, None)
  {
  }

  /** `===` compares without conversion: the code written as text is not
      the duplicate-key code, and the default path decides. */
  lemma TextCodeIsNotDuplicate(err: AppError)
    requires err.name != "ValidationError" && err.name != "CastError"
    requires err.code == TextCode("11000") && err.statusCode.None?
    ensures HandleError(err) == Reply(500, OrElse(err.message, InternalError), None)
  {
  }

  /** The default path: `err.statusCode || 500` and
      `err.message || "Internal server error"`; a status code of 0 is falsy. */
  lemma DefaultPath(err: AppError)
    requires err.name != "ValidationError" && err.name != "CastError" && err.code != NumCode(DuplicateKeyCode)
    ensures HandleError(err).status == (if err.statusCode.Some? && err.statusCode.value != 0 then err.statusCode.value else 500)
    ensures err.message != "" ==> HandleError(err).message == err.message
    ensures err.message == "" ==> HandleError(err).message == InternalError
  {
  }

  /** `notFoundHandler`: every unmatched route. */
  function NotFound(): (r: Reply<seq<string>>)
    ensures r.status == 404 && !r.Success() && r.data.None?
    ensures r.message == RouteNotFound
  {
    Reply(404, RouteNotFound, None)
  }

  // ---------------------------------------------------------------------
  // Store errors reaching the middleware
  // ---------------------------------------------------------------------

  /** The error object a failed store write throws. Every controller
      modelled here catches its own store errors and answers them itself,
      so this path is taken only by a failed write that some other code
      lets propagate to the middleware. */
  function ErrorOf(f: Failure): (err: AppError)
    ensures err.name == f.Name() && err.message == f.Message()
    ensures f.ValidationError? ==>
      (|err.errors| == |f.errors| && forall i :: 0 <= i < |f.errors| ==> err.errors[i] == f.errors[i].message)
    ensures err.code == NumCode(DuplicateKeyCode) <==> f.DuplicateKey?
  {
    match f
    case ValidationError(_, errors) =>
      AppError(f.Name(), NoCode, None, f.Message(), seq(|errors|, i requires 0 <= i < |errors| => errors[i].message))
    case DuplicateKey(_) => AppError(f.Name(), NumCode(DuplicateKeyCode), None, f.Message(), [])
    case Thrown(m) => AppError(f.Name(), NoCode, None, m, [])
  }

  /** A refused write that reaches the middleware is answered by its kind:
      400 with the field messages for a validation error, 409 for a taken
      unique key, 500 with the thrown message otherwise. */
  lemma StoreFailureStatus(f: Failure)
    ensures f.ValidationError? ==>
      (HandleError(ErrorOf(f)).status == 400 && HandleError(ErrorOf(f)).data.value == ErrorOf(f).errors)
    ensures f.DuplicateKey? ==> HandleError(ErrorOf(f)) == Reply(409, DuplicateEntry, None)
    ensures f.Thrown? ==> HandleError(ErrorOf(f)) == Reply(500, OrElse(f.message, InternalError), None)
  {
  }
}
