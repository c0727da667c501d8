/** The part of the document store's behaviour the three schemas rely on:
    field validators (`required`, `minlength`, `match`, `enum`), the
    ValidationError they raise, the duplicate-key error of a unique index,
    and errors thrown by a pre-save hook. */
module Documents {
  import opened Wrappers
  import opened Strings

  datatype FieldError = FieldError(path: string, message: string)

  /** An error a store write can throw. */
  datatype Failure =
    | ValidationError(model: string, errors: seq<FieldError>)
    | DuplicateKey(index: string)
    | Thrown(message: string)
  {
    /** `err.name`. */
    function Name(): (r: string) {
      match this
      case ValidationError(_, _) => "ValidationError"
      case DuplicateKey(_) => "MongoServerError"
      case Thrown(_) => "Error"
    }

    /** `err.message`; only a thrown error can carry an empty one. */
    function Message(): (m: string)
      ensures this.Thrown? ==> m == this.message
      ensures !this.Thrown? ==> m != ""
    {
      match this
      case ValidationError(model, errors) => model + " validation failed" + ErrorList(errors)
      case DuplicateKey(index) => "E11000 duplicate key error index: " + index
      case Thrown(msg) => msg
    }
  }

  /** The outcome of `create` or `save`: the written value, or the error
      thrown, in which case nothing was written. */
  datatype Write<T> = Saved(value: T) | Failed(failure: Failure)

  /** ": path: message, path: message" as the store formats field errors. */
  function ErrorList(errors: seq<FieldError>): (r: string) {
    if |errors| == 0 then "" else ": " + FieldErrors(errors)
  }

  function FieldErrors(errors: seq<FieldError>): (r: string)
    requires |errors| >= 1
  {
    var head := errors[0].path + ": " + errors[0].message;
    if |errors| == 1 then head else head + ", " + FieldErrors(errors[1..])
  }

  /** The `required` validator on a string field: missing or empty fails. */
  function Required(path: string, value: Option<string>, message: string): (r: seq<FieldError>)
    ensures |r| <= 1
    ensures r == [] <==> value.Some? && value.value != ""
  {
    if value.None? || value.value == "" then [FieldError(path, message)] else []
  }

  /** The `match` validator: skipped on a missing or empty value. */
  function Match(path: string, value: Option<string>, ok: bool, message: string): (r: seq<FieldError>)
    ensures |r| <= 1
    ensures r == [] <==> value.None? || value.value == "" || ok
  {
    if value.None? || value.value == "" || ok then [] else [FieldError(path, message)]
  }

  /** The `trim: true` setter applied to an optional string field. */
  function TrimField(value: Option<string>): (r: Option<string>)
    ensures r.Some? <==> value.Some?
  {
    match value
    case None => None
    case Some(v) => Some(Trim(v))
  }
}
