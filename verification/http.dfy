/** What a request handler hands back to Express, and the calls it makes to
    the outside world (blob storage and the SMS provider). Handlers are pure
    functions that return the reply, the new store and the calls they made,
    in order, so that "before any storage call" or "no SMS sent" can be
    stated about the returned call list. */
module Http {
  import opened Wrappers

  /** `res.status(status).json({ success, message, data })`; `success` is
      `true` exactly on the 2xx replies, so it is not stored separately. */
  datatype Reply<T> = Reply(status: int, message: string, data: Option<T>) {
    predicate Success() {
      200 <= status < 300
    }
  }

  function Fail<T>(status: int, message: string): (r: Reply<T>)
    ensures r.status == status && r.message == message && r.data.None?
  {
    Reply(status, message, None)
  }

  /** A handler's whole effect: its reply, the store after it, and the
      outbound calls it made, in order. */
  datatype Handled<T, S> = Handled(reply: Reply<T>, store: S, calls: seq<Call>)

  /** A string field of a request body that JavaScript treats as truthy:
      present and not empty. */
  predicate Truthy(v: Option<string>) {
    v.Some? && v.value != ""
  }

  /** `message || fallback`. */
  function OrElse(message: string, fallback: string): (r: string)
    ensures r != "" <==> message != "" || fallback != ""
    ensures message != "" ==> r == message
  {
    if message != "" then message else fallback
  }

  /** The front-end origin assumed when `FRONTEND_URL` is unset or empty. */
  const DefaultFrontendUrl: string := "http://localhost:5173"

  /** An id as it arrives in a URL or a token: a well-formed document id
      (here the record's position in its store) or a string the store
      cannot cast to an id, which makes the query throw a CastError. */
  datatype IdParam = ValidId(id: nat) | MalformedId

  /** One outbound call to an external provider. */
  datatype Call =
    | StorageUpload(fileName: string)
    | StorageDelete(publicId: string)
    | SmsSend(to: string, body: string)

  predicate NoStorageCall(calls: seq<Call>) {
    forall i :: 0 <= i < |calls| ==> !calls[i].StorageUpload? && !calls[i].StorageDelete?
  }

  predicate NoSms(calls: seq<Call>) {
    forall i :: 0 <= i < |calls| ==> !calls[i].SmsSend?
  }
}
