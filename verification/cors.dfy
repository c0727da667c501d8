/** The CORS origin check configured in backend/src/index.js: the list of
    allowed origins read from `FRONTEND_URL`, and the decision for a
    request's `Origin` header. */
module Cors {
  import opened Wrappers
  import opened Strings
  import opened Http

  datatype Decision = Allow | Deny(message: string)

  const NotAllowed: string := "Not allowed by CORS"
  const Wildcard: string := "*"

  /** `FRONTEND_URL.split(",")`, entries kept as written, or the default
      origin alone when the variable is unset or empty. */
  function AllowedOrigins(frontendUrl: Option<string>): (list: seq<string>)
    ensures |list| >= 1
    ensures !Truthy(frontendUrl) ==> list == [DefaultFrontendUrl]
    ensures Truthy(frontendUrl) ==>
      (Join(list, ',') == frontendUrl.value && forall i :: 0 <= i < |list| ==> ',' !in list[i])
  {
    if Truthy(frontendUrl) then
      JoinSplit(frontendUrl.value, ',');
      Split(frontendUrl.value, ',')
    else [DefaultFrontendUrl]
  }

  /** A list written out comma by comma is read back entry by entry. */
  lemma AllowedOriginsOfList(origins: seq<string>)
    requires |origins| >= 1 && forall i :: 0 <= i < |origins| ==> ',' !in origins[i]
    requires Join(origins, ',') != ""
    ensures AllowedOrigins(Some(Join(origins, ','))) == origins
  {
    SplitJoin(origins, ',');
  }

  /** The `origin` callback. A request without an `Origin` header (or with
      an empty one) is let through. */
  function CheckOrigin(origin: Option<string>, allowed: seq<string>): (d: Decision)
    ensures d.Deny? ==> d.message == NotAllowed
    ensures !Truthy(origin) ==> d == Allow
    ensures Truthy(origin) ==> (d == Allow <==>
      exists i :: 0 <= i < |allowed| && (allowed[i] == origin.value || allowed[i] == Wildcard))
  {
    if !Truthy(origin) then Allow
    else if origin.value in allowed || Wildcard in allowed then Allow
    else Deny(NotAllowed)
  }

  /** A "*" entry lets every origin through. */
  lemma WildcardAllowsAll(origin: Option<string>, allowed: seq<string>)
    requires Wildcard in allowed
    ensures CheckOrigin(origin, allowed) == Allow
  {
  }

  /** Entries are not trimmed: in "a, b" the second entry is " b", so
      origin b is refused. */
  lemma SpaceAfterCommaRefused(a: string, b: string)
    requires ',' !in a && ',' !in b && b != "" && a != b && a != Wildcard
    ensures CheckOrigin(Some(b), AllowedOrigins(Some(a + [',', ' '] + b))) == Deny(NotAllowed)
  {
    var list := [a, [' '] + b];
    assert Join(list, ',') == a + [',', ' '] + b by {
      assert Join(list[1..], ',') == [' '] + b;
    }
    AllowedOriginsOfList(list);
    assert |[' '] + b| > |b|;
  }

  /** With `FRONTEND_URL` unset only the default front end is allowed. */
  lemma DefaultAllowsOnlyLocalFrontEnd(origin: string)
    requires origin != ""
    ensures CheckOrigin(Some(origin), AllowedOrigins(None)) == Allow <==> origin == DefaultFrontendUrl
  {
  }
}
