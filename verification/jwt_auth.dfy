/** The bearer-token gate (backend/src/middleware/jwtAuth.js): reading the
    token from the `Authorization` header, turning the verifier's verdict
    and the user lookup into a request user or a refusal, and the claims a
    new token carries. Signing and checking signatures is not modelled: the
    verifier is a parameter. */
module JwtAuth {
  import opened Wrappers
  import opened Strings
  import opened Http
  import opened Users

  const BearerPrefix: string := "Bearer "

  /** What `jwt.verify(token, secret)` did: decoded the payload's
      `userId`, or threw an error with this `name`. */
  datatype JwtOutcome = Decoded(userId: IdParam) | JwtFailed(name: string)

  /** `req.user` as the middleware builds it. */
  datatype ReqUser = ReqUser(
    id: nat,
    name: string,
    email: Option<string>,
    phoneNumber: Option<string>,
    authMethod: string)

  datatype AuthResult = Authenticated(user: ReqUser) | Rejected(status: int, message: string)

  /** `req.user` for stored user `id`. */
  function RequestUser(users: seq<User>, id: nat): (r: ReqUser)
    requires id < |users|
    ensures r.id == id && r.name == users[id].name && r.email == users[id].email
    ensures r.phoneNumber == users[id].phoneNumber && r.authMethod == users[id].authMethod
  {
    ReqUser(id, users[id].name, users[id].email, users[id].phoneNumber, users[id].authMethod)
  }

  /** `authHeader.split(" ")[1]`, for a header that starts with "Bearer ". */
  function BearerToken(header: string): (token: string)
    requires StartsWith(header, BearerPrefix)
    ensures token == Split(header[|BearerPrefix|..], ' ')[0]
  {
    assert header == "Bearer" + [' '] + header[|BearerPrefix|..];
    SplitFirstField("Bearer", ' ', header[|BearerPrefix|..]);
    Split(header, ' ')[1]
  }

  /** The whole rest of the header is the token when it holds no further
      space. */
  lemma BearerTokenIsRest(header: string)
    requires StartsWith(header, BearerPrefix) && ' ' !in header[|BearerPrefix|..]
    ensures BearerToken(header) == header[|BearerPrefix|..]
  {
    SplitNoSeparator(header[|BearerPrefix|..], ' ');
  }

  /** The catch block: which verifier errors are the client's fault. */
  function ErrorReply(name: string): (r: AuthResult)
    ensures r.Rejected?
    ensures r.status == 401 <==> name == "JsonWebTokenError" || name == "TokenExpiredError"
    ensures r.status != 401 ==> r == Rejected(500, "Authentication failed")
    ensures name == "JsonWebTokenError" ==> r.message == "Invalid token"
    ensures name == "TokenExpiredError" ==> r.message == "Token expired"
  {
    if name == "JsonWebTokenError" then Rejected(401, "Invalid token")
    else if name == "TokenExpiredError" then Rejected(401, "Token expired")
    else Rejected(500, "Authentication failed")
  }

  /** `verifyToken(req, res, next)`: `Authenticated` is the call to
      `next()` with `req.user` set. */
  function VerifyToken(header: Option<string>, verify: string -> JwtOutcome, users: seq<User>): (r: AuthResult)
    ensures header.None? || !StartsWith(header.value, BearerPrefix) ==> r == Rejected(401, "No token provided")
    ensures r.Authenticated? <==>
      (header.Some? && StartsWith(header.value, BearerPrefix)
       && verify(BearerToken(header.value)).Decoded?
       && verify(BearerToken(header.value)).userId.ValidId?
       && verify(BearerToken(header.value)).userId.id < |users|)
    ensures r.Authenticated? ==> r.user == RequestUser(users, verify(BearerToken(header.value)).userId.id)
    ensures r.Rejected? ==> r.status == 401 || r == Rejected(500, "Authentication failed")
  {
    if header.None? || !StartsWith(header.value, BearerPrefix) then Rejected(401, "No token provided")
    else
      match verify(BearerToken(header.value))
      case JwtFailed(name) => ErrorReply(name)
      case Decoded(MalformedId) => ErrorReply("CastError")
      case Decoded(ValidId(id)) =>
        if id >= |users| then Rejected(401, "Invalid token - user not found")
        else Authenticated(RequestUser(users, id))
  }

  /** Only the token matters: two bearer headers with the same token get
      the same answer. */
  lemma VerifyTokenSeesOnlyToken(h1: string, h2: string, verify: string -> JwtOutcome, users: seq<User>)
    requires StartsWith(h1, BearerPrefix) && StartsWith(h2, BearerPrefix)
    requires BearerToken(h1) == BearerToken(h2)
    ensures VerifyToken(Some(h1), verify, users) == VerifyToken(Some(h2), verify, users)
  {
  }

  /** A well-formed token for an id with no user is refused with 401. */
  lemma VerifyTokenUnknownUser(header: string, verify: string -> JwtOutcome, users: seq<User>)
    requires StartsWith(header, BearerPrefix)
    requires verify(BearerToken(header)) == Decoded(ValidId(|users|))
    ensures VerifyToken(Some(header), verify, users) == Rejected(401, "Invalid token - user not found")
  {
  }

  // ---------------------------------------------------------------------
  // generateToken
  // ---------------------------------------------------------------------

  /** `"7d"` in seconds. */
  const TokenLifetimeSeconds: int := 7 * 24 * 60 * 60

  /** The payload and lifetime a token is signed with. */
  datatype TokenClaims = TokenClaims(userId: nat, expiresInSeconds: int)

  /** `generateToken(userId)`: `{ userId }`, valid for seven days. */
  function GenerateToken(userId: nat): (t: TokenClaims)
    ensures t.userId == userId && t.expiresInSeconds == 604800
  {
    TokenClaims(userId, TokenLifetimeSeconds)
  }

  /** A verifier that honours the claims it signed: it decodes a token to
      the id it was generated for. */
  predicate Honours(verify: string -> JwtOutcome, token: string, claims: TokenClaims) {
    verify(token) == Decoded(ValidId(claims.userId))
  }

  /** A token issued for a stored user lets that user in, with that user's
      stored fields. */
  lemma IssuedTokenAuthenticates(users: seq<User>, id: nat, token: string, verify: string -> JwtOutcome)
    requires id < |users|
    requires ' ' !in token
    requires Honours(verify, token, GenerateToken(id))
    ensures VerifyToken(Some(BearerPrefix + token), verify, users) == Authenticated(RequestUser(users, id))
  {
    var header := BearerPrefix + token;
    assert header[..|BearerPrefix|] == BearerPrefix;
    assert header[|BearerPrefix|..] == token;
    BearerTokenIsRest(header);
  }
}
