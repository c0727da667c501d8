/** The phone-login handlers (backend/src/controller/authController.js):
    send-otp, verify-otp, and reading and updating one's profile. Each
    handler is a function of the request body, the stores, the clock and
    the answers of the outside world, returning the reply, the new stores
    and the calls made. */
module AuthController {
  import opened Wrappers
  import opened Strings
  import opened Http
  import opened Documents
  import opened Phone
  import opened Otps
  import opened Users
  import opened Sms
  import opened JwtAuth

  // ---------------------------------------------------------------------
  // POST /api/auth/send-otp
  // ---------------------------------------------------------------------

  const PhoneRequired: string := "Phone number is required"
  const E164Required: string := "Phone number must be in E.164 format (e.g., +1234567890)"
  const OtpSent: string := "OTP sent successfully"
  const SendOtpFallback: string := "Failed to send OTP"

  /** The body passes the handler's own two checks: given, and starting
      with '+'. */
  predicate PassesSendChecks(phoneNumber: Option<string>) {
    Truthy(phoneNumber) && StartsWith(phoneNumber.value, "+")
  }

  /** The record `OTP.create` will accept: the trimmed number matches the
      schema pattern. */
  predicate StorablePhone(phoneNumber: Option<string>) {
    PassesSendChecks(phoneNumber) && MatchesPhonePattern(Trim(phoneNumber.value))
  }

  /** A generated code survives the `trim` setter unchanged. */
  lemma GeneratedCodeTrims(draw: Draw)
    ensures Trim(GenerateOTP(draw)) == GenerateOTP(draw) != ""
  {
    var otp := GenerateOTP(draw);
    assert IsDigit(otp[0]) && IsDigit(otp[5]);
    TrimNoSpace(otp);
  }

  /** `sendOTPController`: `draw` is the random number behind the code,
      `outcome` the provider's answer to the one message sent. The record is
      written before the message is sent, so a failed send leaves it. */
  function SendOtp(phoneNumber: Option<string>, otps: seq<OtpRecord>, draw: Draw, now: int,
                   outcome: ProviderOutcome): (r: Handled<(), seq<OtpRecord>>)
    ensures !Truthy(phoneNumber) ==> r == Handled(Fail(400, PhoneRequired), otps, [])
    ensures Truthy(phoneNumber) && !PassesSendChecks(phoneNumber) ==> r == Handled(Fail(400, E164Required), otps, [])
    ensures r.reply.status == 200 <==> StorablePhone(phoneNumber) && outcome.Delivered?
    ensures r.reply.status == 400 <==> !PassesSendChecks(phoneNumber)
    ensures r.reply.status != 200 ==> r.reply.status == 400 || r.reply.status == 500
    ensures r.reply.Success() ==> r.reply.message == OtpSent
    ensures !StorablePhone(phoneNumber) ==> r.calls == [] && r.store == otps
    ensures StorablePhone(phoneNumber) ==>
      && r.calls == [SmsSend(phoneNumber.value, OtpMessageBody(GenerateOTP(draw)))]
      && r.store == otps + [OtpRecord(Trim(phoneNumber.value), GenerateOTP(draw), now, now + OtpLifetimeMs, false, 0)]
    ensures r.reply.status == 500 ==> r.reply.message != ""
  {
    if !Truthy(phoneNumber) then Handled(Fail(400, PhoneRequired), otps, [])
    else if !StartsWith(phoneNumber.value, "+") then Handled(Fail(400, E164Required), otps, [])
    else
      var otp := GenerateOTP(draw);
      GeneratedCodeTrims(draw);
      match CreateOtp(otps, phoneNumber, Some(otp), now)
      case Failed(f) => Handled(Fail(500, OrElse(f.Message(), SendOtpFallback)), otps, [])
      case Saved(stored) =>
        assert stored == stored[..|otps|] + [stored[|otps|]];
        var (call, sent) := SendOTP(phoneNumber.value, otp, outcome);
        match sent
        case SendFailed(message) => Handled(Fail(500, OrElse(message, SendOtpFallback)), stored, [call])
        case Sent(_) => Handled(Reply(200, OtpSent, None), stored, [call])
  }

  /** A number with the '+' the handler asks for but refused by the schema
      (a leading zero, too long, a space inside) gets a 500 carrying the
      store's validation error, and no message is sent. */
  lemma SendOtpSchemaRefusal(phoneNumber: string, otps: seq<OtpRecord>, draw: Draw, now: int, outcome: ProviderOutcome)
    requires StartsWith(phoneNumber, "+") && !MatchesPhonePattern(Trim(phoneNumber))
    requires Trim(phoneNumber) != ""
    ensures SendOtp(Some(phoneNumber), otps, draw, now, outcome)
         == Handled(Fail(500, PhoneRefusal.Message()), otps, [])
  {
    var otp := GenerateOTP(draw);
    assert CreateOtp(otps, Some(phoneNumber), Some(otp), now) == Failed(PhoneRefusal) by {
      GeneratedCodeTrims(draw);
      BadPhoneRefused(otps, phoneNumber, otp, now);
    }
    assert OrElse(PhoneRefusal.Message(), SendOtpFallback) == PhoneRefusal.Message();
  }

  /** The error `OTP.create` throws for a number the pattern refuses. */
  const PhoneRefusal: Failure := ValidationError("OTP", [FieldError("phoneNumber", "Please fill a valid phone number")])

  /** A failed SMS still leaves the new record behind: the caller is told
      sending failed, yet a code for the number is pending. */
  lemma SendOtpFailureKeepsRecord(phoneNumber: Option<string>, otps: seq<OtpRecord>, draw: Draw, now: int,
                                  code: string, message: string)
    requires StorablePhone(phoneNumber)
    ensures var r := SendOtp(phoneNumber, otps, draw, now, ProviderError(code, message));
      r.reply.status == 500 && |r.store| == |otps| + 1 && r.store[|otps|].otp == GenerateOTP(draw)
  {
    var r := SendOtp(phoneNumber, otps, draw, now, ProviderError(code, message));
    assert r.reply.status != 200 && r.reply.status != 400;
    assert r.store[|otps|].otp == GenerateOTP(draw) by { GeneratedCodeTrims(draw); }
  }

  /** send-otp keeps every stored record valid. */
  lemma SendOtpKeepsValid(phoneNumber: Option<string>, otps: seq<OtpRecord>, draw: Draw, now: int,
                          outcome: ProviderOutcome)
    requires ValidStore(otps)
    ensures ValidStore(SendOtp(phoneNumber, otps, draw, now, outcome).store)
  {
    if StorablePhone(phoneNumber) {
      GeneratedCodeTrims(draw);
      CreateOtpKeepsValid(otps, phoneNumber, Some(GenerateOTP(draw)), now);
    }
  }

  // ---------------------------------------------------------------------
  // POST /api/auth/verify-otp
  // ---------------------------------------------------------------------

  /** The two collections the login flow touches. */
  datatype AuthStore = AuthStore(otps: seq<OtpRecord>, users: seq<User>)

  /** The `user` object of a successful login. */
  datatype LoginUser = LoginUser(
    id: nat,
    name: string,
    phoneNumber: Option<string>,
    email: Option<string>,
    profilePicture: string)

  /** The data of a successful login: the token's claims and the user. */
  datatype Login = Login(token: TokenClaims, user: LoginUser)

  const CodeRequired: string := "Phone number and OTP are required"
  const NoOtpFound: string := "No OTP found. Please request a new one."
  const OtpExpired: string := "OTP has expired. Please request a new one."
  const TooManyAttempts: string := "Too many failed attempts. Please request a new OTP."
  const InvalidOtp: string := "Invalid OTP"
  const NameRequired: string := "Name is required for new users"
  const LoginSuccessful: string := "Login successful"
  const VerifyFailed: string := "Failed to verify OTP"

  function LoginOf(users: seq<User>, id: nat): (l: Login)
    requires id < |users|
    ensures l.token == GenerateToken(id) && l.user.id == id
    ensures l.user.name == users[id].name && l.user.phoneNumber == users[id].phoneNumber
    ensures l.user.email == users[id].email && l.user.profilePicture == users[id].profilePicture
  {
    var u := users[id];
    Login(GenerateToken(id), LoginUser(id, u.name, u.phoneNumber, u.email, u.profilePicture))
  }

  /** The user created for a number logging in for the first time. */
  function PhoneUser(phoneNumber: string, name: string): (u: User)
    ensures u.phoneNumber == Some(Trim(phoneNumber)) && u.name == Trim(name)
    ensures u.authMethod == "phone" && u.isPhoneVerified && u.auth0Id.None? && u.email.None?
  {
    NewUser(None, Some(phoneNumber), "phone", name, None, None, Some(true))
  }

  /** What happens once the code is accepted: find or create the user and
      log them in. Only the users are read or written here; the consumed
      code record is already in the store. */
  function LogIn(phoneNumber: string, name: Option<string>, users: seq<User>, emailOk: string -> bool)
    : (r: Handled<Login, seq<User>>)
    ensures r.calls == []
    ensures r.reply.Success() ==> r.reply.data.Some? && r.reply.data.value.user.id < |r.store|
    ensures r.reply.Success() ==> var id := r.reply.data.value.user.id;
      r.store[id].phoneNumber == Some(Trim(phoneNumber)) && r.store[id].isPhoneVerified
      && r.reply.data.value == LoginOf(r.store, id)
    ensures !r.reply.Success() ==> r.store == users
  {
    var phone := Trim(phoneNumber);
    match FindByPhone(users, phone)
    case None =>
      if !Truthy(name) then Handled(Fail(400, NameRequired), users, [])
      else
        (match SaveUser(users, None, PhoneUser(phoneNumber, name.value), emailOk)
         case Failed(_) => Handled(Fail(500, VerifyFailed), users, [])
         case Saved(saved) =>
           assert saved[|users|] == PhoneUser(phoneNumber, name.value);
           Handled(Reply(200, LoginSuccessful, Some(LoginOf(saved, |users|))), saved, []))
    case Some(j) =>
      match SaveUser(users, Some(j), users[j].(isPhoneVerified := true), emailOk)
      case Failed(_) => Handled(Fail(500, VerifyFailed), users, [])
      case Saved(saved) =>
        assert saved[j] == users[j].(isPhoneVerified := true);
        Handled(Reply(200, LoginSuccessful, Some(LoginOf(saved, j))), saved, [])
  }

  /** A number no user holds: without a name the login is a 400; with one,
      the new phone user is appended and logged in when the store accepts
      it, and otherwise the login is a 500 that changes nothing. */
  lemma LogInNewNumber(phoneNumber: string, name: Option<string>, users: seq<User>, emailOk: string -> bool)
    requires FindByPhone(users, Trim(phoneNumber)).None?
    ensures var r := LogIn(phoneNumber, name, users, emailOk);
      && (!Truthy(name) ==> r == Handled(Fail(400, NameRequired), users, []))
      && (Truthy(name) ==>
            var u := PhoneUser(phoneNumber, name.value);
            if SaveUser(users, None, u, emailOk).Saved?
            then r.reply == Reply(200, LoginSuccessful, Some(LoginOf(users + [u], |users|))) && r.store == users + [u]
            else r == Handled(Fail(500, VerifyFailed), users, []))
  {
  }

  /** A number a user holds: that user, and only its `isPhoneVerified`
      flag, is updated and logged in, or the login is a 500 that changes
      nothing. */
  lemma LogInHolder(phoneNumber: string, name: Option<string>, users: seq<User>, emailOk: string -> bool)
    requires FindByPhone(users, Trim(phoneNumber)).Some?
    ensures var r := LogIn(phoneNumber, name, users, emailOk);
      var j := FindByPhone(users, Trim(phoneNumber)).value;
      var u := users[j].(isPhoneVerified := true);
      if SaveUser(users, Some(j), u, emailOk).Saved?
      then r.reply == Reply(200, LoginSuccessful, Some(LoginOf(users[j := u], j))) && r.store == users[j := u]
      else r == Handled(Fail(500, VerifyFailed), users, [])
  {
  }

  /** `verifyOTPController`. The lookup and the user query see the number
      through the schemas' `trim` setter; the code is compared as sent. */
  function VerifyOtp(phoneNumber: Option<string>, otp: Option<string>, name: Option<string>,
                     st: AuthStore, now: int, emailOk: string -> bool): (r: Handled<Login, AuthStore>)
    ensures r.calls == [] && |r.store.otps| == |st.otps|
    ensures !Truthy(phoneNumber) || !Truthy(otp) ==> r == Handled(Fail(400, CodeRequired), st, [])
    ensures Truthy(phoneNumber) && Truthy(otp) && NewestPending(st.otps, Trim(phoneNumber.value)).None? ==>
      r == Handled(Fail(400, NoOtpFound), st, [])
    ensures Truthy(phoneNumber) && Truthy(otp) && NewestPending(st.otps, Trim(phoneNumber.value)).Some? ==>
      var i := NewestPending(st.otps, Trim(phoneNumber.value)).value;
      var rec := st.otps[i];
      && (rec.expiresAt < now ==> r == Handled(Fail(400, OtpExpired), st, []))
      && (rec.expiresAt >= now && rec.attempts >= MaxAttempts ==> r == Handled(Fail(400, TooManyAttempts), st, []))
      && (rec.expiresAt >= now && rec.attempts < MaxAttempts && rec.otp != otp.value ==>
            r == Handled(Fail(400, InvalidOtp), st.(otps := st.otps[i := rec.(attempts := rec.attempts + 1)]), []))
    ensures r.reply.Success() ==>
      && Truthy(phoneNumber) && Truthy(otp)
      && var i := NewestPending(st.otps, Trim(phoneNumber.value));
      && i.Some? && st.otps[i.value].otp == otp.value && now <= st.otps[i.value].expiresAt
      && st.otps[i.value].attempts < MaxAttempts
      && r.store.otps == st.otps[i.value := st.otps[i.value].(isVerified := true)]
    ensures r.reply.Success() ==> r.reply.data.Some? && r.reply.data.value.user.id < |r.store.users|
    ensures r.reply.Success() ==> var id := r.reply.data.value.user.id;
      r.store.users[id].phoneNumber == Some(Trim(phoneNumber.value)) && r.store.users[id].isPhoneVerified
      && r.reply.data.value.token == GenerateToken(id)
  {
    if !Truthy(phoneNumber) || !Truthy(otp) then Handled(Fail(400, CodeRequired), st, [])
    else
      var phone := Trim(phoneNumber.value);
      match NewestPending(st.otps, phone)
      case None => Handled(Fail(400, NoOtpFound), st, [])
      case Some(i) =>
        var (attempt, rec) := TryCode(st.otps[i], otp.value, now);
        var tried := st.(otps := st.otps[i := rec]);
        match attempt
        case Expired => Handled(Fail(400, OtpExpired), st, [])
        case Exhausted => Handled(Fail(400, TooManyAttempts), st, [])
        case WrongCode => Handled(Fail(400, InvalidOtp), tried, [])
        case Accepted =>
          var login := LogIn(phoneNumber.value, name, tried.users, emailOk);
          Handled(login.reply, tried.(users := login.store), [])
  }

  /** verify-otp keeps both stores' invariants: no record passes three
      guesses, and the users stay valid and unique. */
  lemma VerifyOtpKeepsValid(phoneNumber: Option<string>, otp: Option<string>, name: Option<string>,
                            st: AuthStore, now: int, emailOk: string -> bool)
    requires ValidStore(st.otps) && ValidUsers(st.users, emailOk)
    ensures var r := VerifyOtp(phoneNumber, otp, name, st, now, emailOk);
      ValidStore(r.store.otps) && ValidUsers(r.store.users, emailOk)
  {
    if Truthy(phoneNumber) && Truthy(otp) {
      var phone := Trim(phoneNumber.value);
      var i := NewestPending(st.otps, phone);
      if i.Some? {
        var rec := TryCode(st.otps[i.value], otp.value, now).1;
        assert ValidStore(st.otps[i.value := rec]) by {
          TryCodeKeepsValid(st.otps[i.value], otp.value, now);
          ReplaceKeepsValid(st.otps, i.value, rec);
        }
        LogInKeepsValid(phoneNumber.value, name, st.users, emailOk);
      }
    }
  }

  lemma LogInKeepsValid(phoneNumber: string, name: Option<string>, users: seq<User>, emailOk: string -> bool)
    requires ValidUsers(users, emailOk)
    ensures ValidUsers(LogIn(phoneNumber, name, users, emailOk).store, emailOk)
  {
    var phone := Trim(phoneNumber);
    match FindByPhone(users, phone)
    case None =>
      if Truthy(name) && SaveUser(users, None, PhoneUser(phoneNumber, name.value), emailOk).Saved? {
        SaveUserKeepsValid(users, None, PhoneUser(phoneNumber, name.value), emailOk);
      }
    case Some(j) =>
      MarkVerifiedSaves(users, j, emailOk);
      SaveUserKeepsValid(users, Some(j), users[j].(isPhoneVerified := true), emailOk);
  }

  /** A wrong code is refused and counted against the record it was
      tried on; nothing else changes. */
  lemma WrongCodeCounted(phoneNumber: string, otp: string, name: Option<string>, st: AuthStore, now: int,
                         emailOk: string -> bool)
    requires phoneNumber != "" && otp != ""
    requires NewestPending(st.otps, Trim(phoneNumber)).Some?
    requires TryCode(st.otps[NewestPending(st.otps, Trim(phoneNumber)).value], otp, now).0 == WrongCode
    ensures var i := NewestPending(st.otps, Trim(phoneNumber)).value;
      var r := VerifyOtp(Some(phoneNumber), Some(otp), name, st, now, emailOk);
      && r.reply == Fail(400, InvalidOtp)
      && r.store == st.(otps := st.otps[i := st.otps[i].(attempts := st.otps[i].attempts + 1)])
  {
  }

  /** A first-time number without a name is turned away, but only after its
      code was marked used: the same code can never log in again. */
  lemma MissingNameConsumesCode(phoneNumber: string, otp: string, name: Option<string>, st: AuthStore, now: int,
                                emailOk: string -> bool)
    requires phoneNumber != "" && otp != "" && !Truthy(name)
    requires NewestPending(st.otps, Trim(phoneNumber)).Some?
    requires TryCode(st.otps[NewestPending(st.otps, Trim(phoneNumber)).value], otp, now).0 == Accepted
    requires FindByPhone(st.users, Trim(phoneNumber)).None?
    ensures var i := NewestPending(st.otps, Trim(phoneNumber)).value;
      var r := VerifyOtp(Some(phoneNumber), Some(otp), name, st, now, emailOk);
      && r.reply == Fail(400, NameRequired)
      && r.store.otps[i].isVerified
      && NewestPending(r.store.otps, Trim(phoneNumber)) != Some(i)
  {
  }

  /** A first-time name that trims to one character is refused by the user
      schema: the caller sees a 500, and the code is spent all the same. */
  lemma ShortNameSpendsCode(phoneNumber: string, otp: string, name: string, st: AuthStore, now: int,
                            emailOk: string -> bool)
    requires phoneNumber != "" && otp != "" && name != "" && Utf16Length(Trim(name)) < MinNameLength
    requires NewestPending(st.otps, Trim(phoneNumber)).Some?
    requires TryCode(st.otps[NewestPending(st.otps, Trim(phoneNumber)).value], otp, now).0 == Accepted
    requires FindByPhone(st.users, Trim(phoneNumber)).None?
    ensures var i := NewestPending(st.otps, Trim(phoneNumber)).value;
      var r := VerifyOtp(Some(phoneNumber), Some(otp), Some(name), st, now, emailOk);
      r.reply == Fail(500, VerifyFailed) && r.store.otps[i].isVerified && r.store.users == st.users
  {
    ShortNameLoginFails(phoneNumber, name, st.users, emailOk);
  }

  /** The login step for a new number whose name trims to one character:
      the user schema refuses it, and nothing is written. */
  lemma ShortNameLoginFails(phoneNumber: string, name: string, users: seq<User>, emailOk: string -> bool)
    requires name != "" && Utf16Length(Trim(name)) < MinNameLength && FindByPhone(users, Trim(phoneNumber)).None?
    ensures LogIn(phoneNumber, Some(name), users, emailOk) == Handled(Fail(500, VerifyFailed), users, [])
  {
    var u := PhoneUser(phoneNumber, name);
    assert SaveUser(users, None, u, emailOk).Failed? by {
      assert !ValidFields(u, emailOk);
    }
  }

  /** A TTL sweep between sending and verifying never changes the answer
      while the newest code is still live. */
  lemma EvictionKeepsLiveVerdict(phoneNumber: string, otp: string, name: Option<string>, st: AuthStore, now: int,
                                 sweep: seq<bool>, emailOk: string -> bool)
    requires |sweep| == |st.otps| && phoneNumber != "" && otp != ""
    requires NewestPending(st.otps, Trim(phoneNumber)).Some?
    requires st.otps[NewestPending(st.otps, Trim(phoneNumber)).value].expiresAt >= now
    ensures VerifyOtp(Some(phoneNumber), Some(otp), name, st.(otps := Evict(st.otps, now, sweep)), now, emailOk).reply
         == VerifyOtp(Some(phoneNumber), Some(otp), name, st, now, emailOk).reply
  {
    var phone := Trim(phoneNumber);
    EvictKeepsLiveNewest(st.otps, now, sweep, phone);
    var e := Evict(st.otps, now, sweep);
    var i := NewestPending(st.otps, phone).value;
    var m := NewestPending(e, phone).value;
  }

  /** Once the newest code has expired, a sweep can only turn "expired" into
      "no code found": either way the login is refused with a 400. */
  lemma EvictionKeepsExpiredRefused(phoneNumber: string, otp: string, name: Option<string>, st: AuthStore,
                                    now: int, sweep: seq<bool>, emailOk: string -> bool)
    requires |sweep| == |st.otps| && ValidStore(st.otps) && phoneNumber != "" && otp != ""
    requires NewestPending(st.otps, Trim(phoneNumber)).Some?
    requires st.otps[NewestPending(st.otps, Trim(phoneNumber)).value].expiresAt < now
    ensures VerifyOtp(Some(phoneNumber), Some(otp), name, st, now, emailOk).reply == Fail(400, OtpExpired)
    ensures var r := VerifyOtp(Some(phoneNumber), Some(otp), name, st.(otps := Evict(st.otps, now, sweep)), now, emailOk);
      r.reply == Fail(400, OtpExpired) || r.reply == Fail(400, NoOtpFound)
  {
    EvictExpiredNewest(st.otps, now, sweep, Trim(phoneNumber));
  }

  /** The right code, tried in time on a record with guesses left, logs
      in a registered number as that user. */
  lemma RightCodeLogsIn(phoneNumber: string, otp: string, name: Option<string>, st: AuthStore, now: int,
                        emailOk: string -> bool, j: nat)
    requires phoneNumber != "" && otp != ""
    requires NewestPending(st.otps, Trim(phoneNumber)).Some?
    requires TryCode(st.otps[NewestPending(st.otps, Trim(phoneNumber)).value], otp, now).0 == Accepted
    requires ValidUsers(st.users, emailOk)
    requires j < |st.users| && st.users[j].phoneNumber == Some(Trim(phoneNumber))
    ensures var r := VerifyOtp(Some(phoneNumber), Some(otp), name, st, now, emailOk);
      var users := st.users[j := st.users[j].(isPhoneVerified := true)];
      r.reply == Reply(200, LoginSuccessful, Some(LoginOf(users, j))) && r.store.users == users
  {
    FindByPhoneUnique(st.users, Trim(phoneNumber), emailOk, j);
    MarkVerifiedSaves(st.users, j, emailOk);
  }

  /** The right code, tried in time on a record with guesses left, for a
      number no user holds yet creates that user from the number and the
      given name and logs in as the new user. */
  lemma FirstLoginCreatesUser(phoneNumber: string, otp: string, name: string, st: AuthStore, now: int,
                              emailOk: string -> bool)
    requires phoneNumber != "" && otp != ""
    requires NewestPending(st.otps, Trim(phoneNumber)).Some?
    requires TryCode(st.otps[NewestPending(st.otps, Trim(phoneNumber)).value], otp, now).0 == Accepted
    requires forall j :: 0 <= j < |st.users| ==> st.users[j].phoneNumber != Some(Trim(phoneNumber))
    requires MatchesPhonePattern(Trim(phoneNumber)) && Utf16Length(Trim(name)) >= MinNameLength
    ensures var r := VerifyOtp(Some(phoneNumber), Some(otp), Some(name), st, now, emailOk);
      var users := st.users + [PhoneUser(phoneNumber, name)];
      r.reply == Reply(200, LoginSuccessful, Some(LoginOf(users, |st.users|))) && r.store.users == users
  {
    NewPhoneUserSaves(st.users, phoneNumber, name, emailOk);
    AcceptedCodeLogsIn(phoneNumber, otp, Some(name), st, now, emailOk);
    LogInNewNumber(phoneNumber, Some(name), st.users, emailOk);
  }

  /** Once the code is accepted, verify-otp answers what the login step
      answers and stores the users it leaves. */
  lemma AcceptedCodeLogsIn(phoneNumber: string, otp: string, name: Option<string>, st: AuthStore, now: int,
                           emailOk: string -> bool)
    requires phoneNumber != "" && otp != ""
    requires NewestPending(st.otps, Trim(phoneNumber)).Some?
    requires TryCode(st.otps[NewestPending(st.otps, Trim(phoneNumber)).value], otp, now).0 == Accepted
    ensures var r := VerifyOtp(Some(phoneNumber), Some(otp), name, st, now, emailOk);
      var login := LogIn(phoneNumber, name, st.users, emailOk);
      r.reply == login.reply && r.store.users == login.store
  {
  }

  /** The store accepts the new phone user for a valid number no user holds
      and a name of two UTF-16 code units or more. */
  lemma NewPhoneUserSaves(users: seq<User>, phoneNumber: string, name: string, emailOk: string -> bool)
    requires forall j :: 0 <= j < |users| ==> users[j].phoneNumber != Some(Trim(phoneNumber))
    requires MatchesPhonePattern(Trim(phoneNumber)) && Utf16Length(Trim(name)) >= MinNameLength
    ensures SaveUser(users, None, PhoneUser(phoneNumber, name), emailOk).Saved?
  {
    var u := PhoneUser(phoneNumber, name);
    assert ValidFields(u, emailOk) && HasIdentity(u);
    assert !PhoneTaken(users, None, u.phoneNumber);
  }

  /** A code that was just sent is the record verify-otp will check, and
      it is fresh: not used, not guessed at, alive for five minutes. */
  lemma SentCodeIsNewest(phoneNumber: string, otps: seq<OtpRecord>, draw: Draw, sentAt: int, sid: string)
    requires StorablePhone(Some(phoneNumber))
    requires forall k :: 0 <= k < |otps| ==> otps[k].createdAt <= sentAt
    ensures var s := SendOtp(Some(phoneNumber), otps, draw, sentAt, Delivered(sid)).store;
      && NewestPending(s, Trim(phoneNumber)) == Some(|otps|)
      && s[|otps|].otp == GenerateOTP(draw) && s[|otps|].attempts == 0
      && s[|otps|].expiresAt == sentAt + OtpLifetimeMs
  {
    var rec := OtpRecord(Trim(phoneNumber), GenerateOTP(draw), sentAt, sentAt + OtpLifetimeMs, false, 0);
    assert SendOtp(Some(phoneNumber), otps, draw, sentAt, Delivered(sid)).store == otps + [rec];
    AppendedIsNewest(otps, rec, Trim(phoneNumber));
  }

  /** The round trip the two endpoints exist for: a code sent to a
      registered number, entered within five minutes, logs that user in and
      hands back a token for their id. */
  lemma SendThenVerifyLogsIn(phoneNumber: string, st: AuthStore, draw: Draw, sentAt: int, sid: string,
                             enteredAt: int, name: Option<string>, emailOk: string -> bool, j: nat)
    requires StorablePhone(Some(phoneNumber))
    requires forall k :: 0 <= k < |st.otps| ==> st.otps[k].createdAt <= sentAt
    requires enteredAt <= sentAt + OtpLifetimeMs
    requires ValidUsers(st.users, emailOk)
    requires j < |st.users| && st.users[j].phoneNumber == Some(Trim(phoneNumber))
    ensures var sent := SendOtp(Some(phoneNumber), st.otps, draw, sentAt, Delivered(sid));
      var users := st.users[j := st.users[j].(isPhoneVerified := true)];
      VerifyOtp(Some(phoneNumber), Some(GenerateOTP(draw)), name, st.(otps := sent.store), enteredAt, emailOk).reply
        == Reply(200, LoginSuccessful, Some(LoginOf(users, j)))
  {
    var code := GenerateOTP(draw);
    var sent := SendOtp(Some(phoneNumber), st.otps, draw, sentAt, Delivered(sid)).store;
    SentCodeIsNewest(phoneNumber, st.otps, draw, sentAt, sid);
    assert TryCode(sent[|st.otps|], code, enteredAt).0 == Accepted;
    RightCodeLogsIn(phoneNumber, code, name, st.(otps := sent), enteredAt, emailOk, j);
  }

  // ---------------------------------------------------------------------
  // GET /api/auth/profile
  // ---------------------------------------------------------------------

  /** The `user` object of the profile reply; `createdAt` is not kept. */
  datatype Profile = Profile(
    id: nat,
    name: string,
    email: Option<string>,
    phoneNumber: Option<string>,
    profilePicture: string,
    authMethod: string,
    isPhoneVerified: bool)

  const UserNotFound: string := "User not found"

  function ProfileOf(users: seq<User>, id: nat): (p: Profile)
    requires id < |users|
    ensures p.id == id && p.name == users[id].name && p.email == users[id].email
    ensures p.phoneNumber == users[id].phoneNumber && p.profilePicture == users[id].profilePicture
    ensures p.authMethod == users[id].authMethod && p.isPhoneVerified == users[id].isPhoneVerified
  {
    var u := users[id];
    Profile(id, u.name, u.email, u.phoneNumber, u.profilePicture, u.authMethod, u.isPhoneVerified)
  }

  /** `getProfile` for the authenticated user id. */
  function GetProfile(id: nat, users: seq<User>): (r: Reply<Profile>)
    ensures r.status == 404 <==> id >= |users|
    ensures r.status == 404 ==> r == Fail(404, UserNotFound)
    ensures r.status != 404 ==> r.status == 200 && r.data == Some(ProfileOf(users, id))
  {
    if id >= |users| then Fail(404, UserNotFound) else Reply(200, "", Some(ProfileOf(users, id)))
  }

  /** Every user the middleware lets through can read their profile, and it
      agrees with what the middleware put on the request. */
  lemma AuthenticatedProfileAgrees(header: Option<string>, verify: string -> JwtOutcome, users: seq<User>)
    requires VerifyToken(header, verify, users).Authenticated?
    ensures var ru := VerifyToken(header, verify, users).user;
      var p := GetProfile(ru.id, users);
      p.status == 200 && p.data.value.name == ru.name && p.data.value.email == ru.email
      && p.data.value.phoneNumber == ru.phoneNumber && p.data.value.authMethod == ru.authMethod
  {
  }

  // ---------------------------------------------------------------------
  // PUT /api/auth/profile
  // ---------------------------------------------------------------------

  const ProfileUpdated: string := "Profile updated successfully"
  const ProfileUpdateFailed: string := "Failed to update profile"

  /** The assignments `if (x) user.x = x` for the three editable fields,
      each through its schema setter. */
  function ApplyEdits(u: User, name: Option<string>, email: Option<string>, profilePicture: Option<string>)
    : (v: User)
    ensures v.name == (if Truthy(name) then Trim(name.value) else u.name)
    ensures v.email == (if Truthy(email) then EmailSetter(email) else u.email)
    ensures v.profilePicture == (if Truthy(profilePicture) then Trim(profilePicture.value) else u.profilePicture)
    ensures v.auth0Id == u.auth0Id && v.phoneNumber == u.phoneNumber
    ensures v.authMethod == u.authMethod && v.isPhoneVerified == u.isPhoneVerified
  {
    u.(name := if Truthy(name) then Trim(name.value) else u.name)
     .(email := if Truthy(email) then EmailSetter(email) else u.email)
     .(profilePicture := if Truthy(profilePicture) then Trim(profilePicture.value) else u.profilePicture)
  }

  /** `updateProfile` for the authenticated user id. */
  function UpdateProfile(id: nat, name: Option<string>, email: Option<string>, profilePicture: Option<string>,
                         users: seq<User>, emailOk: string -> bool): (r: Handled<LoginUser, seq<User>>)
    ensures r.calls == []
    ensures id >= |users| ==> r == Handled(Fail(404, UserNotFound), users, [])
    ensures !r.reply.Success() ==> r.store == users
    ensures r.reply.Success() ==> id < |users| && r.store == users[id := ApplyEdits(users[id], name, email, profilePicture)]
    ensures id < |users| ==>
      (r.reply.Success() <==> SaveUser(users, Some(id), ApplyEdits(users[id], name, email, profilePicture), emailOk).Saved?)
    ensures id < |users| && !r.reply.Success() ==> r == Handled(Fail(500, ProfileUpdateFailed), users, [])
    ensures r.reply.Success() ==>
      var u := ApplyEdits(users[id], name, email, profilePicture);
      r.reply == Reply(200, ProfileUpdated, Some(LoginUser(id, u.name, u.phoneNumber, u.email, u.profilePicture)))
  {
    if id >= |users| then Handled(Fail(404, UserNotFound), users, [])
    else
      var u := ApplyEdits(users[id], name, email, profilePicture);
      match SaveUser(users, Some(id), u, emailOk)
      case Failed(_) => Handled(Fail(500, ProfileUpdateFailed), users, [])
      case Saved(saved) =>
        Handled(Reply(200, ProfileUpdated, Some(LoginUser(id, u.name, u.phoneNumber, u.email, u.profilePicture))),
                saved, [])
  }

  /** An empty update is a successful no-op on a valid store. */
  lemma EmptyUpdateIsNoOp(id: nat, users: seq<User>, emailOk: string -> bool)
    requires id < |users| && ValidUsers(users, emailOk)
    ensures var r := UpdateProfile(id, None, None, None, users, emailOk);
      r.reply.status == 200 && r.store == users
  {
    assert users[id := users[id]] == users;
  }

  /** Repeating an update changes nothing further. */
  lemma UpdateProfileIdempotent(id: nat, name: Option<string>, email: Option<string>, profilePicture: Option<string>,
                                users: seq<User>, emailOk: string -> bool)
    requires UpdateProfile(id, name, email, profilePicture, users, emailOk).reply.Success()
    ensures var once := UpdateProfile(id, name, email, profilePicture, users, emailOk);
      var twice := UpdateProfile(id, name, email, profilePicture, once.store, emailOk);
      twice.reply == once.reply && twice.store == once.store
  {
    var u := ApplyEdits(users[id], name, email, profilePicture);
    var saved := users[id := u];
    assert ApplyEdits(u, name, email, profilePicture) == u;
    assert saved[id := u] == saved;
  }
}
