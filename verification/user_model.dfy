/** Users (backend/src/models/user.js): the record, the `trim`/`lowercase`
    setters, the field validators, the pre-save identity check and the two
    sparse unique indexes. A user's id is its position in the store; users
    are never deleted. The e-mail pattern is a parameter `emailOk`. */
module Users {
  import opened Wrappers
  import opened Strings
  import opened Documents
  import opened Phone

  /** A user document after the setters ran. A missing `name` or
      `authMethod` is the empty string: both fail `required` alike. */
  datatype User = User(
    auth0Id: Option<string>,
    phoneNumber: Option<string>,
    authMethod: string,
    name: string,
    email: Option<string>,
    profilePicture: string,
    isPhoneVerified: bool)

  /** A new document from the given fields: setters applied, and the
      defaults `profilePicture = ""` and `isPhoneVerified = false` where a
      field is not given. */
  function NewUser(auth0Id: Option<string>, phoneNumber: Option<string>, authMethod: string, name: string,
                   email: Option<string>, profilePicture: Option<string>, isPhoneVerified: Option<bool>): (u: User)
    ensures profilePicture.None? ==> u.profilePicture == ""
    ensures isPhoneVerified.None? ==> !u.isPhoneVerified
    ensures isPhoneVerified.Some? ==> u.isPhoneVerified == isPhoneVerified.value
    ensures u.name == Trim(name) && u.phoneNumber == TrimField(phoneNumber)
    ensures u.auth0Id == TrimField(auth0Id) && u.authMethod == authMethod
    ensures u.email == EmailSetter(email)
    ensures profilePicture.Some? ==> u.profilePicture == Trim(profilePicture.value)
  {
    User(TrimField(auth0Id), TrimField(phoneNumber), authMethod, Trim(name),
         EmailSetter(email), Trim(profilePicture.GetOr("")), isPhoneVerified.GetOr(false))
  }

  /** `trim: true, lowercase: true` on the e-mail field. */
  function EmailSetter(email: Option<string>): (r: Option<string>)
    ensures r.Some? <==> email.Some?
    ensures r.Some? ==>
      var e := Trim(email.value);
      && |r.value| == |e|
      && (|r.value| > 0 ==> !IsSpace(r.value[0]) && !IsSpace(r.value[|r.value| - 1]))
      && forall i :: 0 <= i < |e| ==> !('A' <= r.value[i] <= 'Z') && LowerChar(r.value[i]) == LowerChar(e[i])
  {
    match email
    case None => None
    case Some(e) => Some(ToLower(Trim(e)))
  }

  /** Setting a stored e-mail again changes nothing. */
  lemma EmailSetterIdempotent(email: Option<string>)
    ensures EmailSetter(EmailSetter(email)) == EmailSetter(email)
  {
    if email.Some? {
      var r := EmailSetter(email).value;
      assert Trim(r) == r by { TrimNoSpace(r); }
      assert ToLower(r) == r by { LowerFixed(r); }
    }
  }

  // ---------------------------------------------------------------------
  // Validation
  // ---------------------------------------------------------------------

  const MinNameLength: int := 2

  predicate IsAuthMethod(m: string) {
    m == "auth0" || m == "phone"
  }

  function AuthMethodErrors(m: string): (errs: seq<FieldError>)
    ensures errs == [] <==> IsAuthMethod(m)
  {
    if m == "" then [FieldError("authMethod", "Authentication method is required")]
    else if !IsAuthMethod(m) then [FieldError("authMethod", "`" + m + "` is not a valid enum value for path `authMethod`.")]
    else []
  }

  function NameErrors(name: string): (errs: seq<FieldError>)
    ensures errs == [] <==> Utf16Length(name) >= MinNameLength
  {
    if name == "" then [FieldError("name", "Name is required")]
    else if Utf16Length(name) < MinNameLength then [FieldError("name", "Name must be at least 2 characters")]
    else []
  }

  /** The field errors of a document, in schema order. */
  function UserErrors(u: User, emailOk: string -> bool): (errs: seq<FieldError>)
    ensures errs == [] <==> ValidFields(u, emailOk)
  {
    Match("phoneNumber", u.phoneNumber, u.phoneNumber.Some? && MatchesPhonePattern(u.phoneNumber.value),
          "Please fill a valid phone number")
    + AuthMethodErrors(u.authMethod)
    + NameErrors(u.name)
    + Match("email", u.email, u.email.Some? && emailOk(u.email.value), "Please fill a valid email address")
  }

  /** The validators, stated field by field: a non-empty phone number
      matches the pattern, the method is one of the two, the name has two
      UTF-16 code units or more, a non-empty e-mail passes its pattern. */
  predicate ValidFields(u: User, emailOk: string -> bool) {
    (u.phoneNumber.Some? && u.phoneNumber.value != "" ==> MatchesPhonePattern(u.phoneNumber.value))
    && IsAuthMethod(u.authMethod)
    && Utf16Length(u.name) >= MinNameLength
    && (u.email.Some? && u.email.value != "" ==> emailOk(u.email.value))
  }

  /** The pre-save hook's test: `auth0Id` or `phoneNumber` is truthy. */
  predicate HasIdentity(u: User) {
    (u.auth0Id.Some? && u.auth0Id.value != "") || (u.phoneNumber.Some? && u.phoneNumber.value != "")
  }

  const IdentityMessage: string := "User must have either auth0Id or phoneNumber"

  // ---------------------------------------------------------------------
  // Sparse unique indexes
  // ---------------------------------------------------------------------

  /** Another user than `self` already holds this value. Documents without
      the field are not in a sparse index. */
  predicate PhoneTaken(users: seq<User>, self: Option<nat>, phone: Option<string>) {
    phone.Some? && exists j :: 0 <= j < |users| && Some(j) != self && users[j].phoneNumber == phone
  }

  predicate Auth0Taken(users: seq<User>, self: Option<nat>, auth0Id: Option<string>) {
    auth0Id.Some? && exists j :: 0 <= j < |users| && Some(j) != self && users[j].auth0Id == auth0Id
  }

  /** Store invariant: every user is valid and has an identity, and no
      phone number or auth0 id is held twice. */
  predicate ValidUsers(users: seq<User>, emailOk: string -> bool) {
    (forall i :: 0 <= i < |users| ==> ValidFields(users[i], emailOk) && HasIdentity(users[i]))
    && (forall i, j :: 0 <= i < j < |users| && users[i].phoneNumber.Some? ==> users[i].phoneNumber != users[j].phoneNumber)
    && (forall i, j :: 0 <= i < j < |users| && users[i].auth0Id.Some? ==> users[i].auth0Id != users[j].auth0Id)
  }

  // ---------------------------------------------------------------------
  // create / save
  // ---------------------------------------------------------------------

  /** `User.create(u)` (`at` is `None`) or `user.save()` of user `at`:
      validation first, then the pre-save hook, then the unique indexes;
      only when all pass is the store changed. */
  function SaveUser(users: seq<User>, at: Option<nat>, u: User, emailOk: string -> bool): (r: Write<seq<User>>)
    requires at.Some? ==> at.value < |users|
    ensures r.Saved? <==>
      (ValidFields(u, emailOk) && HasIdentity(u)
       && !PhoneTaken(users, at, u.phoneNumber) && !Auth0Taken(users, at, u.auth0Id))
    ensures r.Failed? && !ValidFields(u, emailOk) ==> r.failure.ValidationError?
    ensures r.Failed? && ValidFields(u, emailOk) && !HasIdentity(u) ==> r.failure == Thrown(IdentityMessage)
    ensures r.Failed? && ValidFields(u, emailOk) && HasIdentity(u) ==> r.failure.DuplicateKey?
    ensures r.Saved? && at.None? ==> r.value == users + [u]
    ensures r.Saved? && at.Some? ==> r.value == users[at.value := u]
  {
    var errs := UserErrors(u, emailOk);
    if errs != [] then Failed(ValidationError("User", errs))
    else if !HasIdentity(u) then Failed(Thrown(IdentityMessage))
    else if PhoneTaken(users, at, u.phoneNumber) then Failed(DuplicateKey("phoneNumber_1"))
    else if Auth0Taken(users, at, u.auth0Id) then Failed(DuplicateKey("auth0Id_1"))
    else if at.None? then Saved(users + [u])
    else Saved(users[at.value := u])
  }

  /** A successful save keeps the store invariant. */
  lemma SaveUserKeepsValid(users: seq<User>, at: Option<nat>, u: User, emailOk: string -> bool)
    requires at.Some? ==> at.value < |users|
    requires ValidUsers(users, emailOk)
    requires SaveUser(users, at, u, emailOk).Saved?
    ensures ValidUsers(SaveUser(users, at, u, emailOk).value, emailOk)
  {
    var s := SaveUser(users, at, u, emailOk).value;
    forall i, j | 0 <= i < j < |s| && s[i].phoneNumber.Some?
      ensures s[i].phoneNumber != s[j].phoneNumber
    {
      if Some(i) == at || (at.None? && i == |users|) {
        assert !PhoneTaken(users, at, u.phoneNumber);
        assert s[j] == users[j];
      } else if Some(j) == at || (at.None? && j == |users|) {
        assert !PhoneTaken(users, at, u.phoneNumber);
        assert s[i] == users[i];
      } else {
        assert s[i] == users[i] && s[j] == users[j];
      }
    }
    forall i, j | 0 <= i < j < |s| && s[i].auth0Id.Some?
      ensures s[i].auth0Id != s[j].auth0Id
    {
      if Some(i) == at || (at.None? && i == |users|) {
        assert !Auth0Taken(users, at, u.auth0Id);
        assert s[j] == users[j];
      } else if Some(j) == at || (at.None? && j == |users|) {
        assert !Auth0Taken(users, at, u.auth0Id);
        assert s[i] == users[i];
      } else {
        assert s[i] == users[i] && s[j] == users[j];
      }
    }
  }

  /** A user with neither identifier is never written, whatever else it
      holds, and the store is left as it was. */
  lemma NoIdentityNeverSaved(users: seq<User>, at: Option<nat>, u: User, emailOk: string -> bool)
    requires at.Some? ==> at.value < |users|
    requires !HasIdentity(u)
    ensures SaveUser(users, at, u, emailOk).Failed?
    ensures ValidFields(u, emailOk) ==> SaveUser(users, at, u, emailOk).failure == Thrown(IdentityMessage)
  {
  }

  /** A name that trims to fewer than two UTF-16 code units is refused. */
  lemma ShortNameRefused(users: seq<User>, at: Option<nat>, name: string, u: User, emailOk: string -> bool)
    requires at.Some? ==> at.value < |users|
    requires u.name == Trim(name) && Utf16Length(Trim(name)) < MinNameLength
    ensures SaveUser(users, at, u, emailOk) == Failed(ValidationError("User", UserErrors(u, emailOk)))
  {
  }

  /** Re-saving a stored user with only `isPhoneVerified` changed always
      succeeds and changes nothing else. */
  lemma MarkVerifiedSaves(users: seq<User>, i: nat, emailOk: string -> bool)
    requires i < |users| && ValidUsers(users, emailOk)
    ensures SaveUser(users, Some(i), users[i].(isPhoneVerified := true), emailOk)
         == Saved(users[i := users[i].(isPhoneVerified := true)])
  {
  }

  // ---------------------------------------------------------------------
  // Queries
  // ---------------------------------------------------------------------

  /** `User.findOne({ phoneNumber })`: the first user holding the number. */
  function FindByPhone(users: seq<User>, phone: string): (r: Option<nat>)
    ensures r.Some? ==> r.value < |users| && users[r.value].phoneNumber == Some(phone)
    ensures r.Some? ==> forall j :: 0 <= j < r.value ==> users[j].phoneNumber != Some(phone)
    ensures r.None? <==> forall j :: 0 <= j < |users| ==> users[j].phoneNumber != Some(phone)
    decreases |users|
  {
    if |users| == 0 then None
    else if users[0].phoneNumber == Some(phone) then Some(0)
    else
      var r := FindByPhone(users[1..], phone);
      if r.Some? then Some(r.value + 1) else None
  }

  /** Under the unique index the user found is the only holder. */
  lemma FindByPhoneUnique(users: seq<User>, phone: string, emailOk: string -> bool, j: nat)
    requires ValidUsers(users, emailOk)
    requires j < |users| && users[j].phoneNumber == Some(phone)
    ensures FindByPhone(users, phone) == Some(j)
  {
  }
}
