# file-share-app, modelled in Dafny

A Dafny model of the logic core of file-share-app. People log in with a
one-time code sent by SMS, upload a file for a phone number, and the
receiver gets a download link by SMS. The model covers:

- the phone-login handlers and the OTP and user records;
- the upload, listing, delete and download handlers over the share records;
- the phone, OTP and e-mail string rules of backend and front end;
- the bearer-token gate, the global error mapping and the CORS origin check;
- the front end's file-type classifiers, size check and share links.

Every handler is a pure function. It takes the request fields, the document
store, the current time in milliseconds since the epoch, and the answer of
each external provider (SMS, blob storage, token verifier). It returns a
`Handled(reply, store', calls)`: the HTTP reply, the store after the request,
and the outbound provider calls it made, in order. A store is a sequence of
records. A user's or a share's document id is its position in that
sequence: shares are only ever soft-deleted and users are never deleted, so
positions are stable. OTP records carry no id, and the TTL monitor may drop
them.

One module per source file:

| module | file |
|---|---|
| `Otps` | `otp_model.dfy` |
| `Users` | `user_model.dfy` |
| `Shares` | `share_model.dfy` |
| `Sms` | `sms.dfy` |
| `Phone` | `phone.dfy` |
| `AuthController` | `auth_controller.dfy` |
| `UploadController` | `upload_controller.dfy` |
| `DownloadController` | `download_controller.dfy` |
| `JwtAuth` | `jwt_auth.dfy` |
| `ErrorHandler` | `error_handler.dfy` |
| `Cors` | `cors.dfy` |
| `ClientValidation` | `client_validation.dfy` |
| `FileHelpers` | `file_helpers.dfy` |

Shared pieces live in their own modules:
- `Wrappers`: `Option`.
- `Strings`: character classes, `trim`, substring search, `split`/`join`, decimal and hex text.
- `Documents`: the store's validators and write errors.
- `Http`: replies, truthiness and provider calls.

Some behaviours of the handlers that are easy to get wrong, as the code has them and the model follows:
- send-otp's reply is only a message. It carries no `isNewUser` flag.
- An SMS failure during send-otp is a 500 that relays the provider's message. Only the upload ignores an SMS failure.
- Deleting a share that belongs to another user is a 404.
- The share creation fails when the normaliser accepts a receiver number and the schema refuses it. By then the blob is already stored, and it is left behind.

## Model

| member | source | states |
|---|---|---|
| Otps.OtpErrors | backend/src/models/otp.js:6-18 | a new code record has no field error exactly when the trimmed number is non-empty and matches the phone pattern and the trimmed code is non-empty |
| Otps.CreateOtp | backend/src/models/otp.js:3-41 | `OTP.create` appends exactly one record when validation passes, and nothing otherwise. The new record holds the trimmed number and code, expires 300000 ms after creation, has 0 attempts and is unverified |
| Otps.BadPhoneRefused | backend/src/models/otp.js:11 | a non-empty number the pattern refuses makes `OTP.create` fail with the single "Please fill a valid phone number" field error |
| Otps.CreateOtpKeepsValid | backend/src/models/otp.js:3-41 | creating a record keeps every stored record valid: matching number, non-empty code, attempts between 0 and 3 |
| Otps.NewestPending | backend/src/controller/authController.js:70-73 | the lookup picks an unverified record for exactly that number that is no older than any other such record; it finds none only when no such record exists |
| Otps.IssuedCodeIsNewest | backend/src/models/otp.js:47 | a code created no earlier than every stored record is the one the next verify-otp lookup picks |
| Otps.AppendedIsNewest | backend/src/controller/authController.js:70-73 | an appended unverified record that is no older than all others is the one the lookup picks |
| Otps.TryCode | backend/src/controller/authController.js:83-111 | the checks run in the order expired, exhausted, wrong code, accepted. Expired and exhausted leave the record unchanged. A wrong code adds exactly one attempt. The right code only sets `isVerified` |
| Otps.TryCodeKeepsValid | backend/src/controller/authController.js:91-106 | because the count check comes before the increment, attempts never go past 3 |
| Otps.TryCodeMonotone | backend/src/controller/authController.js:99-111 | a try changes only the attempt counter (upwards) and the verified flag (false to true) |
| Otps.ExhaustedRefusesRightCode | backend/src/controller/authController.js:91-96 | once three attempts are counted, even the right code is refused and the record is unchanged |
| Otps.ThreeWrongGuessesLock | backend/src/controller/authController.js:91-107 | three wrong guesses on a fresh code, within its lifetime, lock it, so a fourth try with the right code is refused |
| Otps.Evict | backend/src/models/otp.js:44 | a TTL sweep removes only records already past `expiresAt` and keeps every live record |
| Otps.KeptIndices | backend/src/models/otp.js:44 | the positions a sweep keeps are in range, strictly increasing, and each one survives the sweep |
| Otps.KeptIndicesComplete | backend/src/models/otp.js:44 | every position that survives the sweep is among the kept ones |
| Otps.EvictKeepsOrder | backend/src/models/otp.js:44 | what a sweep leaves is exactly the surviving records, each once, in their original order |
| Otps.EvictKeepsValid | backend/src/models/otp.js:44 | a sweep keeps every stored record valid |
| Otps.EvictKeepsLiveNewest | backend/src/models/otp.js:44 | if the newest pending record is still live, the lookup finds that same record after any sweep |
| Otps.EvictExpiredNewest | backend/src/models/otp.js:44 | if the newest pending record has expired, then after any sweep the lookup finds either nothing or another expired record |
| Otps.EvictNoPending | backend/src/models/otp.js:44 | a sweep cannot create a pending record for a number that had none |
| Users.NewUser | backend/src/models/user.js:3-57 | a new user document gets the `trim` setter on its ids, number, name and picture, the e-mail setter on its e-mail and the given method as is; a missing picture defaults to "" and a missing flag to `isPhoneVerified` false |
| Users.EmailSetter | backend/src/models/user.js:32-41 | the e-mail setter keeps a missing e-mail missing. A present one becomes as long as its trimmed form, has no white space at either end and no upper-case ASCII letter, and equals the trimmed form letter by letter up to case |
| Users.EmailSetterIdempotent | backend/src/models/user.js:32-41 | setting an e-mail that went through the setter changes nothing |
| Users.AuthMethodErrors | backend/src/models/user.js:19-23 | the method passes exactly when it is "auth0" or "phone" |
| Users.NameErrors | backend/src/models/user.js:26-31 | a (trimmed) name passes exactly when its JavaScript length, in UTF-16 code units, is at least 2 |
| Strings.Utf16Length | backend/src/models/user.js:30 | a string's JavaScript length lies between its character count and twice that, and is 0 only for "" |
| Strings.Utf16LengthBmp | backend/src/models/user.js:30 | without characters outside the Basic Multilingual Plane, the JavaScript length is the character count |
| Strings.AstralHasLengthTwo | backend/src/models/user.js:30 | one character outside the Basic Multilingual Plane has JavaScript length 2, so a name of that one character meets the minimum of 2 |
| Users.UserErrors | backend/src/models/user.js:3-57 | no field error exactly when every field validator holds |
| Users.SaveUser | backend/src/models/user.js:12-18 | create or save writes exactly when the fields are valid, the pre-save hook finds an identity and neither unique index is violated. Each failure cause gives its own error, and a write appends or replaces just that user |
| Users.SaveUserKeepsValid | backend/src/models/user.js:6-18 | a successful write keeps the stored users valid and the phone and auth0 ids pairwise distinct among users that hold them |
| Users.NoIdentityNeverSaved | backend/src/models/user.js:60-64 | a user with neither `auth0Id` nor `phoneNumber` is never written |
| Users.ShortNameRefused | backend/src/models/user.js:30 | a name that trims to fewer than 2 UTF-16 code units makes the write fail with a validation error |
| Users.MarkVerifiedSaves | backend/src/controller/authController.js:132-134 | re-saving a stored valid user with only `isPhoneVerified` set always succeeds |
| Users.FindByPhone | backend/src/controller/authController.js:114 | `findOne({ phoneNumber })` finds the first holder of the number, and finds none exactly when nobody holds it |
| Users.FindByPhoneUnique | backend/src/models/user.js:12-18 | under the unique index, the holder found is the only one |
| Shares.NewShareId | backend/src/models/fileShare.js:7-13 | a default share id is 32 lower-case hex characters |
| Shares.NewShareIdInjective | backend/src/models/fileShare.js:11 | different random draws give different share ids |
| Shares.Trimmed | backend/src/models/fileShare.js:16-63 | the `trim` setters change only the string fields |
| Shares.ShareErrors | backend/src/models/fileShare.js:16-63 | no field error exactly when every required string is non-empty and the receiver number matches the phone pattern |
| Shares.CreateShare | backend/src/models/fileShare.js:5-87 | `FileShare.create` appends one share exactly when validation passes and the id is unused, and leaves the rest of the store as it was. The new share is the trimmed input under the new id, with a count of 0, no expiry, no download time, the active flag and the creation time. A validation failure and an id clash are told apart |
| Shares.NewShare | backend/src/models/fileShare.js:5-87 | the inserted document holds every given field, a count of 0, no expiry and no download time, is active and stamped with the creation time; valid fields under a well-formed id make a valid share |
| Shares.CreateShareKeepsValid | backend/src/models/fileShare.js:7-13 | creating a share keeps every share valid and the share ids pairwise distinct |
| Shares.BadReceiverRefused | backend/src/models/fileShare.js:57-63 | a receiver number the pattern refuses is never stored |
| Sms.GenerateOTP | backend/src/utils/sms.js:6-8 | a code is the decimal text of 100000 plus the draw: six digits, no leading zero |
| Sms.GenerateOTPOnto | backend/src/utils/sms.js:6-8 | every six-digit string without a leading zero is some draw's code |
| Sms.GenerateOTPInjective | backend/src/utils/sms.js:6-8 | different draws give different codes |
| Sms.OtpMessageBody | backend/src/utils/sms.js:19 | the OTP text is the fixed prefix, the code and the fixed suffix |
| Sms.OtpMessageRoundTrip | backend/src/utils/sms.js:19 | the code can be read back out of the message text |
| Sms.SendOTP | backend/src/utils/sms.js:15-40 | one send to the given number with the OTP text. Success exactly when the provider delivers. A failure with code "21608" becomes the trial-account message; any other failure keeps the provider message, or the fallback when that is empty |
| Sms.SendOTPFailureHasMessage | backend/src/utils/sms.js:33-38 | a failed OTP send never has an empty message |
| Sms.SendOTPTrialIgnoresMessage | backend/src/utils/sms.js:34-36 | the trial-account code hides whatever message the provider gave |
| Sms.DownloadMessageBody | backend/src/utils/sms.js:58 | the notification text is sender, fixed middle, file name, fixed label, link, and the file name reads back from between the fixed parts |
| Sms.DownloadMessageLinkInjective | backend/src/utils/sms.js:58 | same sender and file with different links give different texts |
| Sms.SendDownloadLink | backend/src/utils/sms.js:49-69 | one send to the given number with the notification text; every failure becomes the same generic message |
| Sms.SendDownloadLinkFailuresAlike | backend/src/utils/sms.js:65-68 | two provider failures give the same result, whatever their codes and messages |
| Phone.KeepDialChars | backend/src/utils/validation.js:10 | the clean-up keeps only digits and '+', never lengthening the text |
| Phone.KeepDialCharsAppend | backend/src/utils/validation.js:10 | the clean-up works character by character |
| Phone.DropSeparator | backend/src/utils/validation.js:10 | a separator between dial characters is dropped and nothing else changes |
| Phone.Candidate | backend/src/utils/validation.js:10-15 | the text before the length check starts with '+' and holds only dial characters |
| Phone.NormalizePhoneNumber | backend/src/utils/validation.js:6-24 | null exactly for a missing or empty input or a cleaned length outside 8..16. Otherwise the cleaned text, starting with '+' and holding only digits and '+' |
| Phone.NormalizeIdempotent | backend/src/utils/validation.js:6-24 | normalising a normalised number changes nothing |
| Phone.CandidateOfNormalized | backend/src/utils/validation.js:13-15 | a cleaned text already starting with '+' gets no second '+' |
| Phone.CandidateOfDialString | backend/src/utils/validation.js:13-15 | a cleaned text without a leading '+' only gains one |
| Phone.KeepDialCharsIgnoresTrim | backend/src/utils/validation.js:10 | trimming first makes no difference to the clean-up |
| Phone.NormalizeSeesOnlyDialChars | backend/src/utils/validation.js:6-24 | two non-empty inputs with the same digits and '+' signs, in order, normalise alike |
| Phone.NormalizeDigits | backend/src/utils/validation.js:13-23 | 7 to 15 plain digits normalise to '+' followed by those digits |
| Phone.NormalizedMatchesPatternIff | backend/src/models/fileShare.js:61 | a normalised number passes the schema pattern exactly when it has no second '+' and its first digit is not 0 |
| Phone.LeadingZeroNormalizedButRefused | backend/src/utils/validation.js:6-24 | 7 to 15 digits starting with 0 are accepted by the normaliser and refused by the schema pattern |
| Phone.InteriorPlusNormalizedButRefused | backend/src/utils/validation.js:10 | a '+' typed inside the number is kept by the normaliser and refused by the schema pattern |
| Phone.PatternValueIsNormalized | backend/src/utils/validation.js:6-24 | a value with a leading '+' and 7 or more digits that the pattern accepts is its own normal form |
| AuthController.GeneratedCodeTrims | backend/src/models/otp.js:14-18 | a generated code passes the `trim` setter unchanged and is never empty |
| AuthController.SendOtp | backend/src/controller/authController.js:10-52 | a 400 exactly when the number is missing or lacks the leading '+'; then nothing is stored or sent. A 200 exactly when the record is stored and the SMS delivered. Any other failure is a 500 with a message. A record is stored exactly when the schema accepts the number, and the SMS goes out only after that |
| AuthController.SendOtpSchemaRefusal | backend/src/controller/authController.js:22-39 | a '+' number the schema refuses passes the handler's check but gets a 500 carrying the schema's message; nothing is stored or sent |
| AuthController.SendOtpFailureKeepsRecord | backend/src/controller/authController.js:33-51 | when the SMS fails, the reply is a 500 but the new record stays stored |
| AuthController.SendOtpKeepsValid | backend/src/controller/authController.js:10-52 | send-otp keeps every stored code record valid |
| AuthController.LoginOf | backend/src/controller/authController.js:138-151 | the login data carries a token for that user's id and the stored user's name, number, e-mail and picture |
| AuthController.PhoneUser | backend/src/controller/authController.js:125-130 | a first-time user gets the trimmed number and name, method "phone", verified, no auth0 id and no e-mail |
| AuthController.LogIn | backend/src/controller/authController.js:113-158 | after the code is accepted, an existing holder of the number or a newly created user is logged in, verified, with a token for their id. Any failure leaves the users unchanged |
| AuthController.LogInNewNumber | backend/src/controller/authController.js:113-151 | for a number nobody holds: no name is a 400 that changes nothing; with a name the new phone user is appended and logged in under the next id when the store accepts it, and otherwise the reply is a 500 that changes nothing |
| AuthController.LogInHolder | backend/src/controller/authController.js:113-151 | for a number a user holds: that user, with only its verified flag set, is saved and logged in under its own id, or the reply is a 500 that changes nothing |
| AuthController.LogInKeepsValid | backend/src/controller/authController.js:113-134 | the login step keeps the user store valid |
| AuthController.VerifyOtp | backend/src/controller/authController.js:58-159 | the refusals come in order: missing fields, no pending record, expired, exhausted, wrong code (counted). Only the record picked changes. A success logs in the holder of the number |
| AuthController.VerifyOtpKeepsValid | backend/src/controller/authController.js:58-159 | verify-otp keeps both stores valid |
| AuthController.WrongCodeCounted | backend/src/controller/authController.js:99-107 | a wrong code is refused with 400 and adds exactly one attempt to the record picked, and to nothing else |
| AuthController.MissingNameConsumesCode | backend/src/controller/authController.js:109-123 | a first-time number without a name is refused with 400 after its code was already marked verified |
| AuthController.ShortNameSpendsCode | backend/src/controller/authController.js:110-130 | a first-time name that trims to fewer than 2 UTF-16 code units gets a 500, yet its code stays marked verified |
| AuthController.ShortNameLoginFails | backend/src/controller/authController.js:125-130 | the login step for a first-time name that trims to fewer than 2 UTF-16 code units fails with 500 and creates no user |
| AuthController.EvictionKeepsLiveVerdict | backend/src/models/otp.js:44 | a TTL sweep before verify-otp never changes the reply while the newest code is live |
| AuthController.EvictionKeepsExpiredRefused | backend/src/controller/authController.js:75-88 | once the newest code has expired, a sweep can only turn "expired" into "no code found"; the code is refused either way |
| AuthController.RightCodeLogsIn | backend/src/controller/authController.js:109-151 | the right code, in time and with tries left, logs in the existing holder of the number |
| AuthController.FirstLoginCreatesUser | backend/src/controller/authController.js:58-151 | the right code, in time and with tries left, for a valid number nobody holds and a name of at least 2 code units creates that user and logs in as it |
| AuthController.AcceptedCodeLogsIn | backend/src/controller/authController.js:99-151 | once the code is accepted, verify-otp answers what the login step answers and keeps the users it leaves |
| AuthController.NewPhoneUserSaves | backend/src/models/user.js:3-64 | the store accepts a new phone user for a pattern-valid number nobody holds and a name of at least 2 code units |
| AuthController.SentCodeIsNewest | backend/src/controller/authController.js:30-39 | a code just sent is the one verify-otp will check, and it is the generated code |
| AuthController.SendThenVerifyLogsIn | backend/src/controller/authController.js:10-151 | a code sent to a registered number and entered within five minutes logs that user in |
| AuthController.ProfileOf | backend/src/controller/authController.js:176-188 | the profile copies the stored user's fields |
| AuthController.GetProfile | backend/src/controller/authController.js:165-196 | a 404 exactly when no user has the id; otherwise 200 with that user's profile |
| AuthController.AuthenticatedProfileAgrees | backend/src/middleware/jwtAuth.js:36-42 | every user the token gate lets through can read a profile that agrees with the request user |
| AuthController.ApplyEdits | backend/src/controller/authController.js:216-218 | only name, e-mail and picture change, each only when the new value is truthy, through the setters |
| AuthController.UpdateProfile | backend/src/controller/authController.js:202-240 | 404 for an unknown id. Otherwise the edited user is saved and the reply is 200 with its id, name, number, e-mail and picture as saved; a validation failure is a 500 "Failed to update profile" that changes nothing |
| AuthController.EmptyUpdateIsNoOp | backend/src/controller/authController.js:216-220 | an update with no fields succeeds and changes nothing |
| AuthController.UpdateProfileIdempotent | backend/src/controller/authController.js:202-240 | repeating a successful update changes nothing further |
| UploadController.BaseUrl | backend/src/controller/uploadController.js:57 | the upload's link base is the first comma-separated entry of `FRONTEND_URL`, trimmed, or the local default |
| UploadController.BaseUrlIsFirstOrigin | backend/src/controller/uploadController.js:57 | for a list of origins, the link base is the first origin |
| UploadController.RawFrontendUrl | backend/src/controller/uploadController.js:113 | the listing puts the raw value, or "undefined", in front of its links |
| UploadController.LinksAgreeForSingleOrigin | backend/src/controller/uploadController.js:57-113 | when `FRONTEND_URL` is one origin with no comma and no surrounding white space, upload and listing build the same link base |
| UploadController.UnsetUrlLinksDisagree | backend/src/controller/uploadController.js:57-113 | with `FRONTEND_URL` unset, the listing's links start with "undefined" while the upload's use the local default |
| UploadController.ShareFields | backend/src/controller/uploadController.js:45-54 | the share is created with the file's name, size and MIME type, the uploader's id and name, the storage's public id and URL, and the normalised number |
| UploadController.UploadFile | backend/src/controller/uploadController.js:10-94 | a 400 before any call without a file, without a number, or with a number the normaliser refuses. Storage comes before creation. A 201 exactly when both succeed, with the link to the new share. An SMS failure is ignored |
| UploadController.UploadStoresCreatedShare | backend/src/controller/uploadController.js:45-54 | a successful upload stores exactly the share `FileShare.create` builds |
| UploadController.UploadIgnoresSmsOutcome | backend/src/controller/uploadController.js:61-71 | the reply and the store do not depend on what the SMS provider answers |
| UploadController.StorageFailureCreatesNothing | backend/src/controller/uploadController.js:39-42 | a storage failure is a 500 that creates no share and sends no SMS |
| UploadController.NormalizedButRefusedOrphansBlob | backend/src/controller/uploadController.js:30-54 | a number the normaliser accepts and the schema refuses gets a 500 after the blob was stored, with no share created |
| UploadController.UploadStoresNormalizedPhone | backend/src/controller/uploadController.js:30-53 | the share stored holds the normalised number |
| UploadController.UploadKeepsValid | backend/src/controller/uploadController.js:10-94 | uploading keeps the shares valid with distinct ids |
| UploadController.Owned | backend/src/controller/uploadController.js:102-104 | the query finds exactly the caller's active shares, each once |
| UploadController.Insert | backend/src/controller/uploadController.js:105 | inserting keeps the list newest first and adds exactly that one share |
| UploadController.SortNewestFirst | backend/src/controller/uploadController.js:105 | the sort is a permutation ordered by creation time, newest first |
| UploadController.SortTieLaterFirst | backend/src/controller/uploadController.js:105 | of two shares created at the same time, the listing puts the later one in the store first |
| UploadController.ViewOf | backend/src/controller/uploadController.js:107-117 | an entry carries the share's position as id, its share id, name, size, type, receiver number, download count and creation time, and its raw-`FRONTEND_URL` link |
| UploadController.ListedIds | backend/src/controller/uploadController.js:102-105 | exactly the caller's active shares, each once, newest first |
| UploadController.SortedKeepsListing | backend/src/controller/uploadController.js:102-105 | reordering the found shares keeps exactly the same shares, each once |
| UploadController.Views | backend/src/controller/uploadController.js:107-117 | one entry per listed share, in the listing's order |
| UploadController.GetUserFiles | backend/src/controller/uploadController.js:100-130 | the reply lists exactly the caller's active shares, each once, newest first |
| UploadController.ViewsOfListing | backend/src/controller/uploadController.js:100-121 | the entries carry the listing's completeness, order and distinctness |
| UploadController.DistinctAfterSort | backend/src/controller/uploadController.js:105 | sorting a list without repeats gives one without repeats |
| UploadController.DeleteFile | backend/src/controller/uploadController.js:136-170 | 404 with no change unless the share is the caller's. The storage delete comes first; if it fails the reply is a 500 and the share stays active. Otherwise only that share is deactivated, never removed |
| UploadController.DeletedNotListed | backend/src/controller/uploadController.js:153-157 | after a delete, the share no longer appears in its owner's listing |
| UploadController.DeleteTwiceCallsStorageTwice | backend/src/controller/uploadController.js:140-157 | deleting an already deleted share of one's own succeeds again and calls the storage delete again |
| UploadController.DeleteKeepsValid | backend/src/controller/uploadController.js:136-170 | deleting keeps the shares valid |
| DownloadController.FindActive | backend/src/controller/downloadController.js:11-14 | the lookup finds the first active share with the (trimmed) id, and finds none exactly when there is no such share |
| DownloadController.Downloaded | backend/src/controller/downloadController.js:32-34 | a download adds exactly one to the count, records the time and changes nothing else |
| DownloadController.ViewOfShare | backend/src/controller/downloadController.js:36-47 | the reply carries the share's name, size, type, URL, uploader name, creation time and download count |
| DownloadController.GetFileByShareId | backend/src/controller/downloadController.js:7-55 | 404 exactly when no active share has the id; 410 exactly when it has expired; nothing changes on either. Otherwise 200, only that share counted once, and the reply shows the new count |
| DownloadController.DownloadCountsOnce | backend/src/controller/downloadController.js:11-45 | downloading the first active holder of the id before it expires is a 200 reporting a count one more than before, records the time, and leaves every other share unchanged |
| DownloadController.TwoDownloadsCountTwo | backend/src/controller/downloadController.js:32-34 | two downloads in a row report the count plus two and the second time; the counter never goes back |
| DownloadController.FindActiveFirst | backend/src/controller/downloadController.js:11-14 | the lookup answers the first active holder of the id |
| DownloadController.NoExpiryNeverGone | backend/src/controller/downloadController.js:24-29 | a share without an expiry date is never refused as expired |
| DownloadController.DownloadKeepsValid | backend/src/controller/downloadController.js:7-55 | downloads keep the shares valid |
| DownloadController.DeletedShareNotFound | backend/src/controller/downloadController.js:11-21 | once its owner deleted it, a share's link gets a 404 |
| DownloadController.UploadThenDownload | backend/src/controller/uploadController.js:57-58 | the link sent after an upload carries the new share's id, and its first download shows the uploaded file's name, type and stored URL, the uploader's name, the upload time and a count of one |
| DownloadController.DownloadOfUpload | backend/src/controller/downloadController.js:7-47 | the share an upload stored downloads with status 200, showing that share one download later, and holds the uploaded file's name, type and URL, the uploader's name and the upload time |
| DownloadController.UploadedShareIsFirst | backend/src/controller/uploadController.js:45-54 | a successful upload stores the new share built from the upload's fields, and it is the first active holder of its id |
| DownloadController.FirstDownloadView | backend/src/controller/downloadController.js:11-47 | downloading the first active holder of an id with no expiry answers 200 with that share after one more download |
| JwtAuth.RequestUser | backend/src/middleware/jwtAuth.js:36-42 | `req.user` carries exactly the stored id, name, e-mail, number and method |
| JwtAuth.BearerToken | backend/src/middleware/jwtAuth.js:20 | the token is the first space-separated field after "Bearer " |
| JwtAuth.BearerTokenIsRest | backend/src/middleware/jwtAuth.js:20 | without a further space, the token is the whole rest of the header |
| JwtAuth.ErrorReply | backend/src/middleware/jwtAuth.js:45-65 | a malformed token is a 401 "Invalid token" and an expired one a 401 "Token expired"; any other error is a 500 "Authentication failed" |
| JwtAuth.VerifyToken | backend/src/middleware/jwtAuth.js:8-67 | a missing or non-"Bearer " header is a 401 "No token provided". The request passes exactly when the token decodes to the id of a stored user, and then carries that user. Every refusal is a 401 or a 500 |
| JwtAuth.VerifyTokenSeesOnlyToken | backend/src/middleware/jwtAuth.js:13-23 | two bearer headers with the same token get the same answer |
| JwtAuth.VerifyTokenUnknownUser | backend/src/middleware/jwtAuth.js:26-33 | a valid token for an id with no user is a 401 |
| JwtAuth.GenerateToken | backend/src/middleware/jwtAuth.js:72-78 | a token carries the user id and lives seven days (604800 s) |
| JwtAuth.IssuedTokenAuthenticates | backend/src/middleware/jwtAuth.js:8-78 | a token issued for a stored user, checked by a verifier that honours it, lets that user in |
| ErrorHandler.HandleError | backend/src/middleware/errorHandler.js:5-36 | a ValidationError is a 400 with the field messages and a CastError a 400. A 409 exactly for code 11000 (or status 409) once the names are ruled out. A success status only when the error itself carries one. The message is never empty |
| ErrorHandler.NameBeforeCode | backend/src/middleware/errorHandler.js:9-29 | the name checks take precedence over the duplicate-key code |
| ErrorHandler.TextCodeIsNotDuplicate | backend/src/middleware/errorHandler.js:24 | a code that is the text "11000" is not the duplicate-key code |
| ErrorHandler.DefaultPath | backend/src/middleware/errorHandler.js:32-35 | otherwise the status is `statusCode` or 500, and the message is the error's or "Internal server error" |
| ErrorHandler.NotFound | backend/src/middleware/errorHandler.js:41-46 | an unknown route is a 404 "Route not found" failure without data |
| ErrorHandler.ErrorOf | backend/src/middleware/errorHandler.js:9-29 | a store failure reaches the handler with its name, its message, one message per field error, and code 11000 exactly for a duplicate key. The modelled controllers catch their own store failures, so none of them takes this path |
| ErrorHandler.StoreFailureStatus | backend/src/middleware/errorHandler.js:9-35 | store validation failures become 400, duplicates 409, thrown errors 500, should such a failure reach the middleware |
| Cors.AllowedOrigins | backend/src/index.js:16 | the list is `FRONTEND_URL` split on ',' with nothing trimmed, or the local default |
| Cors.AllowedOriginsOfList | backend/src/index.js:16 | a comma-joined list of origins gives back exactly those origins |
| Cors.CheckOrigin | backend/src/index.js:18-26 | a request without an origin is allowed. An origin is allowed exactly when it equals a list entry or the list has "*". Otherwise it is refused with "Not allowed by CORS" |
| Cors.WildcardAllowsAll | backend/src/index.js:21 | a "*" entry allows every origin |
| Cors.SpaceAfterCommaRefused | backend/src/index.js:16-24 | a space after a comma in `FRONTEND_URL` makes the following origin unmatchable |
| Cors.DefaultAllowsOnlyLocalFrontEnd | backend/src/index.js:16-24 | without `FRONTEND_URL`, the only origin allowed is the local front end |
| ClientValidation.ValidatePhoneNumberIgnoresNonDigits | frontend/fileShare/src/utils/validation.js:6-16 | inserting a non-digit never changes the verdict |
| ClientValidation.ValidatePhoneNumberOfDigits | frontend/fileShare/src/utils/validation.js:6-16 | a string of digits passes exactly when it has 10 to 15 of them |
| ClientValidation.FormatKeepsDigits | frontend/fileShare/src/utils/validation.js:23-37 | formatting keeps exactly the digits, in order |
| ClientValidation.FormatIdempotent | frontend/fileShare/src/utils/validation.js:23-37 | formatting a formatted number changes nothing |
| ClientValidation.FormatPreservesValidity | frontend/fileShare/src/utils/validation.js:6-37 | formatting never changes the validity verdict |
| ClientValidation.FormatTenDigits | frontend/fileShare/src/utils/validation.js:27-29 | 10 digits give "(ddd) ddd-dddd" |
| ClientValidation.FormatShortUnchanged | frontend/fileShare/src/utils/validation.js:36 | fewer than 10 digits give the input back unchanged |
| ClientValidation.FormatLongEnding | frontend/fileShare/src/utils/validation.js:32-34 | more than 10 digits give '+', the leading digits, then the last ten grouped 3-3-4 |
| ClientValidation.ValidateOTPIgnoresNonDigits | frontend/fileShare/src/utils/validation.js:44-48 | inserting a non-digit never changes the code verdict |
| ClientValidation.ValidateOTPOfDigits | frontend/fileShare/src/utils/validation.js:44-48 | a string of digits passes exactly when it has six |
| ClientValidation.ValidateEmailIff | frontend/fileShare/src/utils/validation.js:55-58 | the check holds exactly for plain text, '@', plain text, '.', plain text, where plain means no white space and no '@' |
| FileHelpers.AnyOfIff | frontend/fileShare/src/utils/fileHelpers.js:41-75 | a keyword list matches exactly when one of its keywords occurs in the type |
| FileHelpers.FirstMatchAt | frontend/fileShare/src/utils/fileHelpers.js:37-76 | the answer is the first rule whose keywords match |
| FileHelpers.FirstMatchDefaultIff | frontend/fileShare/src/utils/fileHelpers.js:37-97 | the fallback comes out exactly when no rule matches |
| FileHelpers.GetFileIconIsFirstMatch | frontend/fileShare/src/utils/fileHelpers.js:37-76 | the icon chain is the category table read first match wins on the lower-cased type, with the plain file icon as fallback |
| FileHelpers.DocumentIconIsFirstMatch | frontend/fileShare/src/utils/fileHelpers.js:41-52 | the document branches are the first four rows of the table |
| FileHelpers.MediaIconIsFirstMatch | frontend/fileShare/src/utils/fileHelpers.js:55-64 | the media branches are the next three rows |
| FileHelpers.OtherIconIsFirstMatch | frontend/fileShare/src/utils/fileHelpers.js:67-75 | the archive and code branches are the last two rows |
| FileHelpers.GetFileIconCaseInsensitive | frontend/fileShare/src/utils/fileHelpers.js:38 | the icon does not depend on letter case |
| FileHelpers.GetFileIconDefaultIff | frontend/fileShare/src/utils/fileHelpers.js:37-76 | the plain file icon comes out exactly when no icon keyword occurs |
| FileHelpers.DocWinsOverSheet | frontend/fileShare/src/utils/fileHelpers.js:44-52 | any type with "doc" and no "pdf" is classed as Word, in icon and colour, even with "sheet" or "presentation" in it |
| FileHelpers.GetFileIconColorIsFirstMatch | frontend/fileShare/src/utils/fileHelpers.js:83-97 | the colour chain is its own table read first match wins, with '#8b9eff' as fallback |
| FileHelpers.DocumentColorIsFirstMatch | frontend/fileShare/src/utils/fileHelpers.js:86-89 | the document colours are the first four rows |
| FileHelpers.MediaColorIsFirstMatch | frontend/fileShare/src/utils/fileHelpers.js:90-92 | the media colours are the next three rows |
| FileHelpers.OtherColorIsFirstMatch | frontend/fileShare/src/utils/fileHelpers.js:93-96 | the archive and code colours are the last two rows |
| FileHelpers.GetFileIconColorDefaultIff | frontend/fileShare/src/utils/fileHelpers.js:83-97 | the fallback colour comes out exactly when no colour keyword occurs |
| FileHelpers.GetFileIconColorCaseInsensitive | frontend/fileShare/src/utils/fileHelpers.js:84 | the colour does not depend on letter case |
| FileHelpers.PdfAndWordAgree | frontend/fileShare/src/utils/fileHelpers.js:37-97 | the two classifiers agree on PDF and on Word, in both directions |
| FileHelpers.ImageIconDefaultColor | frontend/fileShare/src/utils/fileHelpers.js:55-96 | an image keyword other than "image" gives the image icon but the fallback colour |
| FileHelpers.ValidateFileSizeDefault | frontend/fileShare/src/utils/fileHelpers.js:105-108 | with the default limit, exactly the files of at most 104857600 bytes pass, bound included; a larger limit accepts all a smaller one does |
| FileHelpers.GenerateShareLink | frontend/fileShare/src/utils/fileHelpers.js:149-152 | a link is the base, "/download/" and the id |
| FileHelpers.ShareIdOfLink | frontend/fileShare/src/utils/fileHelpers.js:149-152 | an id is read back exactly from links under that base |
| FileHelpers.ShareLinkRoundTrip | frontend/fileShare/src/utils/fileHelpers.js:149-152 | a link gives back the id it was made from |
| FileHelpers.ShareLinkInjective | frontend/fileShare/src/utils/fileHelpers.js:149-152 | different ids give different links |
| Documents.Required | backend/src/models/otp.js:8 | the `required` validator fails exactly on a missing or empty value |
| Documents.Match | backend/src/models/otp.js:11 | the `match` validator is skipped on a missing or empty value |
| Documents.TrimField | backend/src/models/user.js:16 | the `trim` setter keeps a missing field missing |
| Http.OrElse | backend/src/middleware/errorHandler.js:34 | `message \|\| fallback` keeps a non-empty message and is empty only when both are |
| Strings.Trim | backend/src/utils/validation.js:10 | `trim` gives a slice of the text whose first and last characters are not white space |
| Strings.TrimCutsOnlySpace | backend/src/utils/validation.js:10 | what `trim` cuts off at either end is white space and nothing else |
| Strings.TrimEmptyIff | backend/src/models/otp.js:8-10 | a value trims to "" exactly when it is all white space, so `required` after `trim` refuses exactly such values |
| Strings.TrimIdempotent | backend/src/utils/validation.js:10 | trimming twice is trimming once |
| Strings.ToLowerIdempotent | frontend/fileShare/src/utils/fileHelpers.js:38 | lower-casing twice is lower-casing once |
| Strings.SplitJoin | backend/src/index.js:16 | splitting a joined list of comma-free entries gives the entries back |
| Strings.JoinSplit | backend/src/index.js:16 | joining the fields of a split gives the text back |
| Strings.DecimalRoundTrip | backend/src/utils/sms.js:7 | `toString()` of a number reads back as that number |
| Strings.HexRoundTrip | backend/src/models/fileShare.js:11 | `toString("hex")` of the random bytes reads back as those bytes |

## Left out

- React pages, components and client state, and the front-end service layer: UI and HTTP glue, no core logic.
- `formatFileSize` and `copyToClipboard` in `frontend/fileShare/src/utils/fileHelpers.js`: floating-point formatting and the clipboard/DOM API.
- Provider SDKs (Cloudinary, S3, the Twilio client), JWT signing and signature checks, `Math.random` and `crypto.randomBytes`: each is a parameter. The model takes the provider's answer, the verifier as a function, the random draw as an integer in [0, 900000), and the 16 random bytes.
- The rate limiter, the multer 100 MB upload limit, routing tables, the database connection and the server start-up, the unmounted Firebase OTP path, and the admin scripts: library configuration and I/O.
- Concurrency: the attempt counter and the download counter are read-modify-write. The model gives single-request sequential semantics and claims no atomicity.
- Users.UserErrors: the back-end e-mail regex is not modelled. It is the parameter `emailOk`; the model states only that an e-mail is checked when present.
- Strings.ToLower: lower-cases ASCII letters only and leaves every other character as it is. JavaScript's `toLowerCase` also folds non-ASCII letters, and a few of them lower-case to ASCII letters: U+0130 (capital I with dot above) becomes "i" followed by U+0307, and U+212A (Kelvin sign) becomes "k". Such a letter can change the file-type classification. For the type "AV" followed by U+0130, the code lower-cases to text containing "avi" and shows the video icon, while the model keeps U+0130 and answers the plain file icon. FileHelpers.GetFileIcon inherits this.
- Users.EmailSetter: lower-cases ASCII letters only, through Strings.ToLower. The schema's `lowercase` setter also folds non-ASCII letters, so an e-mail with an upper-case non-ASCII letter is stored as typed in the model and folded by the code.
- Otps.NewestPending: among unverified records for a number with equal `createdAt`, the model picks the later insertion. The store's sort promises no order among ties. Otps.AppendedIsNewest, Otps.IssuedCodeIsNewest, AuthController.SentCodeIsNewest and AuthController.SendThenVerifyLogsIn rest on this choice when a new code has the same time stamp as an older one.
- Otps.CreateOtp: `expiresAt` is `createdAt` plus 300000 ms from one clock reading. The code reads the clock separately for the `expiresAt` default and the `createdAt` time stamp, so the two may differ by a few milliseconds.
- ErrorHandler.ErrorOf: the auth, upload and download controllers catch their own store failures and answer them themselves, so the middleware's store-error branches are modelled but reached from no modelled handler.
- Request bodies are modelled as optional strings. Non-string JSON values (numbers, arrays) are not modelled.
- UploadController.SortNewestFirst: among shares with equal creation times, the later insertion comes first. The document store does not promise any order among ties.
- DownloadController.GetFileByShareId: a failure of the counter save, which the catch block turns into a 500, is not modelled. The save of a found, valid share always succeeds in the model.
- ErrorHandler.HandleError: `statusCode` is an optional integer. Non-numeric values are not modelled. A numeric `statusCode` below 100 or above 999 becomes the reply status in the model. In the code, Node refuses such a status when the reply is written, and Express's final handler answers 500 instead. No modelled store failure carries a `statusCode`, so no modelled handler reaches this case.
- AuthController.ProfileOf: the `createdAt` timestamp of the profile reply is not kept in the user record.
- ErrorHandler.NotFound: which requests reach the not-found handler is Express routing and is not modelled.
- AuthController.UpdateProfile: a failure of the lookup itself (a 500 from the catch block for reasons other than validation) is not modelled.
