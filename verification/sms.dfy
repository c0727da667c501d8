/** The SMS helpers (backend/src/utils/sms.js): the one-time code generator,
    the two message templates, and how a provider failure is turned into the
    error the caller sees. The random source and the provider client are not
    modelled: the random number is a parameter and the provider's answer is
    a `ProviderOutcome`. */
module Sms {
  import opened Wrappers
  import opened Strings
  import opened Http

  // ---------------------------------------------------------------------
  // generateOTP
  // ---------------------------------------------------------------------

  /** `Math.floor(Math.random() * 900000)`: the random part of a code. */
  type Draw = k: int | 0 <= k < 900000

  /** `Math.floor(100000 + Math.random() * 900000).toString()`. */
  function GenerateOTP(draw: Draw): (otp: string)
    ensures |otp| == 6 && AllDigits(otp) && otp[0] != '0'
    ensures DecimalValue(otp) == 100000 + draw
  {
    var n := 100000 + draw;
    assert Pow10(5) == 100000 && Pow10(6) == 1000000;
    DecimalLength(n, 6);
    DecimalRoundTrip(n);
    DecimalString(n)
  }

  /** Every six-digit string without a leading zero is some draw's code, so
      the codes are exactly the numbers 100000 to 999999. */
  lemma GenerateOTPOnto(otp: string)
    requires |otp| == 6 && AllDigits(otp) && otp[0] != '0'
    ensures exists draw: Draw :: GenerateOTP(draw) == otp
  {
    DecimalValueBounds(otp);
    assert Pow10(5) == 100000 && Pow10(6) == 1000000;
    var v := DecimalValue(otp);
    assert 100000 <= v < 1000000;
    var draw: Draw := v - 100000;
    DecimalStringOfValue(otp);
    assert GenerateOTP(draw) == otp;
  }

  /** Different draws give different codes. */
  lemma GenerateOTPInjective(a: Draw, b: Draw)
    requires GenerateOTP(a) == GenerateOTP(b)
    ensures a == b
  {
  }

  // ---------------------------------------------------------------------
  // Provider answers
  // ---------------------------------------------------------------------

  /** What `client.messages.create` did: delivered with a message sid, or
      threw an error whose `code` is given as `String(error.code)` and whose
      `message` is "" when absent. */
  datatype ProviderOutcome =
    | Delivered(sid: string)
    | ProviderError(code: string, message: string)

  /** What a send helper returned: `{ success: true, messageSid }`, or the
      message of the error it threw. */
  datatype SendResult = Sent(messageSid: string) | SendFailed(message: string)

  // ---------------------------------------------------------------------
  // sendOTP
  // ---------------------------------------------------------------------

  const OtpBodyPrefix: string := "Your verification code is: "
  const OtpBodySuffix: string := ". This code will expire in 5 minutes."

  /** The OTP message text. */
  function OtpMessageBody(otp: string): (body: string)
    ensures StartsWith(body, OtpBodyPrefix) && EndsWith(body, OtpBodySuffix)
    ensures |body| == |OtpBodyPrefix| + |otp| + |OtpBodySuffix|
  {
    var body := OtpBodyPrefix + otp + OtpBodySuffix;
    assert body[..|OtpBodyPrefix|] == OtpBodyPrefix;
    assert body[|body| - |OtpBodySuffix|..] == OtpBodySuffix;
    body
  }

  /** The code carried by an OTP message, if the text has that shape. */
  function OtpOfMessageBody(body: string): (r: Option<string>)
    ensures r.Some? <==>
      (|body| >= |OtpBodyPrefix| + |OtpBodySuffix| && StartsWith(body, OtpBodyPrefix) && EndsWith(body, OtpBodySuffix))
  {
    if |body| >= |OtpBodyPrefix| + |OtpBodySuffix| && StartsWith(body, OtpBodyPrefix) && EndsWith(body, OtpBodySuffix)
    then Some(body[|OtpBodyPrefix|..|body| - |OtpBodySuffix|])
    else None
  }

  /** The recipient can read the code back out of the message. */
  lemma OtpMessageRoundTrip(otp: string)
    ensures OtpOfMessageBody(OtpMessageBody(otp)) == Some(otp)
  {
    var body := OtpMessageBody(otp);
    assert body[|OtpBodyPrefix|..|body| - |OtpBodySuffix|] == otp;
  }

  const TrialAccountCode: string := "21608"
  const TrialAccountMessage: string :=
    "Twilio Trial Error: The destination phone number is not verified in your Twilio Console. Please verify it at https://console.twilio.com/us1/receiver-numbers/verified-caller-ids"
  const OtpFailureDefault: string := "Failed to send OTP. Please check the phone number."

  /** `sendOTP(phoneNumber, otp)`: the message it asks the provider to send,
      and what it returns or throws. */
  function SendOTP(phoneNumber: string, otp: string, outcome: ProviderOutcome): (r: (Call, SendResult))
    ensures r.0 == SmsSend(phoneNumber, OtpMessageBody(otp))
    ensures r.1.Sent? <==> outcome.Delivered?
    ensures outcome.Delivered? ==> r.1.messageSid == outcome.sid
    ensures outcome.ProviderError? && outcome.code == TrialAccountCode ==> r.1.message == TrialAccountMessage
    ensures outcome.ProviderError? && outcome.code != TrialAccountCode ==>
      r.1.message == if outcome.message != "" then outcome.message else OtpFailureDefault
  {
    var call := SmsSend(phoneNumber, OtpMessageBody(otp));
    match outcome
    case Delivered(sid) => (call, Sent(sid))
    case ProviderError(code, message) =>
      if code == TrialAccountCode then (call, SendFailed(TrialAccountMessage))
      else (call, SendFailed(if message != "" then message else OtpFailureDefault))
  }

  /** A failed send always explains itself: the error message is never
      empty, whatever the provider said. */
  lemma SendOTPFailureHasMessage(phoneNumber: string, otp: string, outcome: ProviderOutcome)
    requires SendOTP(phoneNumber, otp, outcome).1.SendFailed?
    ensures SendOTP(phoneNumber, otp, outcome).1.message != ""
  {
  }

  /** The trial-account code hides whatever message the provider gave. */
  lemma SendOTPTrialIgnoresMessage(phoneNumber: string, otp: string, m1: string, m2: string)
    ensures SendOTP(phoneNumber, otp, ProviderError(TrialAccountCode, m1))
         == SendOTP(phoneNumber, otp, ProviderError(TrialAccountCode, m2))
  {
  }

  // ---------------------------------------------------------------------
  // sendDownloadLink
  // ---------------------------------------------------------------------

  const DownloadBodyMiddle: string := " shared a file with you!\n\nFile: "
  const DownloadBodyLinkLabel: string := "\n\nDownload: "
  const DownloadLinkFailure: string := "Failed to send download link notification."

  /** The download-notification text. */
  function DownloadMessageBody(senderName: string, fileName: string, downloadLink: string): (body: string)
    ensures StartsWith(body, senderName + DownloadBodyMiddle)
    ensures EndsWith(body, DownloadBodyLinkLabel + downloadLink)
    ensures |body| == |senderName| + |DownloadBodyMiddle| + |fileName| + |DownloadBodyLinkLabel| + |downloadLink|
    ensures body[|senderName + DownloadBodyMiddle|..|body| - |DownloadBodyLinkLabel + downloadLink|] == fileName
  {
    var head := senderName + DownloadBodyMiddle;
    var tail := DownloadBodyLinkLabel + downloadLink;
    var body := head + fileName + tail;
    assert body[..|head|] == head;
    assert body[|body| - |tail|..] == tail;
    assert body[|head|..|body| - |tail|] == fileName;
    body
  }

  /** Same sender and file, different links: different messages. */
  lemma DownloadMessageLinkInjective(senderName: string, fileName: string, a: string, b: string)
    requires DownloadMessageBody(senderName, fileName, a) == DownloadMessageBody(senderName, fileName, b)
    ensures a == b
  {
    var body := DownloadMessageBody(senderName, fileName, a);
    assert a == body[|body| - |a|..];
    assert b == DownloadMessageBody(senderName, fileName, b)[|body| - |b|..];
  }

  /** `sendDownloadLink(phoneNumber, senderName, fileName, downloadLink)`. */
  function SendDownloadLink(phoneNumber: string, senderName: string, fileName: string, downloadLink: string,
                            outcome: ProviderOutcome): (r: (Call, SendResult))
    ensures r.0 == SmsSend(phoneNumber, DownloadMessageBody(senderName, fileName, downloadLink))
    ensures r.1.Sent? <==> outcome.Delivered?
    ensures outcome.Delivered? ==> r.1.messageSid == outcome.sid
    ensures outcome.ProviderError? ==> r.1.message == DownloadLinkFailure
  {
    var call := SmsSend(phoneNumber, DownloadMessageBody(senderName, fileName, downloadLink));
    match outcome
    case Delivered(sid) => (call, Sent(sid))
    case ProviderError(_, _) => (call, SendFailed(DownloadLinkFailure))
  }

  /** Unlike `sendOTP`, every failure looks the same: the provider's code and
      message never reach the caller. */
  lemma SendDownloadLinkFailuresAlike(phoneNumber: string, senderName: string, fileName: string, link: string,
                                      c1: string, m1: string, c2: string, m2: string)
    ensures SendDownloadLink(phoneNumber, senderName, fileName, link, ProviderError(c1, m1))
         == SendDownloadLink(phoneNumber, senderName, fileName, link, ProviderError(c2, m2))
  {
  }
}
