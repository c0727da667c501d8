/** The browser-side input checks of the single-page client
    (frontend/fileShare/src/utils/validation.js): phone and OTP validity by
    digit count, phone display formatting, and the e-mail pattern
    `^[^\s@]+@[^\s@]+\.[^\s@]+$`. */
module ClientValidation {
  import opened Strings

  // ---------------------------------------------------------------------
  // validatePhoneNumber
  // ---------------------------------------------------------------------

  /** `validatePhoneNumber`: 10 to 15 digits once everything else is removed. */
  predicate ValidatePhoneNumber(s: string) {
    var cleaned := Digits(s);
    !(|cleaned| < 10 || |cleaned| > 15)
  }

  /** Inserting a non-digit anywhere never changes the verdict. */
  lemma ValidatePhoneNumberIgnoresNonDigits(a: string, c: char, b: string)
    requires !IsDigit(c)
    ensures ValidatePhoneNumber(a + [c] + b) <==> ValidatePhoneNumber(a + b)
  {
    DigitsInsertNonDigit(a, c, b);
  }

  /** On a string of digits the verdict is its length being in [10, 15]. */
  lemma ValidatePhoneNumberOfDigits(s: string)
    requires AllDigits(s)
    ensures ValidatePhoneNumber(s) <==> 10 <= |s| <= 15
  {
    DigitsOfDigits(s);
  }

  lemma DigitsInsertNonDigit(a: string, c: char, b: string)
    requires !IsDigit(c)
    ensures Digits(a + [c] + b) == Digits(a + b)
  {
    DigitsAppend(a + [c], b);
    DigitsAppend(a, [c]);
    DigitsAppend(a, b);
    assert Digits([c]) == "" by {
      assert [c][1..] == "";
    }
  }

  // ---------------------------------------------------------------------
  // formatPhoneNumber
  // ---------------------------------------------------------------------

  /** `formatPhoneNumber`: "(ddd) ddd-dddd" for exactly ten digits,
      "+c ddd ddd dddd" for more (the leading digits as the country code),
      and the input unchanged for fewer. */
  function FormatPhoneNumber(s: string): (r: string) {
    var d := Digits(s);
    var n := |d|;
    if n == 10 then "(" + d[..3] + ") " + d[3..6] + "-" + d[6..]
    else if n > 10 then "+" + d[..n - 10] + " " + d[n - 10..n - 7] + " " + d[n - 7..n - 4] + " " + d[n - 4..]
    else s
  }

  /** Appending a separator and a run of digits to `x` appends exactly that
      run to the digits of `x`. */
  lemma DigitsStep(x: string, sep: string, p: string)
    requires forall i :: 0 <= i < |sep| ==> !IsDigit(sep[i])
    requires AllDigits(p)
    ensures Digits(x + sep + p) == Digits(x) + p
  {
    DigitsOfNonDigits(sep);
    DigitsOfDigits(p);
    DigitsAppend(x, sep);
    DigitsAppend(x + sep, p);
  }

  lemma FormatKeepsDigitsTen(s: string)
    requires |Digits(s)| == 10
    ensures Digits(FormatPhoneNumber(s)) == Digits(s)
  {
    var d := Digits(s);
    var p1, p2, p3 := d[..3], d[3..6], d[6..];
    DigitsLead("(", p1);
    DigitsStep("(" + p1, ") ", p2);
    DigitsStep("(" + p1 + ") " + p2, "-", p3);
    assert p1 + p2 + p3 == d;
  }

  /** A leading separator contributes no digit. */
  lemma DigitsLead(sep: string, p: string)
    requires forall i :: 0 <= i < |sep| ==> !IsDigit(sep[i])
    requires AllDigits(p)
    ensures Digits(sep + p) == p
  {
    DigitsOfNonDigits(sep);
    DigitsOfDigits(p);
    DigitsAppend(sep, p);
  }

  lemma DigitsOfGrouped(p0: string, p1: string, p2: string)
    requires AllDigits(p0) && AllDigits(p1) && AllDigits(p2)
    ensures Digits("+" + p0 + " " + p1 + " " + p2) == p0 + p1 + p2
  {
    DigitsLead("+", p0);
    DigitsStep("+" + p0, " ", p1);
    DigitsStep("+" + p0 + " " + p1, " ", p2);
  }

  lemma FormatKeepsDigitsLong(s: string)
    requires |Digits(s)| > 10
    ensures Digits(FormatPhoneNumber(s)) == Digits(s)
  {
    var d := Digits(s);
    var n := |d|;
    DigitsSlice(d, 0, n - 10);
    DigitsSlice(d, n - 10, n - 7);
    DigitsSlice(d, n - 7, n - 4);
    DigitsSlice(d, n - 4, n);
    DigitsOfLongLayout(d[0..n - 10], d[n - 10..n - 7], d[n - 7..n - 4], d[n - 4..n]);
    SplitFour(d, n - 10, n - 7, n - 4);
  }

  /** The digits of "+c ddd ddd dddd" are its groups in order. */
  lemma DigitsOfLongLayout(p0: string, p1: string, p2: string, p3: string)
    requires AllDigits(p0) && AllDigits(p1) && AllDigits(p2) && AllDigits(p3)
    ensures Digits("+" + p0 + " " + p1 + " " + p2 + " " + p3) == p0 + p1 + p2 + p3
  {
    var x := "+" + p0 + " " + p1 + " " + p2;
    DigitsOfGrouped(p0, p1, p2);
    SpaceHasNoDigit();
    DigitsStep(x, " ", p3);
  }

  lemma SpaceHasNoDigit()
    ensures forall i :: 0 <= i < |" "| ==> !IsDigit(" "[i])
  {
  }

  /** A slice of a digit string is a digit string. */
  lemma DigitsSlice(d: string, a: nat, b: nat)
    requires AllDigits(d) && a <= b <= |d|
    ensures AllDigits(d[a..b])
  {
    forall k | 0 <= k < b - a ensures IsDigit(d[a..b][k]) {
      assert d[a..b][k] == d[a + k];
    }
  }

  /** Four consecutive slices put back together give the whole. */
  lemma SplitFour(d: string, a: nat, b: nat, c: nat)
    requires a <= b <= c <= |d|
    ensures d[0..a] + d[a..b] + d[b..c] + d[c..|d|] == d
    ensures d[..a] == d[0..a] && d[c..] == d[c..|d|]
  {
  }

  /** Formatting neither adds, drops nor reorders a digit. */
  lemma FormatKeepsDigits(s: string)
    ensures Digits(FormatPhoneNumber(s)) == Digits(s)
  {
    if |Digits(s)| == 10 {
      FormatKeepsDigitsTen(s);
    } else if |Digits(s)| > 10 {
      FormatKeepsDigitsLong(s);
    }
  }

  /** Formatting a formatted number changes nothing more. */
  lemma FormatIdempotent(s: string)
    ensures FormatPhoneNumber(FormatPhoneNumber(s)) == FormatPhoneNumber(s)
  {
    FormatKeepsDigits(s);
  }

  /** Formatting never changes whether the number is valid. */
  lemma FormatPreservesValidity(s: string)
    ensures ValidatePhoneNumber(FormatPhoneNumber(s)) <==> ValidatePhoneNumber(s)
  {
    FormatKeepsDigits(s);
  }

  /** The ten-digit layout: 14 characters, digits at fixed places. */
  lemma FormatTenDigits(s: string)
    requires |Digits(s)| == 10
    ensures var r := FormatPhoneNumber(s);
      |r| == 14 && r[0] == '(' && r[4] == ')' && r[5] == ' ' && r[9] == '-'
      && r[1..4] == Digits(s)[..3] && r[6..9] == Digits(s)[3..6] && r[10..] == Digits(s)[6..]
  {
  }

  /** Fewer than ten digits: the input comes back untouched. */
  lemma FormatShortUnchanged(s: string)
    requires |Digits(s)| < 10
    ensures FormatPhoneNumber(s) == s
  {
  }

  /** More than ten digits: '+', the leading digits, then the last ten
      grouped 3-3-4, so the result ends in the same last four digits. */
  lemma FormatLongEnding(s: string)
    requires |Digits(s)| > 10
    ensures var r := FormatPhoneNumber(s); var d := Digits(s);
      r[0] == '+' && |r| == |d| + 4 && r[|r| - 4..] == d[|d| - 4..] && r[|r| - 5] == ' '
  {
  }

  // ---------------------------------------------------------------------
  // validateOTP
  // ---------------------------------------------------------------------

  /** `validateOTP`: exactly six digits once everything else is removed. */
  predicate ValidateOTP(s: string) {
    |Digits(s)| == 6
  }

  /** Separators are ignored, so "12-34-56" is as valid as "123456". */
  lemma ValidateOTPIgnoresNonDigits(a: string, c: char, b: string)
    requires !IsDigit(c)
    ensures ValidateOTP(a + [c] + b) <==> ValidateOTP(a + b)
  {
    DigitsInsertNonDigit(a, c, b);
  }

  /** A string of six digits is a valid OTP, and a string of digits of any
      other length is not. */
  lemma ValidateOTPOfDigits(s: string)
    requires AllDigits(s)
    ensures ValidateOTP(s) <==> |s| == 6
  {
    DigitsOfDigits(s);
  }

  // ---------------------------------------------------------------------
  // validateEmail
  // ---------------------------------------------------------------------

  /** `[^\s@]`. */
  predicate Plain(c: char) {
    !IsSpace(c) && c != '@'
  }

  predicate AllPlain(s: string) {
    forall i :: 0 <= i < |s| ==> Plain(s[i])
  }

  /** Index of the first `c` in `s`. */
  function IndexOf(s: string, c: char): (i: nat)
    requires c in s
    ensures i < |s| && s[i] == c && c !in s[..i]
  {
    if s[0] == c then 0 else 1 + IndexOf(s[1..], c)
  }

  /** `validateEmail` as a scan: text before the first '@' with no white
      space, and after it at least three characters with no white space and
      no '@', among which a '.' that is neither first nor last. */
  predicate ValidateEmail(s: string) {
    '@' in s &&
    var i := IndexOf(s, '@');
    0 < i && AllPlain(s[..i]) && DomainOk(s[i + 1..])
  }

  /** The part after the '@': at least three plain characters, with a '.'
      that is neither first nor last. */
  predicate DomainOk(t: string) {
    |t| >= 3 && AllPlain(t) && '.' in t[1..|t| - 1]
  }

  /** The pattern `^[^\s@]+@[^\s@]+\.[^\s@]+$`, read literally: a non-empty
      plain part, '@', a non-empty plain part, '.', a non-empty plain part. */
  ghost predicate EmailPattern(s: string) {
    exists i, j :: 0 < i && i + 1 < j && j + 1 < |s| && s[i] == '@' && s[j] == '.'
      && AllPlain(s[..i]) && AllPlain(s[i + 1..j]) && AllPlain(s[j + 1..])
  }

  lemma PlainSlice(s: string, a: nat, b: nat)
    requires a <= b <= |s|
    requires forall k :: a <= k < b ==> Plain(s[k])
    ensures AllPlain(s[a..b])
  {
  }

  lemma PlainOfSlice(s: string, a: nat, b: nat)
    requires a <= b <= |s| && AllPlain(s[a..b])
    ensures forall k :: a <= k < b ==> Plain(s[k])
  {
    forall k | a <= k < b
      ensures Plain(s[k])
    {
      assert s[a..b][k - a] == s[k];
    }
  }

  lemma {:induction false} IndexOfIs(s: string, c: char, i: nat)
    requires i < |s| && s[i] == c && c !in s[..i]
    ensures IndexOf(s, c) == i
    decreases i
  {
    if i > 0 {
      assert s[0] == s[..i][0];
      assert s[1..][..i - 1] == s[1..i];
      assert forall x :: x in s[1..i] ==> x in s[..i];
      IndexOfIs(s[1..], c, i - 1);
    }
  }

  lemma ValidateEmailToPattern(s: string)
    requires ValidateEmail(s)
    ensures EmailPattern(s)
  {
    var i := IndexOf(s, '@');
    var t := s[i + 1..];
    var m :| 0 <= m < |t| - 2 && t[1..|t| - 1][m] == '.';
    var j := i + 2 + m;
    assert s[j] == '.';
    PlainOfSlice(s, i + 1, |s|);
    PlainSlice(s, i + 1, j);
    PlainSlice(s, j + 1, |s|);
  }

  lemma PatternToValidateEmail(s: string)
    requires EmailPattern(s)
    ensures ValidateEmail(s)
  {
    var i, j :| 0 < i && i + 1 < j && j + 1 < |s| && s[i] == '@' && s[j] == '.'
      && AllPlain(s[..i]) && AllPlain(s[i + 1..j]) && AllPlain(s[j + 1..]);
    assert IndexOf(s, '@') == i by {
      FirstAt(s, i);
    }
    assert DomainOk(s[i + 1..]) by {
      DomainOfPattern(s, i, j);
    }
  }

  /** A plain local part ends at the first '@'. */
  lemma FirstAt(s: string, i: nat)
    requires 0 < i < |s| && s[i] == '@' && AllPlain(s[..i])
    ensures IndexOf(s, '@') == i
  {
    assert '@' !in s[..i] by {
      PlainOfSlice(s, 0, i);
      assert s[..i] == s[0..i];
    }
    IndexOfIs(s, '@', i);
  }

  /** The part after the '@' of a pattern match passes the scan's tests. */
  lemma DomainOfPattern(s: string, i: nat, j: nat)
    requires 0 < i && i + 1 < j && j + 1 < |s| && s[i] == '@' && s[j] == '.'
    requires AllPlain(s[i + 1..j]) && AllPlain(s[j + 1..])
    ensures DomainOk(s[i + 1..])
  {
    PlainOfSlice(s, i + 1, j);
    PlainOfSlice(s, j + 1, |s|);
    PlainSlice(s, i + 1, |s|);
    var t := s[i + 1..];
    assert t[1..|t| - 1][j - i - 2] == '.';
  }

  /** The scan accepts exactly the strings the pattern matches. */
  lemma ValidateEmailIff(s: string)
    ensures ValidateEmail(s) <==> EmailPattern(s)
  {
    if ValidateEmail(s) {
      ValidateEmailToPattern(s);
    }
    if EmailPattern(s) {
      PatternToValidateEmail(s);
    }
  }
}
