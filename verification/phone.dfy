/** Backend phone-number rules: `normalizePhoneNumber` (utils/validation.js)
    and the pattern `^\+?[1-9]\d{1,14}$` that the OTP, User and FileShare
    schemas all apply to their phone fields. The two disagree: a normalised
    number may still be refused by the schemas. */
module Phone {
  import opened Wrappers
  import opened Strings

  // ---------------------------------------------------------------------
  // The schema pattern ^\+?[1-9]\d{1,14}$
  // ---------------------------------------------------------------------

  /** The digits part of a phone value: everything after an optional '+'. */
  function NationalPart(s: string): (r: string) {
    if |s| > 0 && s[0] == '+' then s[1..] else s
  }

  /** `^\+?[1-9]\d{1,14}$`: an optional '+', then 2 to 15 digits of which the
      first is not '0'. */
  predicate MatchesPhonePattern(s: string) {
    var d := NationalPart(s);
    2 <= |d| <= 15 && AllDigits(d) && d[0] != '0'
  }

  // ---------------------------------------------------------------------
  // normalizePhoneNumber
  // ---------------------------------------------------------------------

  predicate IsDialChar(c: char) {
    IsDigit(c) || c == '+'
  }

  predicate AllDialChars(s: string) {
    forall i :: 0 <= i < |s| ==> IsDialChar(s[i])
  }

  /** `s.replace(/[^\d+]/g, "")`. */
  function KeepDialChars(s: string): (r: string)
    ensures AllDialChars(r)
    ensures |r| <= |s|
  {
    if |s| == 0 then ""
    else if IsDialChar(s[0]) then [s[0]] + KeepDialChars(s[1..])
    else KeepDialChars(s[1..])
  }

  lemma {:induction false} KeepDialCharsAppend(a: string, b: string)
    ensures KeepDialChars(a + b) == KeepDialChars(a) + KeepDialChars(b)
    decreases |a|
  {
    if |a| > 0 {
      assert (a + b)[1..] == a[1..] + b;
      KeepDialCharsAppend(a[1..], b);
    } else {
      assert a + b == b;
    }
  }

  /** Separators between dial characters are dropped and nothing else
      changes. */
  lemma DropSeparator(a: string, c: char, b: string)
    requires AllDialChars(a) && AllDialChars(b) && !IsDialChar(c)
    ensures KeepDialChars(a + [c] + b) == a + b
  {
    DropTrailingSeparator(a, c);
    KeepDialCharsFixed(a);
    KeepDialCharsAppend(a + [c], b);
    KeepDialCharsFixed(b);
  }

  /** The string before the length check: cleaned, with '+' put in front
      when it does not already start with one. */
  function Candidate(phone: string): (c: string)
    ensures |c| >= 1 && c[0] == '+' && AllDialChars(c)
  {
    var cleaned := KeepDialChars(Trim(phone));
    if StartsWith(cleaned, "+") then cleaned else "+" + cleaned
  }

  /** `normalizePhoneNumber(phone)`: `None` stands for both a missing input
      and the returned `null`. */
  function NormalizePhoneNumber(phone: Option<string>): (r: Option<string>)
    ensures r.Some? ==> 8 <= |r.value| <= 16
    ensures r.Some? ==> r.value[0] == '+' && AllDialChars(r.value)
    ensures r.None? <==> phone.None? || phone.value == "" || !(8 <= |Candidate(phone.value)| <= 16)
    ensures r.Some? ==> r.value == Candidate(phone.value)
  {
    if phone.None? || phone.value == "" then None
    else
      var cleaned := Candidate(phone.value);
      if |cleaned| < 8 || |cleaned| > 16 then None else Some(cleaned)
  }

  /** Keeping dial characters of a string made only of them changes nothing. */
  lemma {:induction false} KeepDialCharsFixed(s: string)
    requires AllDialChars(s)
    ensures KeepDialChars(s) == s
    decreases |s|
  {
    if |s| > 0 {
      KeepDialCharsFixed(s[1..]);
    }
  }

  /** Normalising a normalised number returns it unchanged. */
  lemma NormalizeIdempotent(phone: Option<string>)
    requires NormalizePhoneNumber(phone).Some?
    ensures NormalizePhoneNumber(NormalizePhoneNumber(phone)) == NormalizePhoneNumber(phone)
  {
    CandidateOfNormalized(NormalizePhoneNumber(phone).value);
  }

  /** A '+' followed by dial characters is its own candidate. */
  lemma CandidateOfNormalized(r: string)
    requires |r| > 0 && r[0] == '+' && AllDialChars(r)
    ensures Candidate(r) == r
  {
    assert !IsSpace(r[0]) && !IsSpace(r[|r| - 1]) by {
      assert IsDialChar(r[|r| - 1]);
    }
    TrimNoSpace(r);
    KeepDialCharsFixed(r);
  }

  /** A string of dial characters not starting with '+' only gains the '+'. */
  lemma CandidateOfDialString(s: string)
    requires |s| > 0 && AllDialChars(s) && s[0] != '+'
    ensures Candidate(s) == "+" + s
  {
    assert !IsSpace(s[0]) && !IsSpace(s[|s| - 1]) by {
      assert IsDialChar(s[|s| - 1]);
    }
    TrimNoSpace(s);
    KeepDialCharsFixed(s);
  }

  lemma {:induction false} KeepDialCharsIgnoresTrimStart(s: string)
    ensures KeepDialChars(TrimStart(s)) == KeepDialChars(s)
    decreases |s|
  {
    if |s| > 0 && IsSpace(s[0]) {
      assert !IsDialChar(s[0]);
      KeepDialCharsIgnoresTrimStart(s[1..]);
    }
  }

  lemma {:induction false} KeepDialCharsIgnoresTrimEnd(s: string)
    ensures KeepDialChars(TrimEnd(s)) == KeepDialChars(s)
    decreases |s|
  {
    if |s| > 0 && IsSpace(s[|s| - 1]) {
      var init := s[..|s| - 1];
      assert s == init + [s[|s| - 1]];
      DropTrailingSeparator(init, s[|s| - 1]);
      KeepDialCharsIgnoresTrimEnd(init);
    }
  }

  /** A trailing non-dial character adds nothing to the clean-up. */
  lemma DropTrailingSeparator(a: string, c: char)
    requires !IsDialChar(c)
    ensures KeepDialChars(a + [c]) == KeepDialChars(a)
  {
    KeepDialCharsAppend(a, [c]);
    assert KeepDialChars([c]) == "" by {
      assert [c][1..] == "";
    }
  }

  /** Trimming first makes no difference to the clean-up. */
  lemma KeepDialCharsIgnoresTrim(s: string)
    ensures KeepDialChars(Trim(s)) == KeepDialChars(s)
  {
    KeepDialCharsIgnoresTrimStart(s);
    KeepDialCharsIgnoresTrimEnd(TrimStart(s));
  }

  /** Only the digits and '+' signs of the input, in order, decide the
      result: white space and separators anywhere are ignored, so
      " 123 456-7890" and "1234567890" normalise alike (to "+1234567890"). */
  lemma NormalizeSeesOnlyDialChars(s: string, t: string)
    requires s != "" && t != ""
    requires KeepDialChars(s) == KeepDialChars(t)
    ensures NormalizePhoneNumber(Some(s)) == NormalizePhoneNumber(Some(t))
  {
    KeepDialCharsIgnoresTrim(s);
    KeepDialCharsIgnoresTrim(t);
  }

  /** A non-empty input made of digits only, not starting with '+', gets the
      '+' put in front and is kept when it has 7 to 15 digits. */
  lemma NormalizeDigits(s: string)
    requires 7 <= |s| <= 15 && AllDigits(s)
    ensures NormalizePhoneNumber(Some(s)) == Some("+" + s)
  {
    CandidateOfDialString(s);
  }

  /** Exactly which normalised numbers the schema pattern accepts: those whose
      first digit is not '0' and that keep no '+' after the first character.
      Any other normalised number passes the upload's own check but is then
      refused when the record is written. */
  lemma NormalizedMatchesPatternIff(phone: Option<string>)
    requires NormalizePhoneNumber(phone).Some?
    ensures var r := NormalizePhoneNumber(phone).value;
      MatchesPhonePattern(r) <==> r[1] != '0' && '+' !in r[1..]
  {
    var r := NormalizePhoneNumber(phone).value;
    var d := r[1..];
    assert NationalPart(r) == d;
    if '+' !in d {
      assert forall i :: 0 <= i < |d| ==> IsDigit(d[i]) by {
        forall i | 0 <= i < |d| ensures IsDigit(d[i]) {
          assert d[i] == r[i + 1] && IsDialChar(r[i + 1]) && d[i] in d;
        }
      }
    }
    if MatchesPhonePattern(r) {
      assert forall i :: 0 <= i < |d| ==> d[i] != '+';
    }
  }

  /** The mismatch, in general: a number typed with a leading '0' (7 to 15
      digits) normalises to "+0...", which the schema pattern refuses. */
  lemma LeadingZeroNormalizedButRefused(s: string)
    requires 7 <= |s| <= 15 && AllDigits(s) && s[0] == '0'
    ensures NormalizePhoneNumber(Some(s)) == Some("+" + s)
    ensures !MatchesPhonePattern("+" + s)
  {
    CandidateOfDialString(s);
    assert NationalPart("+" + s) == s;
  }

  /** The mismatch for separators: a '+' typed inside the number is kept by
      normalisation, and the schema pattern refuses it. */
  lemma InteriorPlusNormalizedButRefused(s: string, i: nat)
    requires 7 <= |s| <= 15 && AllDialChars(s) && s[0] != '+'
    requires 0 < i < |s| && s[i] == '+'
    ensures NormalizePhoneNumber(Some(s)) == Some("+" + s)
    ensures !MatchesPhonePattern("+" + s)
  {
    CandidateOfDialString(s);
    assert NationalPart("+" + s) == s;
    assert !IsDigit(s[i]);
  }

  /** Conversely, every value the schema accepts that starts with '+' and has
      at least 7 digits is already normalised. */
  lemma PatternValueIsNormalized(s: string)
    requires MatchesPhonePattern(s) && |s| >= 8 && s[0] == '+'
    ensures NormalizePhoneNumber(Some(s)) == Some(s)
  {
    var d := NationalPart(s);
    assert AllDialChars(s) by {
      forall i | 0 <= i < |s| ensures IsDialChar(s[i]) {
        if i > 0 {
          assert s[i] == d[i - 1];
        }
      }
    }
    CandidateOfNormalized(s);
  }
}
