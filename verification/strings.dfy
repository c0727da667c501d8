/** Character classes and string operations shared by the backend and the
    frontend: the JavaScript behaviour of `\d`, `\s`, `trim`, `includes`,
    `startsWith`, `split`, `toLowerCase`, decimal printing and hex encoding,
    stated over `seq<char>`. */
module Strings {

  // ---------------------------------------------------------------------
  // Character classes
  // ---------------------------------------------------------------------

  /** The regular-expression class `\d`: ASCII digits only. */
  predicate IsDigit(c: char) {
    '0' <= c <= '9'
  }

  /** The regular-expression class `\s`, which is also the set of characters
      `String.prototype.trim` removes (WhiteSpace and LineTerminator). */
  predicate IsSpace(c: char) {
    || c == '\t' || c == '\n' || c == '\U{000B}' || c == '\U{000C}' || c == '\r'
    || c == ' ' || c == '\U{00A0}' || c == '\U{1680}'
    || ('\U{2000}' <= c <= '\U{200A}')
    || c == '\U{2028}' || c == '\U{2029}' || c == '\U{202F}' || c == '\U{205F}'
    || c == '\U{3000}' || c == '\U{FEFF}'
  }

  predicate AllDigits(s: string) {
    forall i :: 0 <= i < |s| ==> IsDigit(s[i])
  }

  function DigitValue(c: char): (d: nat)
    requires IsDigit(c)
    ensures d < 10
  {
    (c as int) - ('0' as int)
  }

  function DigitChar(d: nat): (c: char)
    requires d < 10
    ensures IsDigit(c) && DigitValue(c) == d
  {
    (('0' as int) + d) as char
  }

  // ---------------------------------------------------------------------
  // s.replace(/\D/g, '')
  // ---------------------------------------------------------------------

  /** The digits of `s`, in order: `s.replace(/\D/g, '')`. */
  function Digits(s: string): (r: string)
    ensures AllDigits(r)
    ensures |r| <= |s|
  {
    if |s| == 0 then ""
    else if IsDigit(s[0]) then [s[0]] + Digits(s[1..])
    else Digits(s[1..])
  }

  lemma {:induction false} DigitsAppend(a: string, b: string)
    ensures Digits(a + b) == Digits(a) + Digits(b)
    decreases |a|
  {
    if |a| > 0 {
      assert (a + b)[1..] == a[1..] + b;
      DigitsAppend(a[1..], b);
    } else {
      assert a + b == b;
    }
  }

  /** Removing non-digits from a string of digits changes nothing. */
  lemma {:induction false} DigitsOfDigits(s: string)
    requires AllDigits(s)
    ensures Digits(s) == s
    decreases |s|
  {
    if |s| > 0 {
      DigitsOfDigits(s[1..]);
    }
  }

  /** A string with no digit at all has no digits. */
  lemma {:induction false} DigitsOfNonDigits(s: string)
    requires forall i :: 0 <= i < |s| ==> !IsDigit(s[i])
    ensures Digits(s) == ""
    decreases |s|
  {
    if |s| > 0 {
      DigitsOfNonDigits(s[1..]);
    }
  }

  // ---------------------------------------------------------------------
  // String.prototype.length
  // ---------------------------------------------------------------------

  /** A character outside the Basic Multilingual Plane, which UTF-16
      stores as a surrogate pair. */
  predicate IsAstral(c: char) {
    c as int > 0xFFFF
  }

  /** `s.length`: the number of UTF-16 code units, two for every astral
      character and one for every other. */
  function Utf16Length(s: string): (n: nat)
    ensures |s| <= n <= 2 * |s|
    ensures n == 0 <==> s == []
  {
    if s == [] then 0 else (if IsAstral(s[0]) then 2 else 1) + Utf16Length(s[1..])
  }

  /** On a string without astral characters the JavaScript length is the
      number of characters. */
  lemma {:induction false} Utf16LengthBmp(s: string)
    requires forall i :: 0 <= i < |s| ==> !IsAstral(s[i])
    ensures Utf16Length(s) == |s|
  {
    if s != [] {
      Utf16LengthBmp(s[1..]);
    }
  }

  /** One astral character alone has length 2. */
  lemma AstralHasLengthTwo(c: char)
    requires IsAstral(c)
    ensures Utf16Length([c]) == 2
  {
    assert [c][1..] == [];
  }

  // ---------------------------------------------------------------------
  // String.prototype.trim
  // ---------------------------------------------------------------------

  function TrimStart(s: string): (r: string)
    ensures |r| <= |s| && r == s[|s| - |r|..]
    ensures |r| > 0 ==> !IsSpace(r[0])
    ensures forall i :: 0 <= i < |s| - |r| ==> IsSpace(s[i])
  {
    if |s| > 0 && IsSpace(s[0]) then TrimStart(s[1..]) else s
  }

  function TrimEnd(s: string): (r: string)
    ensures |r| <= |s| && r == s[..|r|]
    ensures |r| > 0 ==> !IsSpace(r[|r| - 1])
    ensures forall i :: |r| <= i < |s| ==> IsSpace(s[i])
  {
    if |s| > 0 && IsSpace(s[|s| - 1]) then TrimEnd(s[..|s| - 1]) else s
  }

  /** `s.trim()`: `s` without its leading and trailing white space. */
  function Trim(s: string): (r: string)
    ensures |r| > 0 ==> !IsSpace(r[0]) && !IsSpace(r[|r| - 1])
    ensures exists i, j :: 0 <= i <= j <= |s| && r == s[i..j]
  {
    var t := TrimStart(s);
    var r := TrimEnd(t);
    assert r == s[|s| - |t|..|s| - |t| + |r|];
    r
  }

  /** What `trim` removes is white space and only that: the result is a
      slice of `s` whose cut-off ends are all white space. With the ends of
      the result not white space, this fixes the result; in particular a
      string trims to "" exactly when it is all white space. */
  lemma TrimCutsOnlySpace(s: string)
    ensures exists i, j :: && 0 <= i <= j <= |s| && Trim(s) == s[i..j]
                           && SpaceBetween(s, 0, i) && SpaceBetween(s, j, |s|)
  {
    var t := TrimStart(s);
    var r := TrimEnd(t);
    assert r == s[|s| - |t|..|s| - |t| + |r|];
    TrailingSpace(s, t, r);
  }

  /** A string trims to "" exactly when it is all white space. */
  lemma TrimEmptyIff(s: string)
    ensures Trim(s) == "" <==> SpaceBetween(s, 0, |s|)
  {
    var t := TrimStart(s);
    if Trim(s) == "" {
      assert TrimEnd(t) == "";
    }
  }

  lemma TrailingSpace(s: string, t: string, r: string)
    requires |t| <= |s| && t == s[|s| - |t|..]
    requires |r| <= |t| && forall k :: |r| <= k < |t| ==> IsSpace(t[k])
    ensures SpaceBetween(s, |s| - |t| + |r|, |s|)
  {
    forall k | |s| - |t| + |r| <= k < |s| ensures IsSpace(s[k]) {
      assert s[k] == t[k - (|s| - |t|)];
    }
  }

  /** The characters of `s` from `lo` up to `hi` are all white space. */
  predicate SpaceBetween(s: string, lo: int, hi: int)
    requires 0 <= lo <= hi <= |s|
  {
    forall k :: lo <= k < hi ==> IsSpace(s[k])
  }

  /** Trimming keeps a string that has no white space at its ends. */
  lemma TrimNoSpace(s: string)
    requires |s| > 0 ==> !IsSpace(s[0]) && !IsSpace(s[|s| - 1])
    ensures Trim(s) == s
  {
  }

  /** Trimming twice is trimming once. */
  lemma TrimIdempotent(s: string)
    ensures Trim(Trim(s)) == Trim(s)
  {
    TrimNoSpace(Trim(s));
  }

  // ---------------------------------------------------------------------
  // startsWith / includes
  // ---------------------------------------------------------------------

  predicate StartsWith(s: string, p: string) {
    |p| <= |s| && s[..|p|] == p
  }

  predicate EndsWith(s: string, p: string) {
    |p| <= |s| && s[|s| - |p|..] == p
  }

  /** `s.includes(k)`: `k` occurs somewhere in `s`. */
  predicate Contains(s: string, k: string)
    decreases |s|
  {
    StartsWith(s, k) || (|s| > 0 && Contains(s[1..], k))
  }

  /** `k` occurs in `s` starting at position `i`. */
  predicate OccursAt(s: string, k: string, i: nat) {
    i + |k| <= |s| && s[i..i + |k|] == k
  }

  /** `Contains` is exactly "occurs at some position". */
  lemma {:induction false} ContainsIff(s: string, k: string)
    ensures Contains(s, k) <==> exists i: nat :: OccursAt(s, k, i)
    decreases |s|
  {
    if |s| > 0 {
      ContainsIff(s[1..], k);
      if StartsWith(s, k) {
        assert OccursAt(s, k, 0);
      }
      if Contains(s[1..], k) {
        var i: nat :| OccursAt(s[1..], k, i);
        assert OccursAt(s, k, i + 1);
      }
      if exists i: nat :: OccursAt(s, k, i) {
        var i: nat :| OccursAt(s, k, i);
        if i > 0 {
          assert OccursAt(s[1..], k, i - 1);
        }
      }
    } else {
      if Contains(s, k) {
        assert OccursAt(s, k, 0);
      }
      if exists i: nat :: OccursAt(s, k, i) {
        var i: nat :| OccursAt(s, k, i);
        assert |k| == 0 && s[..0] == k;
      }
    }
  }

  /** An occurrence of `k` in `a + [c] + b` cannot straddle `c` when `c`
      does not appear in `k`. */
  lemma {:induction false} Separated(a: string, c: char, b: string, k: string)
    requires c !in k
    requires !Contains(a, k) && !Contains(b, k)
    ensures !Contains(a + [c] + b, k)
    decreases |a|
  {
    var s := a + [c] + b;
    if |k| <= |s| {
      if |k| <= |a| {
        assert s[..|k|] == a[..|k|];
      } else {
        assert s[..|k|][|a|] == c;
      }
    }
    if |a| == 0 {
      assert s[1..] == b;
    } else {
      assert s[1..] == a[1..] + [c] + b;
      Separated(a[1..], c, b, k);
    }
  }

  // ---------------------------------------------------------------------
  // toLowerCase (ASCII letters)
  // ---------------------------------------------------------------------

  function LowerChar(c: char): (r: char)
    ensures 'A' <= c <= 'Z' ==> 'a' <= r <= 'z'
    ensures !('A' <= r <= 'Z')
  {
    if 'A' <= c <= 'Z' then ((c as int) + 32) as char else c
  }

  /** `s.toLowerCase()` restricted to the ASCII letters A-Z. */
  function ToLower(s: string): (r: string)
    ensures |r| == |s|
    ensures forall i :: 0 <= i < |s| ==> r[i] == LowerChar(s[i])
  {
    seq(|s|, i requires 0 <= i < |s| => LowerChar(s[i]))
  }

  /** A string without upper-case ASCII letters is its own lower case. */
  lemma LowerFixed(s: string)
    requires forall i :: 0 <= i < |s| ==> !('A' <= s[i] <= 'Z')
    ensures ToLower(s) == s
  {
  }

  lemma ToLowerIdempotent(s: string)
    ensures ToLower(ToLower(s)) == ToLower(s)
  {
  }

  // ---------------------------------------------------------------------
  // split / join
  // ---------------------------------------------------------------------

  /** `s.split(sep)` for a one-character separator. */
  function Split(s: string, sep: char): (r: seq<string>)
    ensures |r| >= 1
    ensures forall i :: 0 <= i < |r| ==> sep !in r[i]
    decreases |s|
  {
    if |s| == 0 then [""]
    else if s[0] == sep then [""] + Split(s[1..], sep)
    else
      var rest := Split(s[1..], sep);
      [[s[0]] + rest[0]] + rest[1..]
  }

  /** A first field without the separator comes off the front unchanged. */
  lemma {:induction false} SplitFirstField(p: string, sep: char, rest: string)
    requires sep !in p
    ensures Split(p + [sep] + rest, sep) == [p] + Split(rest, sep)
    decreases |p|
  {
    var s := p + [sep] + rest;
    if |p| == 0 {
      assert s[1..] == rest;
    } else {
      assert s[1..] == p[1..] + [sep] + rest;
      SplitFirstField(p[1..], sep, rest);
      assert [p[0]] + p[1..] == p;
    }
  }

  /** A string without the separator is a single field. */
  lemma {:induction false} SplitNoSeparator(s: string, sep: char)
    requires sep !in s
    ensures Split(s, sep) == [s]
    decreases |s|
  {
    if |s| > 0 {
      SplitNoSeparator(s[1..], sep);
      assert [s[0]] + s[1..] == s;
    }
  }

  /** `fields.join(sep)`. */
  function Join(fields: seq<string>, sep: char): (r: string)
    requires |fields| >= 1
  {
    if |fields| == 1 then fields[0] else fields[0] + [sep] + Join(fields[1..], sep)
  }

  /** Joining the fields of a split gives back the original string. */
  lemma {:induction false} JoinSplit(s: string, sep: char)
    ensures Join(Split(s, sep), sep) == s
    decreases |s|
  {
    if |s| > 0 {
      JoinSplit(s[1..], sep);
      var rest := Split(s[1..], sep);
      if s[0] != sep {
        var r := Split(s, sep);
        assert r[0] == [s[0]] + rest[0];
        if |rest| > 1 {
          assert r[1..] == rest[1..];
          assert Join(r, sep) == [s[0]] + rest[0] + [sep] + Join(rest[1..], sep);
          assert Join(rest, sep) == rest[0] + [sep] + Join(rest[1..], sep);
        }
        assert Join(r, sep) == [s[0]] + Join(rest, sep);
        assert s == [s[0]] + s[1..];
      } else {
        assert s == [sep] + s[1..];
      }
    }
  }

  /** Splitting a join of separator-free fields gives back the fields. */
  lemma {:induction false} SplitJoin(fields: seq<string>, sep: char)
    requires |fields| >= 1
    requires forall i :: 0 <= i < |fields| ==> sep !in fields[i]
    ensures Split(Join(fields, sep), sep) == fields
    decreases |fields|, |fields[0]|
  {
    var f := fields[0];
    if |f| == 0 {
      if |fields| == 1 {
      } else {
        SplitJoin(fields[1..], sep);
        assert Join(fields, sep) == [sep] + Join(fields[1..], sep);
        assert Join(fields, sep)[1..] == Join(fields[1..], sep);
        assert fields == [""] + fields[1..];
      }
    } else {
      var fields' := [f[1..]] + fields[1..];
      assert fields'[1..] == fields[1..];
      assert forall i :: 0 <= i < |fields'| ==> sep !in fields'[i] by {
        forall i | 0 <= i < |fields'| ensures sep !in fields'[i] {
          if i == 0 {
            assert forall c :: c in f[1..] ==> c in f;
          } else {
            assert fields'[i] == fields[i];
          }
        }
      }
      SplitJoin(fields', sep);
      var j := Join(fields, sep);
      if |fields| == 1 {
        assert j == f;
        assert j[1..] == Join(fields', sep);
      } else {
        assert j == f + [sep] + Join(fields[1..], sep);
        assert Join(fields', sep) == f[1..] + [sep] + Join(fields[1..], sep);
        assert j[1..] == Join(fields', sep);
      }
      assert j[0] == f[0] && f[0] != sep;
      assert [f[0]] + f[1..] == f;
      assert fields == [[f[0]] + f[1..]] + fields[1..];
    }
  }

  // ---------------------------------------------------------------------
  // Number.prototype.toString() for naturals, and its inverse
  // ---------------------------------------------------------------------

  /** The decimal numeral of `n`, without leading zeros. */
  function DecimalString(n: nat): (r: string)
    ensures |r| >= 1 && AllDigits(r)
    decreases n
  {
    if n < 10 then [DigitChar(n)] else DecimalString(n / 10) + [DigitChar(n % 10)]
  }

  /** The value of a string of digits. */
  function DecimalValue(s: string): (n: nat)
    requires AllDigits(s)
    decreases |s|
  {
    if |s| == 0 then 0 else DecimalValue(s[..|s| - 1]) * 10 + DigitValue(s[|s| - 1])
  }

  /** Reading back a printed number gives the number. */
  lemma {:induction false} DecimalRoundTrip(n: nat)
    ensures DecimalValue(DecimalString(n)) == n
    decreases n
  {
    if n >= 10 {
      DecimalRoundTrip(n / 10);
      var s := DecimalString(n);
      assert s[..|s| - 1] == DecimalString(n / 10);
    }
  }

  function Pow10(k: nat): (r: nat)
    ensures r >= 1
  {
    if k == 0 then 1 else 10 * Pow10(k - 1)
  }

  /** A number with `k` decimal digits prints as `k` characters, the first of
      which is not '0'. */
  lemma {:induction false} DecimalLength(n: nat, k: nat)
    requires 1 <= k && Pow10(k - 1) <= n < Pow10(k)
    ensures |DecimalString(n)| == k
    ensures k > 1 ==> DecimalString(n)[0] != '0'
    decreases k
  {
    if k > 1 {
      assert n >= 10;
      DecimalLength(n / 10, k - 1);
      assert DecimalString(n)[0] == DecimalString(n / 10)[0];
      if k == 2 {
        assert 1 <= n / 10 < 10;
      }
    } else {
      assert n < 10;
    }
  }

  /** A string of `k` digits is worth less than 10^k, and at least 10^(k-1)
      when it does not start with '0'. */
  lemma {:induction false} DecimalValueBounds(s: string)
    requires AllDigits(s)
    ensures DecimalValue(s) < Pow10(|s|)
    ensures |s| >= 1 && s[0] != '0' ==> Pow10(|s| - 1) <= DecimalValue(s)
    decreases |s|
  {
    if |s| > 0 {
      var init := s[..|s| - 1];
      DecimalValueBounds(init);
      var d := DigitValue(s[|s| - 1]);
      assert DecimalValue(s) == DecimalValue(init) * 10 + d;
      assert DecimalValue(init) * 10 <= (Pow10(|init|) - 1) * 10;
      if |s| >= 2 && s[0] != '0' {
        assert init[0] == s[0];
        assert Pow10(|init| - 1) * 10 <= DecimalValue(init) * 10;
      }
    }
  }

  /** Printing the value of a digit string without a leading zero gives the
      string back: `DecimalString` is onto such strings. */
  lemma {:induction false} DecimalStringOfValue(s: string)
    requires AllDigits(s) && |s| >= 1 && (s[0] != '0' || |s| == 1)
    ensures DecimalString(DecimalValue(s)) == s
    decreases |s|
  {
    var init := s[..|s| - 1];
    var d := DigitValue(s[|s| - 1]);
    assert DecimalValue(s) == DecimalValue(init) * 10 + d;
    if |s| == 1 {
      assert DecimalValue(init) == 0;
      assert [DigitChar(d)] == s;
    } else {
      assert init[0] == s[0];
      DecimalValueBounds(init);
      DecimalStringOfValue(init);
      var n := DecimalValue(s);
      assert n / 10 == DecimalValue(init) && n % 10 == d;
      assert DecimalString(n) == DecimalString(n / 10) + [DigitChar(n % 10)];
      assert init + [s[|s| - 1]] == s;
    }
  }

  // ---------------------------------------------------------------------
  // Buffer.prototype.toString("hex")
  // ---------------------------------------------------------------------

  type Byte = x: int | 0 <= x < 256

  predicate IsLowerHex(c: char) {
    IsDigit(c) || 'a' <= c <= 'f'
  }

  function HexChar(d: nat): (c: char)
    requires d < 16
    ensures IsLowerHex(c)
  {
    if d < 10 then DigitChar(d) else (('a' as int) + d - 10) as char
  }

  function HexCharValue(c: char): (d: nat)
    requires IsLowerHex(c)
    ensures d < 16
  {
    if IsDigit(c) then DigitValue(c) else (c as int) - ('a' as int) + 10
  }

  /** Each byte as two lower-case hex digits, high nibble first. */
  function Hex(bytes: seq<Byte>): (r: string)
    ensures |r| == 2 * |bytes|
    ensures forall i :: 0 <= i < |r| ==> IsLowerHex(r[i])
  {
    if |bytes| == 0 then ""
    else [HexChar(bytes[0] / 16), HexChar(bytes[0] % 16)] + Hex(bytes[1..])
  }

  /** Decodes a string of lower-case hex digit pairs. */
  function Unhex(s: string): (r: seq<Byte>)
    requires |s| % 2 == 0
    requires forall i :: 0 <= i < |s| ==> IsLowerHex(s[i])
  {
    if |s| == 0 then []
    else [HexCharValue(s[0]) * 16 + HexCharValue(s[1])] + Unhex(s[2..])
  }

  lemma {:induction false} HexRoundTrip(bytes: seq<Byte>)
    ensures Unhex(Hex(bytes)) == bytes
  {
    if |bytes| > 0 {
      HexRoundTrip(bytes[1..]);
      assert Hex(bytes)[2..] == Hex(bytes[1..]);
    }
  }
}
