/**
 * Character classes and string helpers used by the frontend validators and
 * by the backend's rendering of numbers as column text: JavaScript's `trim`,
 * the regular-expression class `\d`, and decimal numerals.
 */
module Text {

  /** The characters JavaScript's `String.prototype.trim` strips: WhiteSpace
      (tab, vertical tab, form feed, space, no-break space, byte-order mark and
      the Unicode space separators) and LineTerminator. */
  predicate IsSpace(c: char) {
    || c == '\t' || c == '\n' || c == '\U{000B}' || c == '\U{000C}' || c == '\r'
    || c == ' ' || c == '\U{00A0}' || c == '\U{FEFF}'
    || c == '\U{1680}' || ('\U{2000}' <= c <= '\U{200A}')
    || c == '\U{2028}' || c == '\U{2029}' || c == '\U{202F}' || c == '\U{205F}'
    || c == '\U{3000}'
  }

  /** The regular-expression class `\d` without the `u` flag: ASCII digits only. */
  predicate IsDigit(c: char) {
    '0' <= c <= '9'
  }

  predicate AllDigits(s: string) {
    forall k | 0 <= k < |s| :: IsDigit(s[k])
  }

  /** `/^\d+$/.test(s)`: one or more digits and nothing else. */
  predicate MatchesDigits(s: string) {
    |s| > 0 && AllDigits(s)
  }

  /** `/^\d{5,6}$/.test(s)`. */
  predicate MatchesZip(s: string) {
    (|s| == 5 || |s| == 6) && AllDigits(s)
  }

  /** JavaScript's `length`: the number of UTF-16 code units, two for a
      character outside the Basic Multilingual Plane. */
  function Utf16Length(s: string): (n: nat)
    ensures |s| <= n <= 2 * |s|
  {
    if s == [] then 0
    else Utf16Length(s[..|s| - 1]) + (if s[|s| - 1] as int > 0xFFFF then 2 else 1)
  }

  /** Digits are one code unit each. */
  lemma {:induction false} DigitsUtf16Length(s: string)
    requires AllDigits(s)
    ensures Utf16Length(s) == |s|
  {
    if s != [] {
      DigitsUtf16Length(s[..|s| - 1]);
    }
  }

  /** Every character lies outside the Basic Multilingual Plane. */
  predicate AllAstral(s: string) {
    forall k | 0 <= k < |s| :: s[k] as int > 0xFFFF
  }

  /** Characters outside the Basic Multilingual Plane are two code units each. */
  lemma {:induction false} AstralUtf16Length(s: string)
    requires AllAstral(s)
    ensures Utf16Length(s) == 2 * |s|
  {
    if s != [] {
      AstralUtf16Length(s[..|s| - 1]);
    }
  }

  /** Text outside the Basic Multilingual Plane holds neither whitespace
      nor digits: `trim` leaves it alone and `/^\d+$/` rejects it. */
  lemma AstralNotBlank(s: string)
    requires AllAstral(s)
    ensures Trim(s) == s && !MatchesDigits(s)
  {
    AstralNoSpace(s);
    TrimNoSpace(s);
    if s != [] {
      assert !IsDigit(s[0]);
    }
  }

  lemma AstralNoSpace(s: string)
    requires AllAstral(s)
    ensures forall k | 0 <= k < |s| :: !IsSpace(s[k])
  {
    forall k | 0 <= k < |s| ensures !IsSpace(s[k]) {
      assert s[k] as int > 0xFFFF;
    }
  }

  /** Drops leading whitespace. */
  function TrimStart(s: string): (t: string)
    ensures |t| <= |s| && t == s[|s| - |t|..]
    ensures forall k | 0 <= k < |s| - |t| :: IsSpace(s[k])
    ensures t != [] ==> !IsSpace(t[0])
  {
    if s == [] || !IsSpace(s[0]) then s else TrimStart(s[1..])
  }

  /** Drops trailing whitespace. */
  function TrimEnd(s: string): (t: string)
    ensures |t| <= |s| && t == s[..|t|]
    ensures forall k | |t| <= k < |s| :: IsSpace(s[k])
    ensures t != [] ==> !IsSpace(t[|t| - 1])
  {
    if s == [] || !IsSpace(s[|s| - 1]) then s else TrimEnd(s[..|s| - 1])
  }

  /** JavaScript's `s.trim()`. */
  function Trim(s: string): string {
    TrimEnd(TrimStart(s))
  }

  /** A string trims to nothing exactly when every character is whitespace. */
  lemma TrimEmptyIff(s: string)
    ensures Trim(s) == [] <==> forall k | 0 <= k < |s| :: IsSpace(s[k])
  {
    var a := TrimStart(s);
    if Trim(s) == [] {
      forall k | 0 <= k < |s| ensures IsSpace(s[k]) {
        if k >= |s| - |a| {
          assert s[k] == a[k - (|s| - |a|)];
        }
      }
    } else {
      var t := Trim(s);
      assert t[0] == a[0];
      assert s[|s| - |a|] == a[0];
    }
  }

  /** Text without whitespace is left as it is by `trim`. */
  lemma TrimNoSpace(s: string)
    requires forall k | 0 <= k < |s| :: !IsSpace(s[k])
    ensures Trim(s) == s
  {
    if s != [] {
      assert !IsSpace(s[0]);
      assert !IsSpace(s[|s| - 1]);
    }
  }

  /** Digits are never whitespace, so `trim` leaves a digit string alone. */
  lemma TrimDigits(s: string)
    requires AllDigits(s)
    ensures Trim(s) == s
  {
    TrimNoSpace(s);
  }

  /** A non-empty digit string is left alone by `trim`, so it is not blank. */
  lemma DigitsNotBlank(s: string)
    requires MatchesDigits(s)
    ensures Trim(s) == s && Trim(s) != ""
  {
    TrimDigits(s);
  }

  function DigitChar(d: nat): (c: char)
    requires d < 10
    ensures IsDigit(c)
  {
    ['0', '1', '2', '3', '4', '5', '6', '7', '8', '9'][d]
  }

  function DigitValue(c: char): nat
    requires IsDigit(c)
  {
    (c as int - '0' as int) as nat
  }

  /** The decimal numeral `String(n)` gives for a non-negative integer. */
  function NatText(n: nat): (s: string)
    ensures MatchesDigits(s)
    decreases n
  {
    if n < 10 then [DigitChar(n)] else NatText(n / 10) + [DigitChar(n % 10)]
  }

  /** The number a digit string denotes. */
  function NumeralValue(s: string): nat
    requires AllDigits(s)
  {
    if s == [] then 0 else NumeralValue(s[..|s| - 1]) * 10 + DigitValue(s[|s| - 1])
  }

  /** Reading back a rendered numeral gives the number. */
  lemma {:induction false} NatTextRoundTrip(n: nat)
    ensures NumeralValue(NatText(n)) == n
    decreases n
  {
    if n >= 10 {
      var s := NatText(n);
      assert s[..|s| - 1] == NatText(n / 10);
      NatTextRoundTrip(n / 10);
    }
  }

  /** `String(n)` for any integer. */
  function IntText(n: int): (s: string)
    ensures n >= 0 ==> MatchesDigits(s)
    ensures n < 0 ==> |s| >= 2 && s[0] == '-' && MatchesDigits(s[1..])
  {
    if n >= 0 then NatText(n) else "-" + NatText(-n)
  }
}
