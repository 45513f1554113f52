/** The pieces of JavaScript's string behaviour the shortener relies on:
    the white-space set shared by `\s` and `String.prototype.trim`, `trim`
    itself, and the decimal rendering of a non-negative integer that a
    template literal such as `${days}` produces. */
module JsText {

  /** ECMAScript LineTerminator code points: what `.` refuses to match. */
  predicate IsLineTerminator(c: char) {
    c == '\n' || c == '\r' || c == '\U{2028}' || c == '\U{2029}'
  }

  /** ECMAScript WhiteSpace or LineTerminator code points: the `\s` class,
      and what `trim` strips from both ends. */
  predicate IsWhiteSpace(c: char) {
    || IsLineTerminator(c)
    || c == '\t' || c == '\U{000B}' || c == '\U{000C}' || c == '\U{FEFF}'
    || c == ' ' || c == '\U{00A0}' || c == '\U{1680}'
    || ('\U{2000}' <= c <= '\U{200A}')
    || c == '\U{202F}' || c == '\U{205F}' || c == '\U{3000}'
  }

  /** Every character of `s` is white space (`s` may be empty). */
  predicate AllWhiteSpace(s: string) {
    forall k :: 0 <= k < |s| ==> IsWhiteSpace(s[k])
  }

  /** `s` with its leading white space removed. */
  function TrimStart(s: string): (r: string)
    ensures |r| <= |s| && r == s[|s| - |r|..]
    ensures r == [] || !IsWhiteSpace(r[0])
    ensures AllWhiteSpace(s[..|s| - |r|])
  {
    if s != [] && IsWhiteSpace(s[0]) then TrimStart(s[1..]) else s
  }

  /** `s` with its trailing white space removed. */
  function TrimEnd(s: string): (r: string)
    ensures |r| <= |s| && r == s[..|r|]
    ensures r == [] || !IsWhiteSpace(r[|r| - 1])
    ensures AllWhiteSpace(s[|r|..])
  {
    if s != [] && IsWhiteSpace(s[|s| - 1]) then TrimEnd(s[..|s| - 1]) else s
  }

  /** `String.prototype.trim`. */
  function Trim(s: string): string {
    TrimEnd(TrimStart(s))
  }

  /** `s.trim()` is falsy (the empty string) exactly when `s` is all white space. */
  lemma TrimEmptyIffBlank(s: string)
    ensures Trim(s) == [] <==> AllWhiteSpace(s)
  {
    var t := TrimStart(s);
    if Trim(s) == [] {
      assert AllWhiteSpace(t[0..]);
      forall k | 0 <= k < |s| ensures IsWhiteSpace(s[k]) {
        if k < |s| - |t| {
          assert s[k] == s[..|s| - |t|][k];
        } else {
          assert s[k] == t[0..][k - (|s| - |t|)];
        }
      }
    } else {
      var r := Trim(s);
      assert !IsWhiteSpace(r[0]);
      assert r[0] == t[0] == s[|s| - |t|];
    }
  }

  predicate IsDigit(c: char) {
    '0' <= c <= '9'
  }

  function DigitChar(d: nat): (c: char)
    requires d < 10
    ensures IsDigit(c) && c as int - '0' as int == d
  {
    (d + '0' as int) as char
  }

  /** The decimal text of `n`, as JavaScript renders a non-negative
      integral Number: digits only, no leading zero unless it is "0". */
  function NumberToString(n: nat): (r: string)
    ensures |r| >= 1 && forall k :: 0 <= k < |r| ==> IsDigit(r[k])
    ensures r[0] == '0' ==> r == "0"
  {
    if n < 10 then [DigitChar(n)] else NumberToString(n / 10) + [DigitChar(n % 10)]
  }

  /** Reads a string of decimal digits back as a number. */
  function ParseDigits(s: string): nat
    requires forall k :: 0 <= k < |s| ==> IsDigit(s[k])
  {
    if s == [] then 0
    else
      assert IsDigit(s[|s| - 1]);
      ParseDigits(s[..|s| - 1]) * 10 + (s[|s| - 1] as int - '0' as int)
  }

  /** The decimal text denotes the number it was made from. */
  lemma {:induction false} NumberToStringRoundTrip(n: nat)
    ensures ParseDigits(NumberToString(n)) == n
  {
    var r := NumberToString(n);
    if n >= 10 {
      NumberToStringRoundTrip(n / 10);
      assert r[..|r| - 1] == NumberToString(n / 10);
    }
  }

  /** Different numbers have different decimal texts. */
  lemma NumberToStringInjective(m: nat, n: nat)
    requires NumberToString(m) == NumberToString(n)
    ensures m == n
  {
    NumberToStringRoundTrip(m);
    NumberToStringRoundTrip(n);
  }
}
