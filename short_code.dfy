/** `isValidShortCode` of App.js: the test of `^[a-zA-Z0-9]{3,10}$`. */
module ShortCode {
  import opened Regex

  /** `[a-zA-Z0-9]`. */
  function Alphanumeric(): CharClass {
    Union(Range('a', 'z'), Union(Range('A', 'Z'), Range('0', '9')))
  }

  function ShortCodePattern(): Regex {
    Bounded(Class(Alphanumeric()), 3, 10)
  }

  predicate IsValidShortCode(code: string) {
    Matches(ShortCodePattern(), code)
  }

  predicate IsAsciiAlphanumeric(c: char) {
    'a' <= c <= 'z' || 'A' <= c <= 'Z' || '0' <= c <= '9'
  }

  /** A short code is 3 to 10 characters, each an ASCII letter or digit. */
  lemma IsValidShortCodeMeaning(code: string)
    ensures IsValidShortCode(code) <==>
      3 <= |code| <= 10 && forall k :: 0 <= k < |code| ==> IsAsciiAlphanumeric(code[k])
  {
    BoundedClass(Alphanumeric(), 3, 10, code);
    forall k | 0 <= k < |code| ensures Has(Alphanumeric(), code[k]) <==> IsAsciiAlphanumeric(code[k]) {
      assert Has(Union(Range('A', 'Z'), Range('0', '9')), code[k]) <==> 'A' <= code[k] <= 'Z' || '0' <= code[k] <= '9';
    }
  }

  lemma ShortCodeExamples()
    ensures IsValidShortCode("promo1")
    ensures IsValidShortCode("abc")
    ensures !IsValidShortCode("ab")
    ensures !IsValidShortCode("abc!23")
    ensures !IsValidShortCode("abcdefghijk")
  {
    IsValidShortCodeMeaning("promo1");
    IsValidShortCodeMeaning("abc");
    IsValidShortCodeMeaning("ab");
    IsValidShortCodeMeaning("abc!23");
    assert "abc!23"[3] == '!';
    IsValidShortCodeMeaning("abcdefghijk");
  }
}
