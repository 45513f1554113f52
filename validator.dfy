/** `validateURL` of utils/validator.js: the test of one case-insensitive,
    anchored regular expression, `^(https?:\/\/)[^\s/$.?#].[^\s]*$` (flag `i`).
    The App component does not call it; it has its own `isValidUrl`. */
module Validator {
  import JsText
  import opened Regex

  /** The characters the pattern names after `\s` in its first bracket. */
  predicate IsExcludedFirst(c: char) {
    c == '/' || c == '$' || c == '.' || c == '?' || c == '#'
  }

  /** `[^\s/$.?#]`: the first character after the two slashes. */
  function HostStart(): CharClass {
    Complement(Union(Space, Union(Single('/'), Union(Single('$'),
      Union(Single('.'), Union(Single('?'), Single('#')))))))
  }

  lemma HostStartHas(c: char)
    ensures Has(HostStart(), c) <==> !JsText.IsWhiteSpace(c) && !IsExcludedFirst(c)
  {
    var a := Union(Single('?'), Single('#'));
    assert Has(a, c) <==> c == '?' || c == '#';
    var b := Union(Single('.'), a);
    assert Has(b, c) <==> c == '.' || Has(a, c);
    var d := Union(Single('$'), b);
    assert Has(d, c) <==> c == '$' || Has(b, c);
    var e := Union(Single('/'), d);
    assert Has(e, c) <==> c == '/' || Has(d, c);
    var f := Union(Space, e);
    assert Has(f, c) <==> JsText.IsWhiteSpace(c) || Has(e, c);
    assert HostStart() == Complement(f);
  }

  /** The pattern, atom by atom. The group around the scheme only captures,
      so it is written as part of one chain. */
  function UrlPattern(): Regex {
    Chain([IgnoreCase('h'), IgnoreCase('t'), IgnoreCase('t'), IgnoreCase('p')],
      Cat(Opt(Class(IgnoreCase('s'))),
        Chain([Single(':'), Single('/'), Single('/'), HostStart(), Complement(LineTerminator)],
          Star(Class(Complement(Space))))))
  }

  /** `validateURL(url)`. */
  predicate ValidateURL(url: string) {
    Matches(UrlPattern(), url)
  }

  /** `c` is the lower-case ASCII letter `l` or its upper case. */
  predicate CaseEq(c: char, l: char)
    requires 'a' <= l <= 'z'
  {
    c == l || c as int == l as int - 32
  }

  /** What must follow the scheme name: `://`, one character that is not white
      space, `/`, `$`, `.`, `?` or `#`, one that is not a line terminator, and
      then only non-white-space characters. */
  predicate AfterScheme(w: string) {
    && |w| >= 5
    && w[0] == ':' && w[1] == '/' && w[2] == '/'
    && !JsText.IsWhiteSpace(w[3]) && !IsExcludedFirst(w[3])
    && !JsText.IsLineTerminator(w[4])
    && forall k :: 5 <= k < |w| ==> !JsText.IsWhiteSpace(w[k])
  }

  lemma AfterSchemeMatches(w: string)
    ensures AfterScheme(w) <==>
      Matches(Chain([Single(':'), Single('/'), Single('/'), HostStart(), Complement(LineTerminator)],
        Star(Class(Complement(Space)))), w)
  {
    var ccs := [Single(':'), Single('/'), Single('/'), HostStart(), Complement(LineTerminator)];
    ChainMatches(ccs, Star(Class(Complement(Space))), w);
    if |w| >= 5 {
      HostStartHas(w[3]);
      StarClass(Complement(Space), w[5..]);
      assert (forall k :: 5 <= k < |w| ==> !JsText.IsWhiteSpace(w[k])) <==>
        (forall k :: 0 <= k < |w[5..]| ==> Has(Complement(Space), w[5..][k])) by {
        forall k | 5 <= k < |w| ensures w[k] == w[5..][k - 5] { }
      }
      assert (forall k :: 0 <= k < |ccs| ==> Has(ccs[k], w[k])) <==>
        (Has(ccs[0], w[0]) && Has(ccs[1], w[1]) && Has(ccs[2], w[2]) && Has(ccs[3], w[3]) && Has(ccs[4], w[4]));
    }
  }

  /** The meaning of the pattern: a case-insensitive `http` or `https`, then
      what `AfterScheme` describes. In particular the scheme is required, at
      least two characters must follow `//`, and no white space may appear
      after the first of them except that the second may be any character
      other than a line terminator. */
  lemma ValidateURLMeaning(url: string)
    ensures ValidateURL(url) <==>
      && |url| >= 4
      && CaseEq(url[0], 'h') && CaseEq(url[1], 't') && CaseEq(url[2], 't') && CaseEq(url[3], 'p')
      && (AfterScheme(url[4..]) || (|url| >= 5 && CaseEq(url[4], 's') && AfterScheme(url[5..])))
  {
    var ccs := [IgnoreCase('h'), IgnoreCase('t'), IgnoreCase('t'), IgnoreCase('p')];
    var tail := Chain([Single(':'), Single('/'), Single('/'), HostStart(), Complement(LineTerminator)],
      Star(Class(Complement(Space))));
    ChainMatches(ccs, Cat(Opt(Class(IgnoreCase('s'))), tail), url);
    if |url| >= 4 {
      CatOptClass(IgnoreCase('s'), tail, url[4..]);
      AfterSchemeMatches(url[4..]);
      if |url| >= 5 {
        assert url[4..][1..] == url[5..];
        AfterSchemeMatches(url[5..]);
      }
    }
  }

  /** A URL of the pattern always starts with `http://` or `https://`, in any case. */
  lemma ValidateURLNeedsScheme(url: string)
    requires ValidateURL(url)
    ensures |url| >= 9
    ensures CaseEq(url[0], 'h') && CaseEq(url[1], 't') && CaseEq(url[2], 't') && CaseEq(url[3], 'p')
    ensures url[4..7] == "://" || (CaseEq(url[4], 's') && url[5..8] == "://")
  {
    ValidateURLMeaning(url);
  }

  /** Printable ASCII other than the space is never white space. */
  lemma VisibleAsciiIsNotSpace(c: char)
    requires '!' <= c <= '~'
    ensures !JsText.IsWhiteSpace(c)
  {
  }

  lemma ExampleAccepted()
    ensures ValidateURL("https://example.com")
  {
    var u := "https://example.com";
    var w := u[5..];
    assert w == "://example.com";
    forall k | 5 <= k < |w| ensures !JsText.IsWhiteSpace(w[k]) {
      VisibleAsciiIsNotSpace(w[k]);
    }
    assert AfterScheme(w);
    ValidateURLMeaning(u);
  }

  lemma ExampleUpperCaseScheme()
    ensures ValidateURL("HTTP://x.y")
  {
    ValidateURLMeaning("HTTP://x.y");
    assert "HTTP://x.y"[4..] == "://x.y";
  }

  lemma ExampleNoScheme()
    ensures !ValidateURL("not a url")
    ensures !ValidateURL("ftp://example.com")
  {
    ValidateURLMeaning("not a url");
    ValidateURLMeaning("ftp://example.com");
  }

  /** One character after `//` is not enough. */
  lemma ExampleTooShort()
    ensures !ValidateURL("http://a")
  {
    ValidateURLMeaning("http://a");
    assert "http://a"[4..] == "://a";
  }

  /** A character outside the Basic Multilingual Plane is one character
      here, so it alone after `//` is too short. */
  lemma ExampleAstralHost()
    ensures !ValidateURL("http://\U{1F600}")
  {
    ValidateURLMeaning("http://\U{1F600}");
    assert "http://\U{1F600}"[4..] == "://\U{1F600}";
  }

  lemma ExampleDotFirst()
    ensures !ValidateURL("http://.com")
  {
    ValidateURLMeaning("http://.com");
    assert "http://.com"[4..] == "://.com";
  }

  lemma ExampleInnerSpace()
    ensures !ValidateURL("https://exa mple.com")
  {
    var u := "https://exa mple.com";
    ValidateURLMeaning(u);
    assert u[4..][0] == 's';
    assert u[5..][6] == ' ';
  }
}
