/** The fragment of JavaScript regular expressions the shortener's two
    patterns use, with its meaning as a set of strings. Both patterns are
    anchored by `^` and `$` and carry no `m` flag, so `pattern.test(s)` holds
    exactly when the whole of `s` is in the pattern's language: that is
    `Matches`. Backtracking explores every choice, and none of these
    constructs (no back-references, no look-around) can tell two ways of
    matching apart, so the language is all that matters. */
module Regex {
  import JsText

  /** The atoms that match exactly one character. */
  datatype CharClass =
    | Single(c: char)                          // a literal character
    | Range(lo: char, hi: char)                // `a-z` inside brackets
    | Space                                    // `\s`
    | LineTerminator                           // what `.` refuses (no `s` flag)
    | Union(left: CharClass, right: CharClass) // juxtaposition inside brackets
    | Complement(inner: CharClass)             // `[^...]`, and `.` as `[^LineTerminator]`

  predicate Has(cc: CharClass, c: char) {
    match cc
    case Single(d) => c == d
    case Range(lo, hi) => lo <= c <= hi
    case Space => JsText.IsWhiteSpace(c)
    case LineTerminator => JsText.IsLineTerminator(c)
    case Union(l, r) => Has(l, c) || Has(r, c)
    case Complement(i) => !Has(i, c)
  }

  /** A letter under the `i` flag: the letter or its ASCII other case. Without
      the `u` flag, JavaScript never folds a non-ASCII character onto an ASCII
      one, so for an ASCII letter these two are all it matches. */
  function IgnoreCase(c: char): (cc: CharClass)
    requires 'a' <= c <= 'z'
    ensures forall d :: Has(cc, d) <==> d == c || d as int == c as int - 32
  {
    Union(Single(c), Single((c as int - 32) as char))
  }

  datatype Regex =
    | Class(cc: CharClass)                     // one character from the class
    | Cat(first: Regex, rest: Regex)           // `first` then `rest` (groups are Cat too)
    | Opt(body: Regex)                         // `body?`
    | Star(body: Regex)                        // `body*`
    | Bounded(body: Regex, lo: nat, hi: nat)   // `body{lo,hi}`

  /** The whole of `s` is in the language of `r`. */
  predicate Matches(r: Regex, s: string)
    decreases r, 1, |s|
  {
    match r
    case Class(cc) => |s| == 1 && Has(cc, s[0])
    case Cat(a, b) => exists i :: 0 <= i <= |s| && Matches(a, s[..i]) && Matches(b, s[i..])
    case Opt(a) => s == [] || Matches(a, s)
    case Star(a) => s == [] || exists i :: 1 <= i <= |s| && Matches(a, s[..i]) && Matches(r, s[i..])
    case Bounded(a, lo, hi) => exists k: nat :: lo <= k <= hi && Repeats(a, k, s)
  }

  /** `s` splits into exactly `k` consecutive pieces, each in the language of `r`. */
  predicate Repeats(r: Regex, k: nat, s: string)
    decreases r, 2, k
  {
    if k == 0 then s == []
    else exists i :: 0 <= i <= |s| && Matches(r, s[..i]) && Repeats(r, k - 1, s[i..])
  }

  /** A run of single-character atoms followed by `tail`, as in `abc` followed by more. */
  function Chain(ccs: seq<CharClass>, tail: Regex): Regex {
    if ccs == [] then tail else Cat(Class(ccs[0]), Chain(ccs[1..], tail))
  }

  lemma CatClass(cc: CharClass, r: Regex, s: string)
    ensures Matches(Cat(Class(cc), r), s) <==> |s| >= 1 && Has(cc, s[0]) && Matches(r, s[1..])
  {
    if |s| >= 1 && Has(cc, s[0]) && Matches(r, s[1..]) {
      assert Matches(Class(cc), s[..1]);
    }
    if Matches(Cat(Class(cc), r), s) {
      var i :| 0 <= i <= |s| && Matches(Class(cc), s[..i]) && Matches(r, s[i..]);
      assert i == 1;
    }
  }

  /** A chain of atoms matches character by character, and `tail` takes the rest. */
  lemma {:induction false} ChainMatches(ccs: seq<CharClass>, tail: Regex, s: string)
    ensures Matches(Chain(ccs, tail), s) <==>
      && |s| >= |ccs|
      && (forall k :: 0 <= k < |ccs| ==> Has(ccs[k], s[k]))
      && Matches(tail, s[|ccs|..])
  {
    if ccs != [] {
      CatClass(ccs[0], Chain(ccs[1..], tail), s);
      if |s| >= |ccs| {
        ChainMatches(ccs[1..], tail, s[1..]);
        assert s[1..][|ccs| - 1..] == s[|ccs|..];
        if Has(ccs[0], s[0]) && forall k :: 0 <= k < |ccs| - 1 ==> Has(ccs[1..][k], s[1..][k]) {
          forall k | 0 <= k < |ccs| ensures Has(ccs[k], s[k]) {
            if k > 0 {
              assert ccs[1..][k - 1] == ccs[k] && s[1..][k - 1] == s[k];
            }
          }
        }
      } else if |s| >= 1 {
        ChainMatches(ccs[1..], tail, s[1..]);
      }
    }
  }

  /** An optional atom followed by `r`. */
  lemma CatOptClass(cc: CharClass, r: Regex, s: string)
    ensures Matches(Cat(Opt(Class(cc)), r), s) <==>
      Matches(r, s) || (|s| >= 1 && Has(cc, s[0]) && Matches(r, s[1..]))
  {
    if Matches(r, s) {
      assert Matches(Opt(Class(cc)), s[..0]) && s[0..] == s;
    }
    if |s| >= 1 && Has(cc, s[0]) && Matches(r, s[1..]) {
      assert Matches(Opt(Class(cc)), s[..1]);
    }
    if Matches(Cat(Opt(Class(cc)), r), s) {
      var i :| 0 <= i <= |s| && Matches(Opt(Class(cc)), s[..i]) && Matches(r, s[i..]);
      if i != 0 {
        assert Matches(Class(cc), s[..i]);
        assert i == 1 && s[..i][0] == s[0];
      } else {
        assert s[i..] == s;
      }
    }
  }

  /** A starred atom matches exactly the strings made of that class. */
  lemma {:induction false} StarClass(cc: CharClass, s: string)
    ensures Matches(Star(Class(cc)), s) <==> forall k :: 0 <= k < |s| ==> Has(cc, s[k])
    decreases |s|
  {
    if s != [] {
      StarClass(cc, s[1..]);
      if forall k :: 0 <= k < |s| ==> Has(cc, s[k]) {
        assert Matches(Class(cc), s[..1]);
        assert forall k :: 0 <= k < |s| - 1 ==> s[1..][k] == s[k + 1];
      }
      if Matches(Star(Class(cc)), s) {
        var i :| 1 <= i <= |s| && Matches(Class(cc), s[..i]) && Matches(Star(Class(cc)), s[i..]);
        assert i == 1;
        forall k | 0 <= k < |s| ensures Has(cc, s[k]) {
          if k > 0 { assert s[k] == s[1..][k - 1]; }
        }
      }
    }
  }

  /** `k` repetitions of an atom match exactly the strings of length `k` made of that class. */
  lemma {:induction false} RepeatsClass(cc: CharClass, k: nat, s: string)
    ensures Repeats(Class(cc), k, s) <==> |s| == k && forall j :: 0 <= j < |s| ==> Has(cc, s[j])
  {
    if k > 0 {
      if |s| >= 1 {
        RepeatsClass(cc, k - 1, s[1..]);
      }
      if |s| == k && forall j :: 0 <= j < |s| ==> Has(cc, s[j]) {
        assert Matches(Class(cc), s[..1]);
        assert forall j :: 0 <= j < |s| - 1 ==> s[1..][j] == s[j + 1];
      }
      if Repeats(Class(cc), k, s) {
        var i :| 0 <= i <= |s| && Matches(Class(cc), s[..i]) && Repeats(Class(cc), k - 1, s[i..]);
        assert i == 1;
        forall j | 0 <= j < |s| ensures Has(cc, s[j]) {
          if j > 0 { assert s[j] == s[1..][j - 1]; }
        }
      }
    }
  }

  /** `cc{lo,hi}` matches the strings of length `lo` to `hi` made of that class. */
  lemma BoundedClass(cc: CharClass, lo: nat, hi: nat, s: string)
    ensures Matches(Bounded(Class(cc), lo, hi), s) <==>
      lo <= |s| <= hi && forall j :: 0 <= j < |s| ==> Has(cc, s[j])
  {
    RepeatsClass(cc, |s|, s);
    var r := Bounded(Class(cc), lo, hi);
    assert Matches(r, s) == exists k: nat :: r.lo <= k <= r.hi && Repeats(r.body, k, s);
    if Matches(r, s) {
      var k: nat :| r.lo <= k <= r.hi && Repeats(r.body, k, s);
      RepeatsClass(cc, k, s);
    }
  }
}
