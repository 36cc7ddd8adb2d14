/**
 * One leftmost, non-overlapping scan over a string, shared by every textual
 * substitution of the URL matcher: `str_replace` with a literal search string,
 * `preg_replace` with a locator regex that only matches a literal, and the
 * three fixed placeholder regexes of UrlMatcher.php.
 *
 * A scan looks for a match starting at the first character; on a match it
 * consumes the matched text and continues after it, otherwise it keeps the
 * character and moves one to the right. This is how PCRE's global search and
 * PHP's `str_replace` both walk their subject.
 */
module Scanning {

  /** What a scan looks for. */
  datatype Matcher =
    | Literal(text: string)        // a literal search string
    | Placeholder(optional: bool)  // #\{([a-zA-Z0-9_-]+)\?}#  or  #\{([a-zA-Z0-9_-]+)}#
    | NameToken                    // #\{([a-zA-Z0-9?]+)}#

  predicate IsAlnum(c: char) {
    'a' <= c <= 'z' || 'A' <= c <= 'Z' || '0' <= c <= '9'
  }

  /** The character class of placeholder names, `[a-zA-Z0-9_-]`. */
  predicate IsIdChar(c: char) {
    IsAlnum(c) || c == '_' || c == '-'
  }

  /** The character class used when listing parameter names, `[a-zA-Z0-9?]`. */
  predicate IsNameChar(c: char) {
    IsAlnum(c) || c == '?'
  }

  /** The character class repeated inside the braces of a brace matcher. */
  predicate InClass(c: char, m: Matcher)
    requires !m.Literal?
  {
    if m.NameToken? then IsNameChar(c) else IsIdChar(c)
  }

  /** Every character that can stand after the opening brace of a brace matcher's match. */
  predicate IsTokenTail(c: char) {
    IsIdChar(c) || IsNameChar(c) || c == '}'
  }

  /** What a brace matcher expects after the run of class characters. */
  function Closer(m: Matcher): string {
    if m == Placeholder(true) then "?}" else "}"
  }

  predicate StartsWith(s: string, w: string) {
    |w| <= |s| && s[..|w|] == w
  }

  /** The number of leading characters of `s` in the class of `m` (a greedy run). */
  function RunLength(s: string, m: Matcher): (n: nat)
    requires !m.Literal?
    ensures n <= |s|
    ensures forall j :: 0 <= j < n ==> InClass(s[j], m)
    ensures n < |s| ==> !InClass(s[n], m)
  {
    if s != [] && InClass(s[0], m) then 1 + RunLength(s[1..], m) else 0
  }

  /**
   * The length of the match of `m` that starts at `s[0]`, or 0 when none does.
   * The class of a brace matcher does not contain its closing characters, so a
   * greedy run cannot be shortened by backtracking into a match: a match exists
   * exactly when the maximal run is non-empty and the closer follows it.
   */
  function MatchLength(s: string, m: Matcher): (n: nat)
    ensures n <= |s|
  {
    match m
    case Literal(w) => if |w| > 0 && StartsWith(s, w) then |w| else 0
    case _ =>
      if s == [] || s[0] != '{' then 0
      else
        var k := RunLength(s[1..], m);
        if k > 0 && StartsWith(s[1 + k..], Closer(m)) then 1 + k + |Closer(m)| else 0
  }

  /** Does a match of `m` start anywhere in `s`? */
  predicate Occurs(s: string, m: Matcher)
    decreases |s|
  {
    MatchLength(s, m) > 0 || (s != [] && Occurs(s[1..], m))
  }

  /** Every match of `m` in `s`, left to right and non-overlapping, replaced by `repl`. */
  function Substitute(s: string, m: Matcher, repl: string): string
    decreases |s|
  {
    if s == [] then []
    else
      var n := MatchLength(s, m);
      if n > 0 then repl + Substitute(s[n..], m, repl)
      else [s[0]] + Substitute(s[1..], m, repl)
  }

  // ---------------------------------------------------------------------------
  // The shape of a match

  /** A match of a brace matcher is `{`, a non-empty run of its class, then its closer. */
  lemma BraceMatchShape(s: string, m: Matcher)
    requires !m.Literal? && MatchLength(s, m) > 0
    ensures var n := MatchLength(s, m);
      && n >= 2 + |Closer(m)| && s[0] == '{' && s[n - 1] == '}'
      && s[n - |Closer(m)|..n] == Closer(m)
      && n - |Closer(m)| - 1 == RunLength(s[1..], m)
      && (forall j :: 1 <= j < n - |Closer(m)| ==> InClass(s[j], m))
  {
    var n := MatchLength(s, m);
    var k := RunLength(s[1..], m);
    assert s[1 + k..][..|Closer(m)|] == s[n - |Closer(m)|..n];
  }

  /** Every character of a brace match after its opening brace is a token tail character. */
  lemma BraceMatchTail(s: string, m: Matcher, j: nat)
    requires !m.Literal? && 1 <= j < MatchLength(s, m)
    ensures IsTokenTail(s[j])
  {
    BraceMatchShape(s, m);
    var n := MatchLength(s, m);
    if j >= n - |Closer(m)| {
      assert s[j] == Closer(m)[j - (n - |Closer(m)|)];
    }
  }

  lemma {:induction false} RunLengthAgrees(a: string, b: string, m: Matcher, n: nat)
    requires !m.Literal?
    requires RunLength(a, m) < n <= |a| && n <= |b| && a[..n] == b[..n]
    ensures RunLength(b, m) == RunLength(a, m)
  {
    assert a[0] == b[0];
    if InClass(a[0], m) {
      assert a[1..][..n - 1] == b[1..][..n - 1];
      RunLengthAgrees(a[1..], b[1..], m, n - 1);
    }
  }

  /** Two strings with a common prefix agree on every slice inside it. */
  lemma SliceOfCommonPrefix(t: string, u: string, n: nat, i: nat, j: nat)
    requires n <= |t| && n <= |u| && t[..n] == u[..n] && i <= j <= n
    ensures t[i..j] == u[i..j]
  {
    forall x | 0 <= x < j - i ensures t[i..j][x] == u[i..j][x] {
      assert t[i + x] == t[..n][i + x];
      assert u[i + x] == u[..n][i + x];
    }
  }

  lemma BraceMatchDeterminedByPrefix(t: string, u: string, m: Matcher)
    requires !m.Literal? && MatchLength(t, m) > 0
    requires MatchLength(t, m) <= |u| && u[..MatchLength(t, m)] == t[..MatchLength(t, m)]
    ensures MatchLength(u, m) == MatchLength(t, m)
  {
    var n := MatchLength(t, m);
    var c := Closer(m);
    BraceMatchParts(t, m);
    var k := RunLength(t[1..], m);
    SliceOfCommonPrefix(t, u, n, 0, 1);
    assert u[0] == u[0..1][0];
    SliceOfCommonPrefix(t, u, n, 1, k + 2);
    assert t[1..][..k + 1] == t[1..k + 2] && u[1..][..k + 1] == u[1..k + 2];
    RunLengthAgrees(t[1..], u[1..], m, k + 1);
    SliceOfCommonPrefix(t, u, n, 1 + k, n);
    BraceMatchFromParts(u, m, k);
  }

  /** A brace match is `{`, a non-empty run of class characters and the closer. */
  lemma BraceMatchParts(t: string, m: Matcher)
    requires !m.Literal? && MatchLength(t, m) > 0
    ensures var k := RunLength(t[1..], m);
      && t[0] == '{' && k > 0 && MatchLength(t, m) == 1 + k + |Closer(m)|
      && t[1 + k..MatchLength(t, m)] == Closer(m)
  {
    var k := RunLength(t[1..], m);
    assert t[1 + k..][..|Closer(m)|] == t[1 + k..1 + k + |Closer(m)|];
  }

  /** A `{`, a run of `k > 0` class characters and the closer make a match of length `1 + k + |Closer(m)|`. */
  lemma BraceMatchFromParts(u: string, m: Matcher, k: nat)
    requires !m.Literal? && u != [] && u[0] == '{' && k > 0 && RunLength(u[1..], m) == k
    requires 1 + k + |Closer(m)| <= |u| && u[1 + k..1 + k + |Closer(m)|] == Closer(m)
    ensures MatchLength(u, m) == 1 + k + |Closer(m)|
  {
    assert u[1 + k..][..|Closer(m)|] == u[1 + k..1 + k + |Closer(m)|];
  }

  /** Whether a match of length `n` starts at `t[0]` depends only on `t[..n]`. */
  lemma MatchDeterminedByPrefix(t: string, u: string, m: Matcher)
    requires MatchLength(t, m) > 0
    requires MatchLength(t, m) <= |u| && u[..MatchLength(t, m)] == t[..MatchLength(t, m)]
    ensures MatchLength(u, m) == MatchLength(t, m)
  {
    if !m.Literal? {
      BraceMatchDeterminedByPrefix(t, u, m);
    } else {
      assert u[..|m.text|] == t[..|m.text|];
    }
  }

  // ---------------------------------------------------------------------------
  // When a substitution cannot create a match

  /**
   * A replacement text that cannot take part in a match of `h`: no match of
   * `h` starts inside it, and its first character never occurs after the
   * first character of a match of `h`.
   */
  predicate Compatible(h: Matcher, repl: string) {
    && |repl| > 0
    && match h
       case Literal(w) => |w| > 0 ==> w[0] !in repl && repl[0] !in w[1..]
       case _ => '{' !in repl && !IsTokenTail(repl[0])
  }

  lemma MatchAvoids(t: string, h: Matcher, repl: string)
    requires Compatible(h, repl) && MatchLength(t, h) > 0
    ensures t[0] !in repl
    ensures forall j :: 1 <= j < MatchLength(t, h) ==> t[j] != repl[0]
  {
    if h.Literal? {
      var w := h.text;
      assert t[..|w|] == w;
      forall j | 1 <= j < |w| ensures t[j] != repl[0] {
        assert t[j] == w[1..][j - 1];
      }
    } else {
      BraceMatchShape(t, h);
      forall j | 1 <= j < MatchLength(t, h) ensures t[j] != repl[0] {
        BraceMatchTail(t, h, j);
      }
    }
  }

  /** Where no match starts, the scan keeps the first character. */
  lemma SubstituteKeeps(s: string, m: Matcher, repl: string)
    requires s != [] && MatchLength(s, m) == 0
    ensures Substitute(s, m, repl) == [s[0]] + Substitute(s[1..], m, repl)
  {
  }

  lemma ConsPrefix(c: char, x: string, k: nat)
    requires 1 <= k <= |x| + 1
    ensures ([c] + x)[..k] == [c] + x[..k - 1]
  {
  }

  /** A scan whose output does not start with the replacement's first character kept the input's first character. */
  lemma PrefixKeptStep(u: string, m: Matcher, repl: string, k: nat)
    requires |repl| > 0 && 0 < k <= |Substitute(u, m, repl)|
    requires forall j :: 0 <= j < k ==> Substitute(u, m, repl)[j] != repl[0]
    ensures u != [] && Substitute(u, m, repl) == [u[0]] + Substitute(u[1..], m, repl)
    ensures forall j :: 0 <= j < k - 1 ==> Substitute(u[1..], m, repl)[j] != repl[0]
  {
    var r := Substitute(u, m, repl);
    assert u != [] && r[0] != repl[0];
    assert MatchLength(u, m) == 0;
    SubstituteKeeps(u, m, repl);
    var r' := Substitute(u[1..], m, repl);
    forall j | 0 <= j < k - 1 ensures r'[j] != repl[0] {
      assert r'[j] == r[j + 1];
    }
  }

  /** Up to the first character of the replacement text, a substitution copies its input. */
  lemma {:induction false} PrefixKept(u: string, m: Matcher, repl: string, k: nat)
    requires |repl| > 0 && k <= |Substitute(u, m, repl)|
    requires forall j :: 0 <= j < k ==> Substitute(u, m, repl)[j] != repl[0]
    ensures k <= |u| && Substitute(u, m, repl)[..k] == u[..k]
    decreases |u|
  {
    if k > 0 {
      PrefixKeptStep(u, m, repl, k);
      var r' := Substitute(u[1..], m, repl);
      PrefixKept(u[1..], m, repl, k - 1);
      assert [u[0]] + u[1..] == u;
      calc {
        Substitute(u, m, repl)[..k];
        { ConsPrefix(u[0], r', k); }
        [u[0]] + r'[..k - 1];
        [u[0]] + u[1..][..k - 1];
        { ConsPrefix(u[0], u[1..], k); }
        u[..k];
      }
    }
  }

  /** Every match of `h` starts with the same character. */
  function StartChar(h: Matcher): char
    requires h.Literal? ==> |h.text| > 0
  {
    if h.Literal? then h.text[0] else '{'
  }

  lemma MatchStartsWithStartChar(t: string, h: Matcher)
    requires h.Literal? ==> |h.text| > 0
    requires MatchLength(t, h) > 0
    ensures t[0] == StartChar(h)
  {
    if h.Literal? {
      assert t[..|h.text|] == h.text;
    }
  }

  lemma NoOccurrenceInSuffix(s: string, h: Matcher, n: nat)
    requires n <= |s| && !Occurs(s, h)
    ensures !Occurs(s[n..], h)
    decreases n
  {
    if n > 0 {
      NoOccurrenceInSuffix(s[1..], h, n - 1);
      assert s[1..][n - 1..] == s[n..];
    }
  }

  /** An empty literal never matches. */
  lemma {:induction false} NeverOccursEmpty(s: string, h: Matcher)
    requires h == Literal([])
    ensures !Occurs(s, h)
    decreases |s|
  {
    if s != [] { NeverOccursEmpty(s[1..], h); }
  }

  /** A text free of `h`'s start character, put in front, creates no match of `h`. */
  lemma {:induction false} NoMatchInPrefix(repl: string, x: string, h: Matcher)
    requires h.Literal? ==> |h.text| > 0
    requires StartChar(h) !in repl && !Occurs(x, h)
    ensures !Occurs(repl + x, h)
    decreases |repl|
  {
    if repl != [] {
      assert (repl + x)[1..] == repl[1..] + x;
      NoMatchInPrefix(repl[1..], x, h);
      if MatchLength(repl + x, h) > 0 {
        MatchStartsWithStartChar(repl + x, h);
        assert false;
      }
    } else {
      assert repl + x == x;
    }
  }

  /** A run of class characters followed by a character outside the class is exactly as long as the run. */
  lemma {:induction false} RunLengthOfRun(k: string, t: string, m: Matcher)
    requires !m.Literal?
    requires forall i :: 0 <= i < |k| ==> InClass(k[i], m)
    requires t != [] && !InClass(t[0], m)
    ensures RunLength(k + t, m) == |k|
    decreases |k|
  {
    if k != [] {
      assert (k + t)[0] == k[0] && (k + t)[1..] == k[1..] + t;
      RunLengthOfRun(k[1..], t, m);
    } else {
      assert k + t == t;
    }
  }

  lemma AppendAssoc(a: string, b: string, c: string)
    ensures (a + b) + c == a + (b + c)
  {
  }

  /** Where the parts of a token `{id}` followed by `post` stand. */
  lemma TokenSlices(id: string, closer: string, post: string)
    ensures var t := "{" + id + closer + post;
      && |t| == 1 + |id| + |closer| + |post| && t[0] == '{'
      && t[1..] == id + (closer + post)
      && t[1..1 + |id|] == id
      && t[1 + |id|..] == closer + post
      && t[1 + |id| + |closer|..] == post
  {
    var t := "{" + id + closer + post;
    assert t == ['{'] + (id + (closer + post));
  }

  /** A brace matcher matches a whole token made of a non-empty run of its class and its closer. */
  lemma BraceTokenMatch(id: string, post: string, m: Matcher)
    requires !m.Literal? && id != []
    requires forall i :: 0 <= i < |id| ==> InClass(id[i], m)
    ensures var t := "{" + id + Closer(m) + post;
      && MatchLength(t, m) == 1 + |id| + |Closer(m)|
      && t[1..1 + |id|] == id
      && t[1 + |id| + |Closer(m)|..] == post
  {
    var c := Closer(m);
    var t := "{" + id + c + post;
    TokenSlices(id, c, post);
    assert (c + post)[0] == c[0];
    RunLengthOfRun(id, c + post, m);
    assert (c + post)[..|c|] == c;
  }

  /** A brace scan replaces such a token by the replacement text and goes on after it. */
  lemma BraceTokenReplaced(id: string, post: string, m: Matcher, repl: string)
    requires !m.Literal? && id != []
    requires forall i :: 0 <= i < |id| ==> InClass(id[i], m)
    ensures Substitute("{" + id + Closer(m) + post, m, repl) == repl + Substitute(post, m, repl)
  {
    BraceTokenMatch(id, post, m);
  }

  /** A text free of `m`'s start character is copied unchanged and the scan resumes after it. */
  lemma {:induction false} SubstituteSkipsPrefix(a: string, b: string, m: Matcher, repl: string)
    requires m.Literal? ==> |m.text| > 0
    requires StartChar(m) !in a
    ensures Substitute(a + b, m, repl) == a + Substitute(b, m, repl)
    decreases |a|
  {
    if a != [] {
      if MatchLength(a + b, m) > 0 {
        MatchStartsWithStartChar(a + b, m);
        assert false;
      }
      SubstituteKeeps(a + b, m, repl);
      assert (a + b)[0] == a[0] && (a + b)[1..] == a[1..] + b;
      SubstituteSkipsPrefix(a[1..], b, m, repl);
      assert [a[0]] + (a[1..] + Substitute(b, m, repl)) == ([a[0]] + a[1..]) + Substitute(b, m, repl);
      assert [a[0]] + a[1..] == a;
    } else {
      assert a + b == b;
    }
  }

  /**
   * Where the scan of `m` keeps the first character, a match of `h` at the
   * front of the result was already at the front of the input.
   */
  lemma FrontMatchWasThere(s: string, m: Matcher, repl: string, h: Matcher)
    requires Compatible(h, repl) && s != [] && MatchLength(s, m) == 0
    requires MatchLength(Substitute(s, m, repl), h) > 0
    ensures MatchLength(s, h) == MatchLength(Substitute(s, m, repl), h)
  {
    var r := Substitute(s, m, repl);
    MatchAvoids(r, h, repl);
    assert r[0] != repl[0];
    PrefixKept(s, m, repl, MatchLength(r, h));
    MatchDeterminedByPrefix(r, s, h);
  }

  /**
   * Substituting the matches of `m` by a text compatible with `h` leaves no
   * match of `h` behind: none when `h` is `m` itself, and none that was not
   * already there otherwise.
   */
  lemma {:induction false} SubstituteLeavesNoMatch(s: string, m: Matcher, repl: string, h: Matcher)
    requires Compatible(h, repl)
    requires h == m || !Occurs(s, h)
    ensures !Occurs(Substitute(s, m, repl), h)
    decreases |s|
  {
    var r := Substitute(s, m, repl);
    if h.Literal? && |h.text| == 0 {
      NeverOccursEmpty(r, h);
    } else if s != [] {
      var n := MatchLength(s, m);
      if n > 0 {
        if h != m { NoOccurrenceInSuffix(s, h, n); }
        SubstituteLeavesNoMatch(s[n..], m, repl, h);
        NoMatchInPrefix(repl, Substitute(s[n..], m, repl), h);
      } else {
        if h != m { NoOccurrenceInSuffix(s, h, 1); }
        SubstituteLeavesNoMatch(s[1..], m, repl, h);
        assert r[1..] == Substitute(s[1..], m, repl);
        if MatchLength(r, h) > 0 {
          FrontMatchWasThere(s, m, repl, h);
          assert false;
        }
      }
    }
  }

  // ---------------------------------------------------------------------------
  // Substitutions that change nothing

  /** Without a match there is nothing to replace. */
  lemma {:induction false} SubstituteWithoutMatch(s: string, m: Matcher, repl: string)
    requires !Occurs(s, m)
    ensures Substitute(s, m, repl) == s
    decreases |s|
  {
    if s != [] {
      SubstituteWithoutMatch(s[1..], m, repl);
      assert s == [s[0]] + s[1..];
    }
  }

  /** Replacing a literal by itself changes nothing. */
  lemma {:induction false} SubstituteByItself(s: string, w: string)
    ensures Substitute(s, Literal(w), w) == s
    decreases |s|
  {
    if s != [] {
      var n := MatchLength(s, Literal(w));
      if n > 0 {
        SubstituteByItself(s[n..], w);
        assert s == s[..n] + s[n..];
      } else {
        SubstituteByItself(s[1..], w);
        assert s == [s[0]] + s[1..];
      }
    }
  }
}
