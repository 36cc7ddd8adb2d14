/**
 * MatchPattern (src/Weew/UrlMatcher/MatchPattern.php): an immutable
 * descriptor of one placeholder override. It keeps the placeholder's name and
 * the caller's sub-pattern, and derives two strings from them once: the
 * delimited regular expression that locates `{name}` (or `{name?}`) in a
 * template, and the capturing group that replaces it.
 */
module MatchPatterns {
  import opened Scanning

  // ---------------------------------------------------------------------------
  // preg_quote and the literal a quoted regular expression matches

  /** The characters `preg_quote` puts a backslash in front of (PHP 7.3 and later, no delimiter). */
  predicate IsRegexSpecial(c: char) {
    c in ".\\+*?[^]$(){}=!<>|:-#"
  }

  const Nul: char := 0 as char

  /** `preg_quote` on one character: NUL becomes the octal escape `\000`. */
  function QuoteChar(c: char): string {
    if c == Nul then "\\000"
    else if IsRegexSpecial(c) then ['\\', c]
    else [c]
  }

  /** `preg_quote($s)` without a delimiter argument: each character grows to at most four. */
  function Quote(s: string): (r: string)
    ensures |s| <= |r| <= 4 * |s|
  {
    if s == [] then [] else QuoteChar(s[0]) + Quote(s[1..])
  }

  /**
   * The string a regular expression body matches when it consists only of
   * literal characters and backslash escapes of single characters (`\{`,
   * `\?`, `\000`): the escapes are dropped and every other character stands
   * for itself. This is how PCRE reads the output of `preg_quote`.
   */
  function Unescape(r: string): string
    decreases |r|
  {
    if r == [] then []
    else if r[0] == '\\' && |r| >= 4 && r[1] == '0' && r[2] == '0' && r[3] == '0' then [Nul] + Unescape(r[4..])
    else if r[0] == '\\' && |r| >= 2 then [r[1]] + Unescape(r[2..])
    else [r[0]] + Unescape(r[1..])
  }

  /** The literal a `#`-delimited regular expression made of literal characters and escapes matches. */
  function LiteralOf(regex: string): string {
    if |regex| >= 2 && regex[0] == '#' && regex[|regex| - 1] == '#'
    then Unescape(regex[1..|regex| - 1])
    else Unescape(regex)
  }

  /** An escaped character other than `0` reads as itself. */
  lemma UnescapeEscaped(x: char, tail: string)
    requires x != '0'
    ensures Unescape(['\\', x] + tail) == [x] + Unescape(tail)
  {
    var r := ['\\', x] + tail;
    assert r[1] == x;
    assert r[2..] == tail;
  }

  lemma UnescapeQuoteChar(c: char, tail: string)
    ensures Unescape(QuoteChar(c) + tail) == [c] + Unescape(tail)
  {
    if c == Nul {
      var r := "\\000" + tail;
      assert r[1] == '0' && r[2] == '0' && r[3] == '0' && r[4..] == tail;
    } else if IsRegexSpecial(c) {
      assert c != '0';
      UnescapeEscaped(c, tail);
    } else {
      assert c != '\\';
      assert ([c] + tail)[1..] == tail;
    }
  }

  lemma QuoteUnfold(s: string, rest: string)
    requires s != []
    ensures Quote(s) + rest == QuoteChar(s[0]) + (Quote(s[1..]) + rest)
  {
    AppendAssoc(QuoteChar(s[0]), Quote(s[1..]), rest);
  }

  /** Reading quoted text back gives the text itself, whatever follows it. */
  lemma {:induction false} UnescapeQuote(s: string, rest: string)
    ensures Unescape(Quote(s) + rest) == s + Unescape(rest)
    decreases |s|
  {
    if s == [] {
      assert Quote(s) + rest == rest;
    } else {
      var tail := Quote(s[1..]) + rest;
      QuoteUnfold(s, rest);
      UnescapeQuoteChar(s[0], tail);
      UnescapeQuote(s[1..], rest);
      AppendAssoc([s[0]], s[1..], Unescape(rest));
      assert [s[0]] + s[1..] == s;
    }
  }

  // ---------------------------------------------------------------------------
  // The descriptor

  /**
   * A placeholder override. `optional` is the constructor's third argument,
   * false when omitted; the two derived strings are fixed by the three fields
   * and a datatype value never changes, so nothing can alter them after
   * construction.
   */
  datatype MatchPattern = MatchPattern(name: string, pattern: string, optional: bool := false) {

    /** `getRegexName()`: the regular expression that finds `{name}` or `{name?}`. */
    function RegexName(): string {
      CreateRegexName(name, optional)
    }

    /** `getRegexPattern()`: the fragment that replaces the placeholder. */
    function RegexPattern(): string {
      CreateRegexPattern(pattern, optional)
    }

    /** The placeholder token this descriptor stands for in a template. */
    function Token(): string {
      "{" + name + (if optional then "?}" else "}")
    }
  }

  /** `createRegexName`: the quoted name between escaped braces, `\?` before the closing one when optional. */
  function CreateRegexName(name: string, optional: bool): (r: string)
    ensures |r| == |Quote(name)| + (if optional then 8 else 6)
    ensures r[0] == '#' && r[|r| - 1] == '#' && r[1..3] == "\\{" && r[|r| - 3..] == "\\}#"
    ensures optional ==> r[|r| - 5..] == "\\?\\}#"
  {
    if optional then "#\\{" + Quote(name) + "\\?\\}#" else "#\\{" + Quote(name) + "\\}#"
  }

  /** `createRegexPattern`: the sub-pattern as a capturing group, made optional with `?`. */
  function CreateRegexPattern(pattern: string, optional: bool): (f: string)
    ensures |f| == |pattern| + (if optional then 3 else 2)
    ensures f[0] == '(' && f[1..1 + |pattern|] == pattern && f[1 + |pattern|] == ')'
    ensures optional <==> f[|f| - 1] == '?'
  {
    if optional then "(" + pattern + ")?" else "(" + pattern + ")"
  }

  // ---------------------------------------------------------------------------
  // What the derived strings mean

  /** Stripping the `#` delimiters leaves the body. */
  lemma StripDelimiters(body: string)
    ensures LiteralOf("#" + body + "#") == Unescape(body)
  {
    var r := "#" + body + "#";
    assert r[1..|r| - 1] == body;
  }

  /** A locator is the delimited escaped brace, the quoted name and the escaped closer. */
  lemma RegexNameParts(name: string, optional: bool)
    ensures CreateRegexName(name, optional)
         == "#" + (['\\', '{'] + (Quote(name) + (if optional then "\\?\\}" else "\\}"))) + "#"
  {
    var q := Quote(name);
    var closer := if optional then "\\?\\}" else "\\}";
    assert "#\\{" + q == "#" + ['\\', '{'] + q;
    assert (if optional then "\\?\\}#" else "\\}#") == closer + "#";
    AppendAssoc("#" + ['\\', '{'] + q, closer, "#");
    AppendAssoc("#" + ['\\', '{'], q, closer);
    AppendAssoc("#", ['\\', '{'], q + closer);
  }

  lemma UnescapeClosers()
    ensures Unescape("\\?\\}") == "?}"
    ensures Unescape("\\}") == "}"
  {
    UnescapeEscaped('}', "");
    assert "\\}" == ['\\', '}'] + "";
    UnescapeEscaped('?', "\\}");
    assert "\\?\\}" == ['\\', '?'] + "\\}";
  }

  /** The locator regular expression matches exactly the placeholder's token. */
  lemma RegexNameLocatesToken(p: MatchPattern)
    ensures LiteralOf(p.RegexName()) == p.Token()
  {
    var closer := if p.optional then "\\?\\}" else "\\}";
    RegexNameParts(p.name, p.optional);
    StripDelimiters(['\\', '{'] + (Quote(p.name) + closer));
    UnescapeEscaped('{', Quote(p.name) + closer);
    UnescapeQuote(p.name, closer);
    UnescapeClosers();
    AppendAssoc("{", p.name, if p.optional then "?}" else "}");
  }

  lemma {:induction false} QuoteConcat(a: string, b: string)
    ensures Quote(a + b) == Quote(a) + Quote(b)
    decreases |a|
  {
    if a != [] {
      assert (a + b)[0] == a[0] && (a + b)[1..] == a[1..] + b;
      QuoteConcat(a[1..], b);
      AppendAssoc(QuoteChar(a[0]), Quote(a[1..]), Quote(b));
    } else {
      assert a + b == b;
    }
  }

  /** The text between the braces of a descriptor's token: its name, with `?` when optional. */
  function TokenInner(p: MatchPattern): string {
    if p.optional then p.name + "?" else p.name
  }

  lemma QuoteQuestionMark()
    ensures Quote("?") == "\\?"
  {
    assert Quote("?") == QuoteChar('?') + Quote([]);
  }

  /** An optional locator is the required locator of the name with `?` appended. */
  lemma OptionalLocatorViaRequired(name: string)
    ensures CreateRegexName(name, true) == CreateRegexName(name + "?", false)
  {
    var q := Quote(name);
    QuoteConcat(name, "?");
    QuoteQuestionMark();
    RegexNameParts(name, true);
    RegexNameParts(name + "?", false);
    assert "\\?\\}" == "\\?" + "\\}";
    AppendAssoc(q, "\\?", "\\}");
  }

  lemma RegexNameViaInner(p: MatchPattern)
    ensures p.RegexName() == CreateRegexName(TokenInner(p), false)
    ensures p.Token() == "{" + TokenInner(p) + "}"
  {
    if p.optional {
      OptionalLocatorViaRequired(p.name);
      AppendAssoc("{", p.name, "?}");
      AppendAssoc("{" + p.name, "?", "}");
      assert "?}" == "?" + "}";
    }
  }

  /**
   * Two locators are equal exactly when they locate the same token. A required
   * descriptor named `x?` therefore has the same locator as the optional
   * descriptor named `x`.
   */
  lemma RegexNameDeterminedByToken(a: MatchPattern, b: MatchPattern)
    ensures a.RegexName() == b.RegexName() <==> a.Token() == b.Token()
  {
    RegexNameLocatesToken(a);
    RegexNameLocatesToken(b);
    if a.Token() == b.Token() {
      RegexNameViaInner(a);
      RegexNameViaInner(b);
      var ta := a.Token();
      assert TokenInner(a) == ta[1..|ta| - 1];
      assert TokenInner(b) == ta[1..|ta| - 1];
    }
  }

  /** The optional and the required descriptor for the same name and sub-pattern differ only in the derived strings. */
  lemma OptionalAndRequiredDiffer(name: string, pattern: string)
    ensures var o, r := MatchPattern(name, pattern, true), MatchPattern(name, pattern, false);
      && o.name == r.name && o.pattern == r.pattern
      && o.RegexName() != r.RegexName() && o.RegexPattern() != r.RegexPattern()
  {
    var o, r := MatchPattern(name, pattern, true), MatchPattern(name, pattern, false);
    assert |o.RegexName()| == |r.RegexName()| + 2;
    assert |o.RegexPattern()| == |r.RegexPattern()| + 1;
  }

  /** A descriptor built from a name and a sub-pattern alone is required and returns both unchanged. */
  lemma GettersReturnArguments(name: string, pattern: string)
    ensures var p := MatchPattern(name, pattern);
      && p.name == name && p.pattern == pattern && !p.optional
      && p.Token() == "{" + name + "}" && p.RegexPattern() == "(" + pattern + ")"
  {
  }
}
