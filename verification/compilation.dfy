/**
 * Template compilation of UrlMatcher (src/Weew/UrlMatcher/UrlMatcher.php):
 * the custom pass over the descriptor list, the default fallback pass, and
 * the `#` delimiters around the result.
 */
module Compilation {
  import opened Scanning
  import opened MatchPatterns

  /** The two descriptors a registration creates, the optional one first. */
  function PatternPair(name: string, pattern: string): seq<MatchPattern> {
    [MatchPattern(name, pattern, true), MatchPattern(name, pattern, false)]
  }

  /**
   * One step of the custom pass, `preg_replace([regexName], regexPattern, path)`:
   * every occurrence of the literal the locator matches is replaced by the
   * fragment. The fragment is inserted verbatim.
   */
  function ApplySpec(s: string, p: MatchPattern): (r: string)
    ensures !Occurs(s, Literal(p.Token())) ==> r == s
  {
    RegexNameLocatesToken(p);
    var r := Substitute(s, Literal(LiteralOf(p.RegexName())), p.RegexPattern());
    assert !Occurs(s, Literal(p.Token())) ==> r == s by {
      if !Occurs(s, Literal(p.Token())) {
        SubstituteWithoutMatch(s, Literal(p.Token()), p.RegexPattern());
      }
    }
    r
  }

  /** One step of the custom pass replaces exactly the descriptor's token, `{name}` or `{name?}`. */
  lemma ApplySpecReplacesToken(s: string, p: MatchPattern)
    ensures ApplySpec(s, p) == Substitute(s, Literal(p.Token()), p.RegexPattern())
  {
    RegexNameLocatesToken(p);
  }

  /** The custom pass: the descriptors applied one after the other, in list order. */
  function ApplyCustom(s: string, specs: seq<MatchPattern>): string
    decreases |specs|
  {
    if specs == [] then s else ApplyCustom(ApplySpec(s, specs[0]), specs[1..])
  }

  const OptionalFallback: string := "([^/]+)?"
  const RequiredFallback: string := "([^/]+)"

  /**
   * `applyStandardRegexPatterns`: remaining `{id?}` tokens first, then
   * remaining `{id}` tokens. Text without `{` holds no token and is kept.
   */
  function ApplyStandard(s: string): (r: string)
    ensures '{' !in s ==> r == s
  {
    var x := Substitute(s, Placeholder(true), OptionalFallback);
    assert '{' !in s ==> x == s by {
      if '{' !in s {
        BraceFreeUnchanged(s, Placeholder(true), OptionalFallback);
      }
    }
    var r := Substitute(x, Placeholder(false), RequiredFallback);
    assert '{' !in s ==> r == s by {
      if '{' !in s {
        BraceFreeUnchanged(x, Placeholder(false), RequiredFallback);
      }
    }
    r
  }

  /**
   * `createRegexPattern`: the custom pass, then the fallback pass, between `#`
   * delimiters. No placeholder token of the template grammar is left in it,
   * whether it came from the template or from a custom sub-pattern.
   */
  function CompiledRegex(template: string, specs: seq<MatchPattern>): (r: string)
    ensures |r| >= 2 && r[0] == '#' && r[|r| - 1] == '#'
    ensures !Occurs(r[1..|r| - 1], Placeholder(true)) && !Occurs(r[1..|r| - 1], Placeholder(false))
  {
    var body := ApplyStandard(ApplyCustom(template, specs));
    StandardPassLeavesNoPlaceholder(ApplyCustom(template, specs));
    assert ("#" + body + "#")[1..|body| + 1] == body;
    "#" + body + "#"
  }

  // ---------------------------------------------------------------------------
  // The fallback pass

  /** After the fallback pass no `{id}` and no `{id?}` token with `id` in `[a-zA-Z0-9_-]+` remains. */
  lemma StandardPassLeavesNoPlaceholder(s: string)
    ensures !Occurs(ApplyStandard(s), Placeholder(true))
    ensures !Occurs(ApplyStandard(s), Placeholder(false))
  {
    var x := Substitute(s, Placeholder(true), OptionalFallback);
    SubstituteLeavesNoMatch(s, Placeholder(true), OptionalFallback, Placeholder(true));
    SubstituteLeavesNoMatch(x, Placeholder(false), RequiredFallback, Placeholder(true));
    SubstituteLeavesNoMatch(x, Placeholder(false), RequiredFallback, Placeholder(false));
  }

  /** A placeholder name of the fallback grammar: one or more characters of `[a-zA-Z0-9_-]`. */
  predicate IsPlaceholderId(id: string) {
    id != [] && forall i :: 0 <= i < |id| ==> IsIdChar(id[i])
  }

  /** Text without `{` goes through a brace scan unchanged. */
  lemma {:induction false} BraceFreeUnchanged(s: string, m: Matcher, repl: string)
    requires !m.Literal? && '{' !in s
    ensures Substitute(s, m, repl) == s
  {
    SubstituteSkipsPrefix(s, [], m, repl);
    assert s + [] == s;
  }

  /** The optional fallback does not match at a `{id}` token. */
  lemma RequiredTokenMissedByOptional(id: string, post: string)
    requires IsPlaceholderId(id)
    ensures MatchLength("{" + id + "}" + post, Placeholder(true)) == 0
  {
    var t := "{" + id + "}" + post;
    TokenSlices(id, "}", post);
    assert ("}" + post)[0] == '}';
    RunLengthOfRun(id, "}" + post, Placeholder(true));
    assert !StartsWith(t[1 + |id|..], "?}");
  }

  /** A placeholder name and its closing brace hold no `{`. */
  lemma IdCloserBraceFree(id: string)
    requires IsPlaceholderId(id)
    ensures '{' !in id + "}"
  {
    assert forall i :: 0 <= i < |id| ==> (id + "}")[i] == id[i];
  }

  /** The optional fallback copies a `{id}` token and goes on after it. */
  lemma OptionalPassCopiesRequiredToken(id: string, post: string)
    requires IsPlaceholderId(id)
    ensures Substitute("{" + id + "}" + post, Placeholder(true), OptionalFallback)
         == "{" + id + "}" + Substitute(post, Placeholder(true), OptionalFallback)
  {
    var ho := Placeholder(true);
    var rest := "{" + id + "}" + post;
    var x := Substitute(post, ho, OptionalFallback);
    RequiredTokenMissedByOptional(id, post);
    IdCloserBraceFree(id);
    calc {
      Substitute(rest, ho, OptionalFallback);
      { SubstituteKeeps(rest, ho, OptionalFallback); }
      [rest[0]] + Substitute(rest[1..], ho, OptionalFallback);
      { TokenSlices(id, "}", post); AppendAssoc(id, "}", post); }
      ['{'] + Substitute((id + "}") + post, ho, OptionalFallback);
      { SubstituteSkipsPrefix(id + "}", post, ho, OptionalFallback); }
      ['{'] + ((id + "}") + x);
      { AppendAssoc(id, "}", x); }
      "{" + id + "}" + x;
    }
  }

  /**
   * A `{id}` token after text without `{` becomes one non-empty path
   * segment, `([^/]+)`, and the fallback pass goes on after it. This holds
   * wherever the token came from: a quantifier such as `{4}` inside a custom
   * sub-pattern has the same shape and is rewritten the same way.
   */
  lemma FallbackReplacesRequiredToken(pre: string, id: string, post: string)
    requires '{' !in pre && IsPlaceholderId(id)
    ensures ApplyStandard(pre + "{" + id + "}" + post) == pre + RequiredFallback + ApplyStandard(post)
  {
    var rest := "{" + id + "}" + post;
    var ho, hq := Placeholder(true), Placeholder(false);
    AppendAssoc(pre, "{" + id + "}", post);
    AppendAssoc(pre, "{" + id, "}");
    AppendAssoc(pre, "{", id);
    SubstituteSkipsPrefix(pre, rest, ho, OptionalFallback);
    OptionalPassCopiesRequiredToken(id, post);
    var x := Substitute(post, ho, OptionalFallback);
    SubstituteSkipsPrefix(pre, "{" + id + "}" + x, hq, RequiredFallback);
    BraceTokenReplaced(id, x, hq, RequiredFallback);
    AppendAssoc(pre, RequiredFallback, Substitute(x, hq, RequiredFallback));
  }

  /** A `{id?}` token after text without `{` becomes an optional segment, `([^/]+)?`, and the pass goes on after it. */
  lemma FallbackReplacesOptionalToken(pre: string, id: string, post: string)
    requires '{' !in pre && IsPlaceholderId(id)
    ensures ApplyStandard(pre + "{" + id + "?}" + post) == pre + OptionalFallback + ApplyStandard(post)
  {
    var rest := "{" + id + "?}" + post;
    var ho, hq := Placeholder(true), Placeholder(false);
    AppendAssoc(pre, "{" + id + "?}", post);
    AppendAssoc(pre, "{" + id, "?}");
    AppendAssoc(pre, "{", id);
    SubstituteSkipsPrefix(pre, rest, ho, OptionalFallback);
    BraceTokenReplaced(id, post, ho, OptionalFallback);
    var x := Substitute(post, ho, OptionalFallback);
    AppendAssoc(pre, OptionalFallback, x);
    assert '{' !in pre + OptionalFallback;
    SubstituteSkipsPrefix(pre + OptionalFallback, x, hq, RequiredFallback);
  }

  // ---------------------------------------------------------------------------
  // The custom pass

  /** The custom pass over a concatenated list is the pass over the first part, then over the second. */
  lemma {:induction false} ApplyCustomAppend(s: string, a: seq<MatchPattern>, b: seq<MatchPattern>)
    ensures ApplyCustom(s, a + b) == ApplyCustom(ApplyCustom(s, a), b)
    decreases |a|
  {
    if a != [] {
      assert (a + b)[0] == a[0] && (a + b)[1..] == a[1..] + b;
      ApplyCustomAppend(ApplySpec(s, a[0]), a[1..], b);
    } else {
      assert a + b == b;
    }
  }

  /** The custom pass over one registered pair: the optional descriptor, then the required one. */
  lemma ApplyCustomPair(s: string, name: string, pattern: string)
    ensures ApplyCustom(s, PatternPair(name, pattern))
         == ApplySpec(ApplySpec(s, MatchPattern(name, pattern, true)), MatchPattern(name, pattern, false))
  {
    var pair := PatternPair(name, pattern);
    var o, q := pair[0], pair[1];
    var x := ApplySpec(s, o);
    assert pair[1..] == [q] && [q][1..] == [];
    assert ApplyCustom(s, pair) == ApplyCustom(x, [q]);
    assert ApplyCustom(x, [q]) == ApplyCustom(ApplySpec(x, q), []);
  }

  /** The fragments of a pair cannot take part in a `{name}` or `{name?}` token. */
  lemma PairFragmentsCompatible(name: string, pattern: string, optional: bool, tokenOptional: bool)
    requires '(' !in name && '{' !in pattern
    ensures Compatible(Literal(MatchPattern(name, pattern, tokenOptional).Token()), CreateRegexPattern(pattern, optional))
  {
    var w := MatchPattern(name, pattern, tokenOptional).Token();
    var f := CreateRegexPattern(pattern, optional);
    assert w[1..] == name + (if tokenOptional then "?}" else "}");
    assert f[0] == '(' && w[0] == '{';
    assert '{' !in f;
    assert '(' !in w[1..];
  }

  /**
   * The pair of descriptors at the front of the list consumes every `{name}`
   * and `{name?}` token, provided the name holds no `(` and the sub-pattern no
   * `{`, so the fragments it inserts cannot recreate a token.
   */
  lemma NewestPairConsumesTokens(s: string, name: string, pattern: string)
    requires '(' !in name && '{' !in pattern
    ensures !Occurs(ApplyCustom(s, PatternPair(name, pattern)), Literal("{" + name + "?}"))
    ensures !Occurs(ApplyCustom(s, PatternPair(name, pattern)), Literal("{" + name + "}"))
  {
    var o, q := MatchPattern(name, pattern, true), MatchPattern(name, pattern, false);
    RegexNameLocatesToken(o);
    RegexNameLocatesToken(q);
    var wo, wq := Literal(o.Token()), Literal(q.Token());
    PairFragmentsCompatible(name, pattern, true, true);
    PairFragmentsCompatible(name, pattern, false, true);
    PairFragmentsCompatible(name, pattern, false, false);
    var x := ApplySpec(s, o);
    SubstituteLeavesNoMatch(s, wo, o.RegexPattern(), wo);
    SubstituteLeavesNoMatch(x, wq, q.RegexPattern(), wo);
    SubstituteLeavesNoMatch(x, wq, q.RegexPattern(), wq);
    ApplyCustomPair(s, name, pattern);
  }

  /**
   * Last registration wins: when a pair for `name` is registered in front of an
   * older pair for the same name, the older pair finds nothing left to replace.
   */
  lemma LastRegistrationWins(s: string, name: string, older: string, newer: string, rest: seq<MatchPattern>)
    requires '(' !in name && '{' !in newer
    ensures ApplyCustom(s, PatternPair(name, newer) + PatternPair(name, older) + rest)
         == ApplyCustom(ApplyCustom(s, PatternPair(name, newer)), rest)
  {
    var x := ApplyCustom(s, PatternPair(name, newer));
    ApplyCustomAppend(s, PatternPair(name, newer), PatternPair(name, older) + rest);
    assert PatternPair(name, newer) + PatternPair(name, older) + rest
        == PatternPair(name, newer) + (PatternPair(name, older) + rest);
    ApplyCustomAppend(x, PatternPair(name, older), rest);
    NewestPairConsumesTokens(s, name, newer);
    PairWithoutTokensKeeps(x, name, older);
  }

  /** A pair finds nothing to replace in text that holds neither of its tokens. */
  lemma PairWithoutTokensKeeps(x: string, name: string, pattern: string)
    requires !Occurs(x, Literal("{" + name + "?}")) && !Occurs(x, Literal("{" + name + "}"))
    ensures ApplyCustom(x, PatternPair(name, pattern)) == x
  {
    var o, q := MatchPattern(name, pattern, true), MatchPattern(name, pattern, false);
    assert o.Token() == "{" + name + "?}" && q.Token() == "{" + name + "}";
    assert ApplySpec(x, o) == x;
    ApplyCustomPair(x, name, pattern);
  }
}
