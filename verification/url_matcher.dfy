/**
 * UrlMatcher (src/Weew/UrlMatcher/UrlMatcher.php): a list of placeholder
 * descriptors, the operations that register them, and `match`, `parse`,
 * `replace` and `replaceAll` over templates such as `/users/{id}/{slug?}`.
 *
 * The regular expression engine is not modelled: `match` and `parse` take a
 * `RegexOracle` standing for `preg_match_all`, and every property below holds
 * for any oracle.
 */
module UrlMatching {
  import opened Wrappers
  import opened Scanning
  import opened MatchPatterns
  import opened Compilation
  import opened Slashes
  import opened Extraction

  /**
   * `preg_match_all($regex, $subject, $matches)` with the default pattern
   * order: `None` when the regular expression fails to compile, otherwise one
   * list per group, group 0 holding the whole matches and group `g` the `g`-th
   * capture of each match.
   */
  type RegexOracle = (string, string) -> Option<seq<seq<string>>>

  /** `$matches` after the call: left empty when the engine fails. */
  function GroupsOf(result: Option<seq<seq<string>>>): seq<seq<string>> {
    if result.Some? then result.value else []
  }

  /** The number `preg_match_all` returns: the number of whole matches. */
  function MatchCount(groups: seq<seq<string>>): nat {
    if groups == [] then 0 else |groups[0]|
  }

  /** The descriptors the per-call overrides add: one pair per entry, the last entry's pair first. */
  function LocalPairs(overrides: seq<(string, string)>): seq<MatchPattern> {
    if overrides == [] then []
    else
      var last := overrides[|overrides| - 1];
      PatternPair(last.0, last.1) + LocalPairs(overrides[..|overrides| - 1])
  }

  /** `match` on a given descriptor list. */
  predicate Matches(template: string, path: string, specs: seq<MatchPattern>, oracle: RegexOracle) {
    var subject := AddTrailingSlash(path);
    var groups := GroupsOf(oracle(CompiledRegex(template, specs), subject));
    MatchCount(groups) == 1 && AddTrailingSlash(groups[0][0]) == subject
  }

  /** `extractParameterValues` on a given descriptor list: every capture group after group 0, processed. */
  function ExtractedValues(template: string, path: string, specs: seq<MatchPattern>, oracle: RegexOracle): seq<Option<string>> {
    var groups := GroupsOf(oracle(CompiledRegex(template, specs), AddTrailingSlash(path)));
    ProcessedValues(if groups == [] then [] else groups[1..])
  }

  /** `parse` on a given descriptor list. */
  function Parsed(template: string, path: string, specs: seq<MatchPattern>, oracle: RegexOracle): Result<Parameters, CombineError> {
    Reconcile(ParameterNames(template), ExtractedValues(template, path, specs, oracle))
  }

  /** `replace`: every `{key}` token of the path, left to right, replaced verbatim by the value. */
  function Replace(path: string, key: string, value: string): (r: string)
    ensures !Occurs(path, Literal("{" + key + "}")) ==> r == path
  {
    var r := Substitute(path, Literal("{" + key + "}"), value);
    assert !Occurs(path, Literal("{" + key + "}")) ==> r == path by {
      if !Occurs(path, Literal("{" + key + "}")) {
        SubstituteWithoutMatch(path, Literal("{" + key + "}"), value);
      }
    }
    r
  }

  /** `replaceAll`: `replace` once per entry, in the entries' order. */
  function ReplacedAll(path: string, replacements: seq<(string, string)>): string
    decreases |replacements|
  {
    if replacements == [] then path
    else ReplacedAll(Replace(path, replacements[0].0, replacements[0].1), replacements[1..])
  }

  class UrlMatcher {
    /** The registered descriptors, front first: the first one is applied first. */
    var patterns: seq<MatchPattern>

    /** A new matcher holds the default pair for `any` with sub-pattern `.+`. */
    constructor ()
      ensures patterns == PatternPair("any", ".+")
    {
      patterns := [];
      new;
      AddDefaultPatterns();
    }

    method AddDefaultPatterns()
      modifies this
      ensures patterns == PatternPair("any", ".+") + old(patterns)
    {
      AddPattern("any", ".+");
    }

    method GetPatterns() returns (ps: seq<MatchPattern>)
      ensures ps == patterns
    {
      ps := patterns;
    }

    method SetPatterns(ps: seq<MatchPattern>)
      modifies this
      ensures patterns == ps
    {
      patterns := ps;
    }

    /**
     * Registration prepends the required descriptor and then the optional one,
     * so the optional descriptor ends up at index 0, the required one at index
     * 1, and the old list follows unchanged.
     */
    method AddPattern(name: string, pattern: string)
      modifies this
      ensures patterns == PatternPair(name, pattern) + old(patterns)
      ensures |patterns| == |old(patterns)| + 2
      ensures patterns[0] == MatchPattern(name, pattern, true)
      ensures patterns[1] == MatchPattern(name, pattern, false)
      ensures patterns[2..] == old(patterns)
    {
      patterns := [MatchPattern(name, pattern, false)] + patterns;
      patterns := [MatchPattern(name, pattern, true)] + patterns;
    }

    /** A copy of the list with a pair per override put in front; the stored list is not touched. */
    method MergeWithLocalPatterns(overrides: seq<(string, string)>) returns (merged: seq<MatchPattern>)
      ensures merged == LocalPairs(overrides) + patterns
    {
      merged := patterns;
      var i := 0;
      while i < |overrides|
        invariant 0 <= i <= |overrides|
        invariant merged == LocalPairs(overrides[..i]) + patterns
      {
        var (name, pattern) := overrides[i];
        merged := [MatchPattern(name, pattern, false)] + merged;
        merged := [MatchPattern(name, pattern, true)] + merged;
        assert overrides[..i + 1][..i] == overrides[..i];
        i := i + 1;
      }
      assert overrides[..i] == overrides;
    }

    /** The custom pass, threading the template through one replacement per descriptor. */
    method ApplyCustomRegexPatterns(path: string, specs: seq<MatchPattern>) returns (result: string)
      ensures result == ApplyCustom(path, specs)
    {
      result := path;
      var i := 0;
      while i < |specs|
        invariant 0 <= i <= |specs|
        invariant ApplyCustom(result, specs[i..]) == ApplyCustom(path, specs)
      {
        assert specs[i..][1..] == specs[i + 1..];
        result := ApplySpec(result, specs[i]);
        i := i + 1;
      }
    }

    method CreateRegexPattern(path: string, specs: seq<MatchPattern>) returns (regex: string)
      ensures regex == CompiledRegex(path, specs)
    {
      var pattern := ApplyCustomRegexPatterns(path, specs);
      pattern := ApplyStandard(pattern);
      regex := "#" + pattern + "#";
    }

    /** The names of the template, one per captured group, with `?` removed. */
    method ExtractParameterNames(path: string) returns (names: seq<string>)
      ensures names == ParameterNames(path)
    {
      names := [];
      var groups := CapturedNames(path);
      var i := 0;
      while i < |groups|
        invariant 0 <= i <= |groups|
        invariant names == ParameterNames(path)[..i]
      {
        names := names + [WithoutQuestionMarks(groups[i])];
        i := i + 1;
      }
    }

    /** Every captured value, group after group, with `""` turned into null and one trailing `/` dropped. */
    method ProcessParameterValues(matches: seq<seq<string>>) returns (values: seq<Option<string>>)
      ensures values == ProcessedValues(matches)
    {
      values := [];
      var g := 0;
      while g < |matches|
        invariant 0 <= g <= |matches|
        invariant values == ProcessedValues(matches[..g])
      {
        var group := matches[g];
        var j := 0;
        while j < |group|
          invariant 0 <= j <= |group|
          invariant values == ProcessedValues(matches[..g]) + NormalizeAll(group[..j])
        {
          var value := group[j];
          values := values + [NormalizeValue(value)];
          assert group[..j + 1] == group[..j] + [value];
          NormalizeAllAppend(group[..j], [value]);
          j := j + 1;
        }
        assert matches[..g + 1][..g] == matches[..g];
        assert group[..j] == group;
        NormalizeAllAppend(Flatten(matches[..g]), group);
        g := g + 1;
      }
      assert matches[..g] == matches;
    }

    method ExtractParameterValues(pattern: string, path: string, specs: seq<MatchPattern>, oracle: RegexOracle)
      returns (values: seq<Option<string>>)
      ensures values == ExtractedValues(pattern, path, specs, oracle)
    {
      var subject := AddTrailingSlash(path);
      var regex := CreateRegexPattern(pattern, specs);
      var matches := GroupsOf(oracle(regex, subject));
      if matches != [] {
        matches := matches[1..];
      }
      values := ProcessParameterValues(matches);
    }

    /**
     * True exactly when the engine reports one whole match and that match,
     * normalised to end with `/`, equals the normalised path.
     */
    method Match(pattern: string, path: string, overrides: seq<(string, string)>, oracle: RegexOracle)
      returns (matched: bool)
      ensures matched == Matches(pattern, path, LocalPairs(overrides) + patterns, oracle)
    {
      var specs := MergeWithLocalPatterns(overrides);
      var subject := AddTrailingSlash(path);
      var regex := CreateRegexPattern(pattern, specs);
      var matches := GroupsOf(oracle(regex, subject));
      if MatchCount(matches) == 1 {
        var matchedPath := AddTrailingSlash(matches[0][0]);
        return matchedPath == subject;
      }
      return false;
    }

    /** The template's names paired with the extracted values; a failure where `array_combine` throws. */
    method Parse(pattern: string, path: string, overrides: seq<(string, string)>, oracle: RegexOracle)
      returns (parameters: Result<Parameters, CombineError>)
      ensures parameters == Parsed(pattern, path, LocalPairs(overrides) + patterns, oracle)
    {
      var specs := MergeWithLocalPatterns(overrides);
      var names := ExtractParameterNames(pattern);
      var values := ExtractParameterValues(pattern, path, specs, oracle);
      var padded := Pad(values, |names|);
      if |padded| != |names| {
        return Failure(CountMismatch(|names|, |padded|));
      }
      return Success(Combine(names, padded));
    }

    /** `replace` applied once per entry, threading the path through. */
    method ReplaceAll(path: string, replacements: seq<(string, string)>) returns (result: string)
      ensures result == ReplacedAll(path, replacements)
    {
      result := path;
      var i := 0;
      while i < |replacements|
        invariant 0 <= i <= |replacements|
        invariant ReplacedAll(result, replacements[i..]) == ReplacedAll(path, replacements)
      {
        assert replacements[i..][1..] == replacements[i + 1..];
        var (key, value) := replacements[i];
        result := Replace(result, key, value);
        i := i + 1;
      }
    }
  }

  // ---------------------------------------------------------------------------
  // Properties of match and parse, for every oracle

  /** `match` gives the same answer for `p` and `p + "/"` when `p` does not already end with `/`. */
  lemma MatchTrailingSlashInvariant(template: string, p: string, specs: seq<MatchPattern>, oracle: RegexOracle)
    requires !EndsWithSlash(p)
    ensures Matches(template, p, specs, oracle) == Matches(template, p + "/", specs, oracle)
  {
    NormalisationAbsorbsOneSlash(p);
  }

  /** `parse` gives the same result for `p` and `p + "/"` when `p` does not already end with `/`. */
  lemma ParseTrailingSlashInvariant(template: string, p: string, specs: seq<MatchPattern>, oracle: RegexOracle)
    requires !EndsWithSlash(p)
    ensures Parsed(template, p, specs, oracle) == Parsed(template, p + "/", specs, oracle)
  {
    NormalisationAbsorbsOneSlash(p);
  }

  /**
   * A successful `match` saw exactly one whole match, and that match is the
   * whole normalised path, or the whole normalised path without its final `/`:
   * a match of a proper prefix of the path is rejected.
   */
  lemma MatchCoversWholePath(template: string, path: string, specs: seq<MatchPattern>, oracle: RegexOracle)
    requires Matches(template, path, specs, oracle)
    ensures var groups := GroupsOf(oracle(CompiledRegex(template, specs), AddTrailingSlash(path)));
      && |groups| > 0 && |groups[0]| == 1
      && (groups[0][0] == AddTrailingSlash(path) || groups[0][0] + "/" == AddTrailingSlash(path))
  {
  }

  /**
   * The keys of a successful `parse` are the names listed from the template,
   * each once, in order of first occurrence; `parse` fails exactly when the
   * engine captured more values than there are names.
   */
  lemma ParseKeysAndFailure(template: string, path: string, specs: seq<MatchPattern>, oracle: RegexOracle)
    ensures var r := Parsed(template, path, specs, oracle);
      && (r.Failure? <==> |ExtractedValues(template, path, specs, oracle)| > |ParameterNames(template)|)
      && (r.Success? ==> Keys(r.value) == FirstOccurrences(ParameterNames(template)) && Distinct(Keys(r.value)))
  {
    var names := ParameterNames(template);
    ReconcileSpec(names, ExtractedValues(template, path, specs, oracle), "");
    FirstOccurrencesDistinct(names);
  }

  /**
   * `parse` on a template whose only placeholder name holds a character
   * outside `[a-zA-Z0-9?]` (such as `/{user_id}`) lists no names, so it fails
   * as soon as the engine captures any value.
   */
  lemma UnlistedPlaceholderBreaksParse(pre: string, a: string, c: char, rest: string,
                                       path: string, specs: seq<MatchPattern>, oracle: RegexOracle)
    requires '{' !in pre && '{' !in rest && c != '{' && c != '}' && !IsNameChar(c)
    requires forall i :: 0 <= i < |a| ==> IsNameChar(a[i])
    requires |ExtractedValues(pre + "{" + a + [c] + rest, path, specs, oracle)| > 0
    ensures Parsed(pre + "{" + a + [c] + rest, path, specs, oracle).Failure?
  {
    var t := pre + "{" + a + [c] + rest;
    UnlistedPlaceholderAlone(pre, a, c, rest);
    ReconcileSpec(ParameterNames(t), ExtractedValues(t, path, specs, oracle), "");
  }

  // ---------------------------------------------------------------------------
  // Properties of the descriptor list

  /** Override pair `j` counted from the front belongs to entry `j` counted from the back. */
  lemma {:induction false} LocalPairsLayout(overrides: seq<(string, string)>, j: nat)
    requires j < |overrides|
    ensures |LocalPairs(overrides)| == 2 * |overrides|
    ensures var e := overrides[|overrides| - 1 - j];
      LocalPairs(overrides)[2 * j..2 * j + 2] == PatternPair(e.0, e.1)
    decreases |overrides|
  {
    var n := |overrides| - 1;
    LocalPairsLength(overrides[..n]);
    if j > 0 {
      LocalPairsLayout(overrides[..n], j - 1);
      assert overrides[..n][n - 1 - (j - 1)] == overrides[n - j];
      assert LocalPairs(overrides)[2 * j..2 * j + 2] == LocalPairs(overrides[..n])[2 * (j - 1)..2 * (j - 1) + 2];
    }
  }

  lemma {:induction false} LocalPairsLength(overrides: seq<(string, string)>)
    ensures |LocalPairs(overrides)| == 2 * |overrides|
    decreases |overrides|
  {
    if overrides != [] {
      LocalPairsLength(overrides[..|overrides| - 1]);
    }
  }

  // ---------------------------------------------------------------------------
  // Properties of replace and replaceAll

  /**
   * No `{key}` token is left after `replace`, provided the value cannot form
   * one with its surroundings: it is non-empty, holds no `{`, and its first
   * character does not occur in `key}`.
   */
  lemma ReplaceLeavesNoToken(path: string, key: string, value: string)
    requires |value| > 0 && '{' !in value && value[0] !in key + "}"
    ensures !Occurs(Replace(path, key, value), Literal("{" + key + "}"))
  {
    var w := "{" + key + "}";
    assert w[1..] == key + "}";
    SubstituteLeavesNoMatch(path, Literal(w), value, Literal(w));
  }

  /** `replaceAll` over two lists in a row is `replaceAll` over the first, then over the second. */
  lemma {:induction false} ReplacedAllAppend(path: string, a: seq<(string, string)>, b: seq<(string, string)>)
    ensures ReplacedAll(path, a + b) == ReplacedAll(ReplacedAll(path, a), b)
    decreases |a|
  {
    if a != [] {
      assert (a + b)[0] == a[0] && (a + b)[1..] == a[1..] + b;
      ReplacedAllAppend(Replace(path, a[0].0, a[0].1), a[1..], b);
    } else {
      assert a + b == b;
    }
  }

  /** An empty replacement list is the identity, and a key replaced by its own token changes nothing. */
  lemma ReplaceIdentities(path: string, key: string)
    ensures ReplacedAll(path, []) == path
    ensures Replace(path, key, "{" + key + "}") == path
  {
    SubstituteByItself(path, "{" + key + "}");
  }

  /** Text without `{` holds no `{key}` token. */
  lemma BraceFreeHasNoToken(s: string, key: string)
    requires '{' !in s
    ensures !Occurs(s, Literal("{" + key + "}"))
  {
    NoMatchInPrefix(s, [], Literal("{" + key + "}"));
    assert s + [] == s;
  }

  /**
   * `replace` turns the first `{key}` token of the path into the value and
   * goes on replacing in the rest: every occurrence is replaced, left to
   * right, whatever the value is (the empty string included).
   */
  lemma ReplaceLeadingToken(pre: string, key: string, value: string, post: string)
    requires '{' !in pre
    ensures Replace(pre + "{" + key + "}" + post, key, value) == pre + value + Replace(post, key, value)
  {
    var w := "{" + key + "}";
    var m := Literal(w);
    assert pre + "{" + key + "}" + post == pre + (w + post);
    SubstituteSkipsPrefix(pre, w + post, m, value);
    assert (w + post)[..|w|] == w && (w + post)[|w|..] == post;
    assert MatchLength(w + post, m) == |w|;
    assert Substitute(w + post, m, value) == value + Substitute(post, m, value);
    AppendAssoc(pre, value, Substitute(post, m, value));
  }

  /**
   * `replace` turns the one `{key}` token of the path into the value and
   * leaves the rest alone, other tokens included: the text before the token
   * holds no `{` and the text after it no `{key}`.
   */
  lemma ReplaceSingleToken(pre: string, key: string, value: string, post: string)
    requires '{' !in pre && !Occurs(post, Literal("{" + key + "}"))
    ensures Replace(pre + "{" + key + "}" + post, key, value) == pre + value + post
  {
    ReplaceLeadingToken(pre, key, value, post);
  }

  /** Both occurrences of `{key}` are replaced, so `replace("/{a}/{a}", "a", "")` is `"//"`. */
  lemma ReplaceBothTokens(pre: string, key: string, value: string, mid: string, post: string)
    requires '{' !in pre && '{' !in mid && '{' !in post
    ensures Replace(pre + "{" + key + "}" + mid + "{" + key + "}" + post, key, value)
         == pre + value + mid + value + post
  {
    var rest := mid + "{" + key + "}" + post;
    assert pre + "{" + key + "}" + mid + "{" + key + "}" + post == pre + "{" + key + "}" + rest;
    ReplaceLeadingToken(pre, key, value, rest);
    BraceFreeHasNoToken(post, key);
    ReplaceSingleToken(mid, key, value, post);
    assert pre + value + (mid + value + post) == pre + value + mid + value + post;
  }

  /**
   * Replacements run in order, so a `{b}` inserted by the entry for `a` is
   * then replaced by the entry for `b`.
   */
  lemma ReplacementsChain(pre: string, a: string, b: string, value: string, post: string)
    requires '{' !in pre && '{' !in post
    ensures ReplacedAll(pre + "{" + a + "}" + post, [(a, "{" + b + "}"), (b, value)]) == pre + value + post
  {
    var path := pre + "{" + a + "}" + post;
    var r := [(a, "{" + b + "}"), (b, value)];
    BraceFreeHasNoToken(post, a);
    BraceFreeHasNoToken(post, b);
    ReplaceSingleToken(pre, a, "{" + b + "}", post);
    var x := Replace(path, a, "{" + b + "}");
    assert x == pre + "{" + b + "}" + post;
    ReplaceSingleToken(pre, b, value, post);
    assert r[1..][1..] == [];
    assert ReplacedAll(path, r) == ReplacedAll(x, r[1..]);
  }
}
