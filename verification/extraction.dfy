/**
 * Parameter extraction of UrlMatcher (src/Weew/UrlMatcher/UrlMatcher.php):
 * the names listed from the raw template, the captured values flattened and
 * normalised, and the reconciliation of the two by `array_pad` and
 * `array_combine` into an ordered name-to-value mapping.
 */
module Extraction {
  import opened Wrappers
  import opened Scanning
  import opened Slashes

  // ---------------------------------------------------------------------------
  // Names

  /** A captured name group: one or more characters of `[a-zA-Z0-9?]`. */
  predicate IsNameGroup(g: string) {
    |g| > 0 && forall j :: 0 <= j < |g| ==> IsNameChar(g[j])
  }

  /** The text between the braces of a name-token match is a name group. */
  lemma NameTokenGroup(s: string)
    requires MatchLength(s, NameToken) > 0
    ensures 2 <= MatchLength(s, NameToken) && IsNameGroup(s[1..MatchLength(s, NameToken) - 1])
  {
    var n := MatchLength(s, NameToken);
    BraceMatchShape(s, NameToken);
    var g := s[1..n - 1];
    forall j | 0 <= j < |g| ensures IsNameChar(g[j]) {
      assert g[j] == s[j + 1];
    }
  }

  /**
   * Group 1 of every match of `#\{([a-zA-Z0-9?]+)}#` in the template, in
   * template order: what `preg_match_all` puts in `$matches[1]`.
   */
  function CapturedNames(template: string): (gs: seq<string>)
    ensures forall i :: 0 <= i < |gs| ==> IsNameGroup(gs[i])
    decreases |template|
  {
    if template == [] then []
    else
      var n := MatchLength(template, NameToken);
      if n > 0 then
        NameTokenGroup(template);
        [template[1..n - 1]] + CapturedNames(template[n..])
      else CapturedNames(template[1..])
  }

  /** Text before the first `{` contributes no name and does not change what follows. */
  lemma {:induction false} CapturedNamesSkipPrefix(a: string, b: string)
    requires '{' !in a
    ensures CapturedNames(a + b) == CapturedNames(b)
    decreases |a|
  {
    if a != [] {
      if MatchLength(a + b, NameToken) > 0 {
        MatchStartsWithStartChar(a + b, NameToken);
        assert false;
      }
      assert (a + b)[1..] == a[1..] + b;
      CapturedNamesSkipPrefix(a[1..], b);
    } else {
      assert a + b == b;
    }
  }

  /**
   * A name token `{g}` after text without `{` yields the group `g`, and the
   * scan goes on after the token: names are listed in template order.
   */
  lemma NameTokenListed(pre: string, g: string, post: string)
    requires '{' !in pre && IsNameGroup(g)
    ensures CapturedNames(pre + "{" + g + "}" + post) == [g] + CapturedNames(post)
    ensures ParameterNames(pre + "{" + g + "}" + post) == [WithoutQuestionMarks(g)] + ParameterNames(post)
  {
    var t := "{" + g + "}" + post;
    AppendAssoc(pre, "{" + g + "}", post);
    AppendAssoc(pre, "{" + g, "}");
    AppendAssoc(pre, "{", g);
    CapturedNamesSkipPrefix(pre, t);
    BraceTokenMatch(g, post, NameToken);
    assert CapturedNames(t) == [g] + CapturedNames(post);
    ParameterNamesCons(pre + t, g, post);
  }

  /** When the scan of `x` finds `g` and then the names of `y`, the listing of `x` is `g` without `?`, then the listing of `y`. */
  lemma ParameterNamesCons(x: string, g: string, y: string)
    requires CapturedNames(x) == [g] + CapturedNames(y)
    ensures ParameterNames(x) == [WithoutQuestionMarks(g)] + ParameterNames(y)
  {
    var a, b := ParameterNames(x), [WithoutQuestionMarks(g)] + ParameterNames(y);
    assert |a| == |b|;
    forall i | 0 <= i < |a| ensures a[i] == b[i] {
      if i > 0 {
        assert CapturedNames(x)[i] == CapturedNames(y)[i - 1];
      }
    }
  }

  /** Two name tokens separated by text without `{` are listed in template order. */
  lemma NamesListedInOrder(pre: string, g1: string, mid: string, g2: string, post: string)
    requires '{' !in pre && '{' !in mid && '{' !in post && IsNameGroup(g1) && IsNameGroup(g2)
    ensures ParameterNames(pre + "{" + g1 + "}" + mid + "{" + g2 + "}" + post)
         == [WithoutQuestionMarks(g1), WithoutQuestionMarks(g2)]
  {
    var rest := mid + "{" + g2 + "}" + post;
    assert pre + "{" + g1 + "}" + mid + "{" + g2 + "}" + post == pre + "{" + g1 + "}" + rest;
    NameTokenListed(pre, g1, rest);
    NameTokenListed(mid, g2, post);
    CapturedNamesSkipPrefix(post, []);
    assert post + [] == post;
    assert ParameterNames(post) == [];
  }

  /**
   * A brace whose contents reach a character outside `[a-zA-Z0-9?]` before
   * the closing `}` starts no name, and the scan goes on after that
   * character: a placeholder such as `{user_id}` or `{user-id}` is compiled
   * into a capture group but is not listed, whatever follows it.
   */
  lemma NameScanSkipsOtherChars(pre: string, a: string, c: char, rest: string)
    requires '{' !in pre && c != '{' && c != '}' && !IsNameChar(c)
    requires forall i :: 0 <= i < |a| ==> IsNameChar(a[i])
    ensures CapturedNames(pre + "{" + a + [c] + rest) == CapturedNames(rest)
    ensures ParameterNames(pre + "{" + a + [c] + rest) == ParameterNames(rest)
  {
    var t := "{" + a + [c] + rest;
    AppendAssoc(pre, "{" + a + [c], rest);
    AppendAssoc(pre, "{" + a, [c]);
    AppendAssoc(pre, "{", a);
    CapturedNamesSkipPrefix(pre, t);
    TokenSlices(a, [c], rest);
    RunLengthOfRun(a, [c] + rest, NameToken);
    assert t[1 + |a|..][0] == c;
    assert MatchLength(t, NameToken) == 0;
    assert CapturedNames(t) == CapturedNames(t[1..]);
    AppendAssoc(a, [c], rest);
    assert '{' !in a + [c] by {
      assert forall i :: 0 <= i < |a| ==> (a + [c])[i] == a[i];
    }
    CapturedNamesSkipPrefix(a + [c], rest);
  }

  /** A template whose only placeholder is one such brace lists no name at all. */
  lemma UnlistedPlaceholderAlone(pre: string, a: string, c: char, rest: string)
    requires '{' !in pre && '{' !in rest && c != '{' && c != '}' && !IsNameChar(c)
    requires forall i :: 0 <= i < |a| ==> IsNameChar(a[i])
    ensures ParameterNames(pre + "{" + a + [c] + rest) == []
  {
    NameScanSkipsOtherChars(pre, a, c, rest);
    CapturedNamesSkipPrefix(rest, []);
    assert rest + [] == rest;
  }

  /** `str_replace('?', '', $name)`: a name without `?` is kept as it is. */
  function WithoutQuestionMarks(g: string): (r: string)
    ensures '?' !in g ==> r == g
  {
    var r := Substitute(g, Literal("?"), "");
    assert '?' !in g ==> r == g by {
      if '?' !in g {
        SubstituteSkipsPrefix(g, [], Literal("?"), "");
        assert g + [] == g;
      }
    }
    r
  }

  /** Removing `?` works character by character: a `?` disappears and any other character stays. */
  lemma WithoutQuestionMarksChar(c: char)
    ensures WithoutQuestionMarks([c]) == if c == '?' then [] else [c]
  {
    assert [c][1..] == [];
  }

  /** Removing `?` from a character followed by more text treats the character on its own. */
  lemma WithoutQuestionMarksCons(c: char, t: string)
    ensures WithoutQuestionMarks([c] + t) == WithoutQuestionMarks([c]) + WithoutQuestionMarks(t)
  {
    var m := Literal("?");
    var u := [c] + t;
    assert u[0] == c && u[1..] == t && u[..1] == [c];
    WithoutQuestionMarksChar(c);
    if c == '?' {
      assert MatchLength(u, m) == 1;
      assert Substitute(u, m, "") == "" + Substitute(t, m, "");
    } else {
      assert MatchLength(u, m) == 0;
      SubstituteKeeps(u, m, "");
    }
  }

  /** Removing `?` from a concatenation removes it from each part, so the order of the other characters is kept. */
  lemma {:induction false} WithoutQuestionMarksAppend(a: string, b: string)
    ensures WithoutQuestionMarks(a + b) == WithoutQuestionMarks(a) + WithoutQuestionMarks(b)
    decreases |a|
  {
    if a == [] {
      assert a + b == b;
    } else {
      assert a + b == [a[0]] + (a[1..] + b) && a == [a[0]] + a[1..];
      WithoutQuestionMarksCons(a[0], a[1..] + b);
      WithoutQuestionMarksAppend(a[1..], b);
      WithoutQuestionMarksCons(a[0], a[1..]);
      AppendAssoc(WithoutQuestionMarks([a[0]]), WithoutQuestionMarks(a[1..]), WithoutQuestionMarks(b));
    }
  }

  /** Removing `?` keeps the count of every other character and leaves no `?`. */
  lemma {:induction false} WithoutQuestionMarksKeepsOthers(g: string)
    ensures var r := WithoutQuestionMarks(g);
      && (forall j :: 0 <= j < |r| ==> r[j] != '?')
      && (forall c :: c != '?' ==> multiset(r)[c] == multiset(g)[c])
    decreases |g|
  {
    if g != [] {
      WithoutQuestionMarksKeepsOthers(g[1..]);
      assert g == [g[0]] + g[1..];
      if g[0] == '?' {
        assert WithoutQuestionMarks(g) == WithoutQuestionMarks(g[1..]);
      } else {
        assert WithoutQuestionMarks(g) == [g[0]] + WithoutQuestionMarks(g[1..]);
      }
    }
  }

  /** A captured group without its `?` characters consists of letters and digits only. */
  lemma NameIsAlphanumeric(g: string)
    requires IsNameGroup(g)
    ensures forall j :: 0 <= j < |WithoutQuestionMarks(g)| ==> IsAlnum(WithoutQuestionMarks(g)[j])
  {
    var r := WithoutQuestionMarks(g);
    WithoutQuestionMarksKeepsOthers(g);
    forall j | 0 <= j < |r| ensures IsAlnum(r[j]) {
      var c := r[j];
      assert c in multiset(r);
      assert c in multiset(g);
      var k :| 0 <= k < |g| && g[k] == c;
    }
  }

  /**
   * `extractParameterNames`: the captured groups with every `?` removed. The
   * names contain letters and digits only, so a placeholder whose name holds
   * `_` or `-` is not listed at all.
   */
  function ParameterNames(template: string): (names: seq<string>)
    ensures |names| == |CapturedNames(template)|
    ensures forall i, j :: 0 <= i < |names| && 0 <= j < |names[i]| ==> IsAlnum(names[i][j])
  {
    var gs := CapturedNames(template);
    forall i | 0 <= i < |gs| ensures forall j :: 0 <= j < |WithoutQuestionMarks(gs[i])| ==> IsAlnum(WithoutQuestionMarks(gs[i])[j]) {
      NameIsAlphanumeric(gs[i]);
    }
    seq(|gs|, i requires 0 <= i < |gs| => WithoutQuestionMarks(gs[i]))
  }

  // ---------------------------------------------------------------------------
  // Values

  /** The captured groups concatenated group by group (pattern order). */
  function Flatten(groups: seq<seq<string>>): seq<string> {
    if groups == [] then [] else Flatten(groups[..|groups| - 1]) + groups[|groups| - 1]
  }

  /** An empty capture becomes null; any other loses one trailing `/`. */
  function NormalizeValue(v: string): (r: Option<string>)
    ensures r.None? <==> v == ""
    ensures r.Some? ==> v == r.value || v == r.value + "/"
    ensures r.Some? ==> (r.value + "/" == v <==> EndsWithSlash(v))
  {
    if v == "" then None else Some(RemoveTrailingSlash(v))
  }

  function NormalizeAll(vs: seq<string>): (r: seq<Option<string>>)
    ensures |r| == |vs|
  {
    seq(|vs|, i requires 0 <= i < |vs| => NormalizeValue(vs[i]))
  }

  /** `processParameterValues`: every captured value, group-major, normalised. */
  function ProcessedValues(groups: seq<seq<string>>): seq<Option<string>> {
    NormalizeAll(Flatten(groups))
  }

  lemma NormalizeAllAppend(a: seq<string>, b: seq<string>)
    ensures NormalizeAll(a + b) == NormalizeAll(a) + NormalizeAll(b)
  {
  }

  function TotalCount(groups: seq<seq<string>>): nat {
    if groups == [] then 0 else TotalCount(groups[..|groups| - 1]) + |groups[|groups| - 1]|
  }

  /**
   * The flattened list has one entry per captured value, and value `j` of
   * group `g` stands after all values of the groups before `g`.
   */
  lemma {:induction false} FlattenLayout(groups: seq<seq<string>>, g: nat, j: nat)
    requires g < |groups| && j < |groups[g]|
    ensures |Flatten(groups)| == TotalCount(groups)
    ensures TotalCount(groups[..g]) + j < |Flatten(groups)|
    ensures Flatten(groups)[TotalCount(groups[..g]) + j] == groups[g][j]
    decreases |groups|
  {
    var n := |groups| - 1;
    var init := groups[..n];
    FlattenLength(init);
    if g < n {
      FlattenLayout(init, g, j);
      assert init[..g] == groups[..g];
    } else {
      assert groups[..g] == init;
    }
  }

  lemma {:induction false} FlattenLength(groups: seq<seq<string>>)
    ensures |Flatten(groups)| == TotalCount(groups)
    decreases |groups|
  {
    if groups != [] {
      FlattenLength(groups[..|groups| - 1]);
    }
  }

  // ---------------------------------------------------------------------------
  // Reconciliation

  /** `array_pad($values, $n, null)`: nulls appended up to length `n`; a longer list is left as it is. */
  function Pad(values: seq<Option<string>>, n: nat): (r: seq<Option<string>>)
    ensures |r| == if |values| < n then n else |values|
    ensures r[..|values|] == values
    ensures forall i :: |values| <= i < |r| ==> r[i] == None
  {
    if |values| >= n then values else values + seq(n - |values|, _ => None)
  }

  /** The ordered mapping the parser returns: names with their optional values, each name once. */
  type Parameters = seq<(string, Option<string>)>

  function Keys(d: Parameters): (ks: seq<string>)
    ensures |ks| == |d|
  {
    seq(|d|, i requires 0 <= i < |d| => d[i].0)
  }

  /** The value stored under `k`, if `k` is a key. */
  function Lookup(d: Parameters, k: string): Option<Option<string>> {
    if d == [] then None else if d[0].0 == k then Some(d[0].1) else Lookup(d[1..], k)
  }

  /** Assignment to a PHP array key: an existing key keeps its place and takes the new value; a new key goes last. */
  function Put(d: Parameters, k: string, v: Option<string>): Parameters {
    if d == [] then [(k, v)]
    else if d[0].0 == k then [(k, v)] + d[1..]
    else [d[0]] + Put(d[1..], k, v)
  }

  /** `array_combine($names, $values)` for lists of equal length: one `Put` per position, left to right. */
  function Combine(names: seq<string>, values: seq<Option<string>>): Parameters
    requires |names| == |values|
  {
    if names == [] then []
    else
      var n := |names| - 1;
      Put(Combine(names[..n], values[..n]), names[n], values[n])
  }

  /** The names without repetitions, each where it first occurs. */
  function FirstOccurrences(names: seq<string>): seq<string> {
    if names == [] then []
    else
      var d := FirstOccurrences(names[..|names| - 1]);
      if names[|names| - 1] in d then d else d + [names[|names| - 1]]
  }

  /** The position of the last occurrence of `k` in `names`. */
  function LastIndex(names: seq<string>, k: string): (i: nat)
    requires k in names
    ensures i < |names| && names[i] == k
    ensures forall j :: i < j < |names| ==> names[j] != k
  {
    if names[|names| - 1] == k then |names| - 1 else LastIndex(names[..|names| - 1], k)
  }

  lemma {:induction false} PutKeys(d: Parameters, k: string, v: Option<string>)
    ensures Keys(Put(d, k, v)) == if k in Keys(d) then Keys(d) else Keys(d) + [k]
    decreases |d|
  {
    if d != [] {
      PutKeys(d[1..], k, v);
      assert Keys(d) == [d[0].0] + Keys(d[1..]);
      if d[0].0 != k {
        assert Keys(Put(d, k, v)) == [d[0].0] + Keys(Put(d[1..], k, v));
      } else {
        assert Keys(Put(d, k, v)) == [k] + Keys(d[1..]);
      }
    }
  }

  lemma {:induction false} PutLookup(d: Parameters, k: string, v: Option<string>, q: string)
    ensures Lookup(Put(d, k, v), q) == if q == k then Some(v) else Lookup(d, q)
    decreases |d|
  {
    if d != [] && d[0].0 != k {
      PutLookup(d[1..], k, v, q);
    }
  }

  /** The keys of the combined mapping are the names in order of first occurrence. */
  lemma {:induction false} CombineKeys(names: seq<string>, values: seq<Option<string>>)
    requires |names| == |values|
    ensures Keys(Combine(names, values)) == FirstOccurrences(names)
    decreases |names|
  {
    if names != [] {
      var n := |names| - 1;
      CombineKeys(names[..n], values[..n]);
      PutKeys(Combine(names[..n], values[..n]), names[n], values[n]);
    }
  }

  /** A name's value in the combined mapping is the value at its last occurrence: the last write wins. */
  lemma {:induction false} CombineLookup(names: seq<string>, values: seq<Option<string>>, k: string)
    requires |names| == |values|
    ensures Lookup(Combine(names, values), k) == if k in names then Some(values[LastIndex(names, k)]) else None
    decreases |names|
  {
    if names != [] {
      var n := |names| - 1;
      CombineLookup(names[..n], values[..n], k);
      PutLookup(Combine(names[..n], values[..n]), names[n], values[n], k);
      assert names == names[..n] + [names[n]];
      if k in names && names[n] != k {
        assert k in names[..n];
      }
    }
  }

  predicate Distinct(ks: seq<string>) {
    forall i, j :: 0 <= i < j < |ks| ==> ks[i] != ks[j]
  }

  /** Every name occurs once among the first occurrences, and no other string does. */
  lemma {:induction false} FirstOccurrencesDistinct(names: seq<string>)
    ensures Distinct(FirstOccurrences(names))
    ensures forall k :: k in FirstOccurrences(names) <==> k in names
    decreases |names|
  {
    if names != [] {
      var n := |names| - 1;
      FirstOccurrencesDistinct(names[..n]);
      assert names == names[..n] + [names[n]];
      var d0 := FirstOccurrences(names[..n]);
      if names[n] !in d0 {
        var d := d0 + [names[n]];
        assert d == FirstOccurrences(names);
        forall i, j | 0 <= i < j < |d| ensures d[i] != d[j] {
          assert d[i] == d0[i];
          if j == |d0| { assert d[i] in d0; } else { assert d[j] == d0[j]; }
        }
      }
    }
  }

  /** What `array_combine` does when the lists differ in length: it throws a ValueError. */
  datatype CombineError = CountMismatch(names: nat, values: nat)

  /** The reconciliation in `parse`: pad the values with null to the number of names, then combine. */
  function Reconcile(names: seq<string>, values: seq<Option<string>>): (r: Result<Parameters, CombineError>)
    ensures r.Failure? <==> |names| < |values|
  {
    var padded := Pad(values, |names|);
    if |padded| != |names| then Failure(CountMismatch(|names|, |padded|))
    else Success(Combine(names, padded))
  }

  /**
   * Reconciliation fails exactly when there are more values than names.
   * Otherwise the keys are the names in order of first occurrence, and each
   * name gets the value at its last position, or null when the values ran out
   * before that position.
   */
  lemma ReconcileSpec(names: seq<string>, values: seq<Option<string>>, k: string)
    ensures Reconcile(names, values).Failure? <==> |values| > |names|
    ensures Reconcile(names, values).Success? ==>
      var d := Reconcile(names, values).value;
      && Keys(d) == FirstOccurrences(names)
      && Lookup(d, k) == if k !in names then None
                         else if LastIndex(names, k) < |values| then Some(values[LastIndex(names, k)])
                         else Some(None)
  {
    if |values| <= |names| {
      var padded := Pad(values, |names|);
      CombineKeys(names, padded);
      CombineLookup(names, padded, k);
      if k in names && LastIndex(names, k) < |values| {
        assert padded[LastIndex(names, k)] == padded[..|values|][LastIndex(names, k)];
      }
    }
  }
}
