# weew/url-matcher in Dafny

A model of the URL template matcher of `weew/url-matcher`. The model covers
`UrlMatcher`, which compiles route templates such as `/users/{id}/{slug?}`
into regular expressions and uses them to match and parse paths. It also
covers `MatchPattern`, the immutable descriptor of one placeholder override.

The model is split into modules:

| file | module | what it holds |
|---|---|---|
| `wrappers.dfy` | `Wrappers` | `Option` (PHP's `null` beside a string) and `Result` (an operation that may throw) |
| `scanning.dfy` | `Scanning` | One scan engine for every text substitution. It does leftmost, non-overlapping replacement of a literal (`str_replace`, and `preg_replace` with a quoted locator) or of the three fixed placeholder regexes. It also holds the theorem that a substitution leaves no match behind. |
| `match_pattern.dfy` | `MatchPatterns` | The `MatchPattern` datatype, `preg_quote`, and the two derived strings |
| `compilation.dfy` | `Compilation` | The custom pass, the fallback pass and the `#` delimiters, with their properties |
| `slashes.dfy` | `Slashes` | `addTrailingSlash` and `removeTrailingSlash` |
| `extraction.dfy` | `Extraction` | Name listing, value flattening and normalisation, and `array_pad`/`array_combine` on an ordered name-to-value list |
| `url_matcher.dfy` | `UrlMatching` | The `UrlMatcher` class, a regular-expression oracle, `match`, `parse`, `replace` and `replaceAll`, with their properties |

How the pieces are modelled:
- The descriptor list is a `seq<MatchPattern>` field of the `UrlMatcher` class. `AddPattern` and `SetPatterns` reassign it.
- The loops of the PHP code are `while` loops in methods. Each method is proved equal to a specification function: `ApplyCustom`, `CompiledRegex`, `ParameterNames`, `ProcessedValues`, `LocalPairs` and `ReplacedAll`.
- `MatchPattern` has no mutable state, so it is a datatype. Its derived strings are member functions of the three fields, which makes it impossible to change them after construction.
- `preg_match_all` is a parameter, `oracle: RegexOracle`. It maps a regex and a subject to `None` (PCRE error) or to the match groups in pattern order (group 0 holds the whole matches). Every property of `match` and `parse` holds for every oracle.

What is proved, in short:
- **Trailing slashes.** `match` and `parse` give the same result for `p` and `p + "/"` whenever `p` does not already end with `/`. When `p` does end with `/`, the two normalise differently; `Slashes.NormalisationAbsorbsOneSlash` is the if-and-only-if.
- **What a successful match means.** `match` is true only when there is exactly one whole match and that match covers the whole normalised path.
- **`preg_quote`.** Quoted text reads back as itself (`UnescapeQuote`). So a locator matches exactly `{name}` or `{name?}`, and two locators are equal exactly when their tokens are. A required descriptor named `x?` therefore has the same locator as the optional descriptor named `x`.
- **Fallback pass.**
  - No `{id}` or `{id?}` token of the template grammar survives the fallback pass. This includes brace tokens that a custom sub-pattern brought in.
  - Token by token, left to right: each `{id}` becomes `([^/]+)` and each `{id?}` becomes `([^/]+)?`, and text without `{` between tokens is kept.
  - A quantifier such as `{4}` inside a custom sub-pattern is rewritten the same way.
- **Precedence.** The pair registered last consumes its tokens, so an older pair for the same name finds nothing left to replace.
- **Name listing.**
  - Name tokens are listed in template order, each name without its `?` characters.
  - A placeholder such as `{user_id}` is not listed, because `_` and `-` are outside the name grammar `[a-zA-Z0-9?]`.
  - Such a placeholder still gets a capture group in the compiled regex. On a template whose only placeholder is of this kind, no name is listed, so `parse` fails whenever the engine captures a value.
- **Reconciliation.**
  - `parse` fails exactly when there are more values than names.
  - Otherwise the keys are the names in order of first occurrence, each once.
  - A repeated name takes the value at its last position, and names beyond the values get `null`.
- **`replace`.**
  - It replaces every `{key}` token, left to right, whatever the value (the empty string included), and leaves a path without the token unchanged; other tokens stay.
  - It leaves no token behind when the value cannot form one.
  - `replaceAll` composes over concatenated lists, and replacements chain: a value inserted by one entry is seen by the next.

Three behaviours of the code are worth stating outright:
- **Registration order.** `addPattern` unshifts the required descriptor, then the optional one, so the optional descriptor is at index 0 and the required one at index 1 (`UrlMatcher.AddPattern`).
- **Reconciliation.** `parse` only pads the values with `array_pad`; it never truncates them. `array_combine` throws when there are more values than names, and the model returns `Failure(CountMismatch(..))` in that case.
- **Name grammar.** Names are listed with `[a-zA-Z0-9?]+`, which is narrower than the placeholder grammar `[a-zA-Z0-9_-]+` of the fallback pass.

## Model

| member | source | states |
|---|---|---|
| MatchPatterns.GettersReturnArguments | src/Weew/UrlMatcher/MatchPattern.php:14-30 | A descriptor built from a name and a sub-pattern alone is required. Its name and pattern are the constructor arguments, its token is `{name}` and its fragment is `(pattern)`. |
| MatchPatterns.Quote | src/Weew/UrlMatcher/MatchPattern.php:45-46 | The output of `preg_quote` is at least as long as its input and at most four times as long: each character stays, gains a backslash, or (NUL) becomes `\000`. `MatchPatterns.UnescapeQuote` shows that it reads back as the input. |
| MatchPatterns.CreateRegexName | src/Weew/UrlMatcher/MatchPattern.php:42-47 | The locator is `#`-delimited, opens with the escaped `\{` and closes with `\}#`, with `\?\}#` when optional. It is 6 (required) or 8 (optional) characters longer than the quoted name. |
| MatchPatterns.UnescapeQuote | src/Weew/UrlMatcher/MatchPattern.php:45-46 | `preg_quote` output, read as a regex literal, gives back the quoted text whatever follows it. |
| MatchPatterns.QuoteConcat | src/Weew/UrlMatcher/MatchPattern.php:45-46 | `preg_quote` distributes over concatenation. |
| MatchPatterns.RegexNameLocatesToken | src/Weew/UrlMatcher/MatchPattern.php:42-47 | The locator regex matches exactly the literal `{name}` (required) or `{name?}` (optional). |
| MatchPatterns.RegexNameDeterminedByToken | src/Weew/UrlMatcher/MatchPattern.php:42-47 | Two locators are equal if and only if the tokens they locate are equal. |
| MatchPatterns.CreateRegexPattern | src/Weew/UrlMatcher/MatchPattern.php:49-54 | The fragment is 2 (required) or 3 (optional) characters longer than the pattern. It starts with `(`, has the pattern verbatim from index 1 followed by `)`, and ends in `?` exactly when optional. |
| MatchPatterns.OptionalAndRequiredDiffer | src/Weew/UrlMatcher/MatchPattern.php:42-54 | The optional and required descriptors for one name and pattern agree on both getters and differ in both derived strings. |
| Scanning.RunLength | src/Weew/UrlMatcher/UrlMatcher.php:110-111 | The greedy run of class characters is maximal: every character before it is in the class, and the one after it is not. |
| Scanning.SubstituteLeavesNoMatch | src/Weew/UrlMatcher/UrlMatcher.php:108-112 | After replacing every match of `m` by a fragment that cannot take part in a match of `h`, no match of `h` remains, whether `h` is `m` itself or was absent before. |
| Scanning.SubstituteWithoutMatch | src/Weew/UrlMatcher/UrlMatcher.php:57 | A subject without a match comes back unchanged. |
| Scanning.SubstituteByItself | src/Weew/UrlMatcher/UrlMatcher.php:57 | Replacing a literal by itself changes nothing. |
| Scanning.SubstituteSkipsPrefix | src/Weew/UrlMatcher/UrlMatcher.php:57 | Text free of the search's first character is copied unchanged, and the scan resumes after it. |
| Slashes.AddTrailingSlash | src/Weew/UrlMatcher/UrlMatcher.php:163-170 | The result ends with `/`, keeps the input as its prefix and is at most one character longer. |
| Slashes.AddTrailingSlashIdempotent | src/Weew/UrlMatcher/UrlMatcher.php:163-170 | Adding the slash twice is the same as adding it once. |
| Slashes.RemoveTrailingSlash | src/Weew/UrlMatcher/UrlMatcher.php:172-179 | Either the input did not end with `/` and is returned as it is, or the result plus `/` is the input: one final `/` is dropped and nothing else changes. |
| Slashes.RemoveAfterAdd | src/Weew/UrlMatcher/UrlMatcher.php:163-179 | Removing the added slash gives back a string that did not end with `/`. |
| Slashes.NormalisationAbsorbsOneSlash | src/Weew/UrlMatcher/UrlMatcher.php:163-170 | `p` and `p + "/"` normalise to the same string if and only if `p` does not end with `/`. |
| Compilation.ApplySpecReplacesToken | src/Weew/UrlMatcher/UrlMatcher.php:99-106 | One step of the custom pass replaces exactly the descriptor's token by its fragment. |
| Compilation.ApplySpec | src/Weew/UrlMatcher/UrlMatcher.php:102 | A custom step leaves text without its descriptor's token unchanged. |
| Compilation.CompiledRegex | src/Weew/UrlMatcher/UrlMatcher.php:91-97 | The compiled regex starts and ends with `#`. No `{id}` or `{id?}` token of the placeholder grammar is left between the delimiters. |
| Compilation.StandardPassLeavesNoPlaceholder | src/Weew/UrlMatcher/UrlMatcher.php:108-112 | After the fallback pass, no `{id?}` and no `{id}` token remains. |
| Compilation.ApplyStandard | src/Weew/UrlMatcher/UrlMatcher.php:108-112 | Text without `{` goes through the fallback pass unchanged. |
| Compilation.FallbackReplacesRequiredToken | src/Weew/UrlMatcher/UrlMatcher.php:108-112 | A `{id}` after text without `{` becomes `([^/]+)`, the text before it is kept, and the rest goes through the fallback pass on its own. A custom quantifier such as `{4}` is one such token. |
| Compilation.FallbackReplacesOptionalToken | src/Weew/UrlMatcher/UrlMatcher.php:108-112 | A `{id?}` after text without `{` becomes `([^/]+)?`, the text before it is kept, and the rest goes through the fallback pass on its own. |
| Compilation.ApplyCustomAppend | src/Weew/UrlMatcher/UrlMatcher.php:99-106 | The custom pass over two lists in a row is the pass over the first, then over the second. |
| Compilation.ApplyCustomPair | src/Weew/UrlMatcher/UrlMatcher.php:99-106 | A registered pair applies the optional descriptor first, then the required one. |
| Compilation.NewestPairConsumesTokens | src/Weew/UrlMatcher/UrlMatcher.php:85-106 | After the front pair for `name` has been applied, no `{name?}` and no `{name}` token remains. |
| Compilation.LastRegistrationWins | src/Weew/UrlMatcher/UrlMatcher.php:85-106 | A pair registered in front of an older pair for the same name leaves the older one nothing to replace, so the newer sub-pattern decides. |
| Compilation.PairWithoutTokensKeeps | src/Weew/UrlMatcher/UrlMatcher.php:99-106 | A registered pair leaves text that holds neither `{name?}` nor `{name}` unchanged. |
| Extraction.CapturedNames | src/Weew/UrlMatcher/UrlMatcher.php:118-120 | Every group the name scan captures is one or more characters of `[a-zA-Z0-9?]`. |
| Extraction.CapturedNamesSkipPrefix | src/Weew/UrlMatcher/UrlMatcher.php:118 | Text before the first `{` contributes no name. |
| Extraction.NameTokenListed | src/Weew/UrlMatcher/UrlMatcher.php:114-125 | A name token `{g}` after text without `{` is listed as `g` without `?`, ahead of the names of the rest of the template. |
| Extraction.NamesListedInOrder | src/Weew/UrlMatcher/UrlMatcher.php:114-125 | Two name tokens separated by text without `{` are listed as exactly those two names, in template order. |
| Extraction.NameScanSkipsOtherChars | src/Weew/UrlMatcher/UrlMatcher.php:114-125 | A placeholder whose name reaches a character outside `[a-zA-Z0-9?]`, such as `{user_id}`, is not listed, and the names after it are listed as if it were not there. |
| Extraction.UnlistedPlaceholderAlone | src/Weew/UrlMatcher/UrlMatcher.php:114-125 | A template whose only placeholder is of that kind lists no name. |
| Extraction.WithoutQuestionMarks | src/Weew/UrlMatcher/UrlMatcher.php:121 | A captured name without `?` is kept as it is. |
| Extraction.WithoutQuestionMarksKeepsOthers | src/Weew/UrlMatcher/UrlMatcher.php:121 | Removing `?` keeps the count of every other character and leaves no `?`. |
| Extraction.WithoutQuestionMarksChar | src/Weew/UrlMatcher/UrlMatcher.php:121 | On one character, removing `?` deletes a `?` and keeps any other character. |
| Extraction.WithoutQuestionMarksAppend | src/Weew/UrlMatcher/UrlMatcher.php:121 | Removing `?` from a concatenation is removing it from each part, so the other characters keep their order. |
| Extraction.NameIsAlphanumeric | src/Weew/UrlMatcher/UrlMatcher.php:118-121 | A listed name consists of letters and digits only. |
| Extraction.ParameterNames | src/Weew/UrlMatcher/UrlMatcher.php:114-125 | There is one name per captured group, each alphanumeric. |
| Extraction.NormalizeValue | src/Weew/UrlMatcher/UrlMatcher.php:149-153 | A value becomes null if and only if it is `""`. Otherwise it is the capture, or the capture without one final `/`. |
| Extraction.NormalizeAll | src/Weew/UrlMatcher/UrlMatcher.php:146-158 | One normalised value per captured value. |
| Extraction.FlattenLayout | src/Weew/UrlMatcher/UrlMatcher.php:142-161 | Flattening is group-major: value `j` of group `g` stands after all values of the earlier groups, and the count is preserved. |
| Extraction.Pad | src/Weew/UrlMatcher/UrlMatcher.php:50 | `array_pad` keeps the values as a prefix and appends nulls up to the number of names, never shortening. |
| Extraction.PutKeys | src/Weew/UrlMatcher/UrlMatcher.php:50 | Assigning an existing key keeps the key order, and a new key goes last. |
| Extraction.PutLookup | src/Weew/UrlMatcher/UrlMatcher.php:50 | After assignment the key holds the new value, and other keys are unchanged. |
| Extraction.CombineKeys | src/Weew/UrlMatcher/UrlMatcher.php:50 | The keys of `array_combine` are the names in order of first occurrence. |
| Extraction.CombineLookup | src/Weew/UrlMatcher/UrlMatcher.php:50 | A name's value is the value at its last position (last write wins). A string that is not a name has no value. |
| Extraction.FirstOccurrencesDistinct | src/Weew/UrlMatcher/UrlMatcher.php:50 | The keys are pairwise distinct and are exactly the names. |
| Extraction.Reconcile | src/Weew/UrlMatcher/UrlMatcher.php:50 | Reconciliation fails if and only if there are more values than names; `Extraction.ReconcileSpec` gives the successful result. |
| Extraction.ReconcileSpec | src/Weew/UrlMatcher/UrlMatcher.php:50 | Reconciliation fails if and only if there are more values than names. Otherwise: the keys are the names in first-occurrence order; each name gets the value at its last position, or null past the end of the values; a non-name has no entry. |
| UrlMatching.UrlMatcher.constructor | src/Weew/UrlMatcher/UrlMatcher.php:17-20 | A new matcher holds exactly the optional and required `any`/`.+` descriptors. |
| UrlMatching.UrlMatcher.AddDefaultPatterns | src/Weew/UrlMatcher/UrlMatcher.php:204-207 | The `any`/`.+` pair is put in front of the list. |
| UrlMatching.UrlMatcher.GetPatterns | src/Weew/UrlMatcher/UrlMatcher.php:72-75 | Returns the stored list. |
| UrlMatching.UrlMatcher.SetPatterns | src/Weew/UrlMatcher/UrlMatcher.php:80-83 | Replaces the stored list. |
| UrlMatching.UrlMatcher.AddPattern | src/Weew/UrlMatcher/UrlMatcher.php:85-89 | The list grows by two: the optional descriptor at index 0, the required one at index 1, then the old list unchanged. |
| UrlMatching.UrlMatcher.MergeWithLocalPatterns | src/Weew/UrlMatcher/UrlMatcher.php:184-194 | Returns one pair per override, the last override first, followed by the stored list. The stored list is not modified. |
| UrlMatching.LocalPairsLayout | src/Weew/UrlMatcher/UrlMatcher.php:184-194 | The override pairs take two entries per override, and pair `j` from the front belongs to override `j` from the back. |
| UrlMatching.UrlMatcher.ApplyCustomRegexPatterns | src/Weew/UrlMatcher/UrlMatcher.php:99-106 | The loop computes the custom pass: the descriptors are applied in list order. |
| UrlMatching.UrlMatcher.CreateRegexPattern | src/Weew/UrlMatcher/UrlMatcher.php:91-97 | Computes the compiled regex, with the delimiter and no-token-left properties of `Compilation.CompiledRegex`. |
| UrlMatching.UrlMatcher.ExtractParameterNames | src/Weew/UrlMatcher/UrlMatcher.php:114-125 | The loop lists the captured names without `?`, in template order. |
| UrlMatching.UrlMatcher.ProcessParameterValues | src/Weew/UrlMatcher/UrlMatcher.php:142-161 | The nested loops compute the flattened, normalised values. |
| UrlMatching.UrlMatcher.ExtractParameterValues | src/Weew/UrlMatcher/UrlMatcher.php:130-140 | Processes every group after group 0 of the engine's answer on the normalised path. |
| UrlMatching.UrlMatcher.Match | src/Weew/UrlMatcher/UrlMatcher.php:25-40 | True exactly when the engine reports one whole match and that match, normalised, equals the normalised path. The descriptors used are the overrides merged in front of the stored list. |
| UrlMatching.UrlMatcher.Parse | src/Weew/UrlMatcher/UrlMatcher.php:45-53 | The reconciliation of the listed names with the extracted values. |
| UrlMatching.UrlMatcher.ReplaceAll | src/Weew/UrlMatcher/UrlMatcher.php:60-67 | The loop applies `replace` once per entry, in order. |
| UrlMatching.MatchTrailingSlashInvariant | src/Weew/UrlMatcher/UrlMatcher.php:29-36 | For any engine, `match` on `p` and on `p + "/"` agree when `p` does not end with `/`. |
| UrlMatching.ParseTrailingSlashInvariant | src/Weew/UrlMatcher/UrlMatcher.php:130-140 | For any engine, `parse` on `p` and on `p + "/"` agree when `p` does not end with `/`. |
| UrlMatching.MatchCoversWholePath | src/Weew/UrlMatcher/UrlMatcher.php:33-39 | A successful match saw exactly one whole match, equal to the normalised path or to that path without its final `/`. |
| UrlMatching.ParseKeysAndFailure | src/Weew/UrlMatcher/UrlMatcher.php:45-53 | `parse` fails exactly when more values were captured than names listed. Otherwise its keys are the listed names, each once, in order of first occurrence. |
| UrlMatching.UnlistedPlaceholderBreaksParse | src/Weew/UrlMatcher/UrlMatcher.php:48-50 | On a template whose only placeholder name holds a character outside `[a-zA-Z0-9?]`, `parse` fails as soon as a value is captured. |
| UrlMatching.Replace | src/Weew/UrlMatcher/UrlMatcher.php:55-58 | A path without `{key}` comes back unchanged. |
| UrlMatching.ReplaceLeavesNoToken | src/Weew/UrlMatcher/UrlMatcher.php:55-58 | No `{key}` is left when the value is non-empty, holds no `{`, and does not start with a character of `key}`. |
| UrlMatching.ReplaceLeadingToken | src/Weew/UrlMatcher/UrlMatcher.php:55-58 | With no `{` before it, the first `{key}` becomes the value and the replacement goes on in the rest of the path, for any value. |
| UrlMatching.ReplaceSingleToken | src/Weew/UrlMatcher/UrlMatcher.php:55-58 | With no `{` before the token and no `{key}` after it, `replace` turns the one `{key}` into the value and keeps every other character, other tokens included. |
| UrlMatching.ReplaceBothTokens | src/Weew/UrlMatcher/UrlMatcher.php:55-58 | Two `{key}` tokens between texts without `{` are both replaced, so `replace("/{a}/{a}", "a", "")` is `"//"`. |
| UrlMatching.ReplaceIdentities | src/Weew/UrlMatcher/UrlMatcher.php:55-67 | An empty replacement list is the identity, and replacing a token by itself changes nothing. |
| UrlMatching.ReplacedAllAppend | src/Weew/UrlMatcher/UrlMatcher.php:60-67 | `replaceAll` over two lists in a row is `replaceAll` over the first, then over the second. |
| UrlMatching.ReplacementsChain | src/Weew/UrlMatcher/UrlMatcher.php:60-67 | Replacements apply in order: with entries `(a, "{b}")` then `(b, v)`, the token `{a}` ends up as `v`. |

## Left out

- The PCRE engine. `preg_match_all` (src/Weew/UrlMatcher/UrlMatcher.php:33, 136) is the parameter `oracle`, so which paths a compiled regex accepts, and with which captures, is not modelled. This also leaves out:
  - the backtracking cost of user sub-patterns;
  - the behaviour of the `any` descriptor's `.+` across slashes;
  - concrete accept/reject examples (`/{any}` against `/`, a numeric sub-pattern against a non-numeric segment);
  - the `replaceAll`-then-`parse` round trip.
- `preg_replace` interprets `$` and `\` sequences in a replacement: `$1` and `\1` are back-references, `\\` becomes `\` and `\$` becomes `$`, so the sub-pattern `\$\d+` reaches the regex as `$\d+`. The custom pass inserts the fragment verbatim (`Compilation.ApplySpec`), which assumes sub-patterns contain no `$` or `\` sequence that the replacement syntax interprets.
- Locator regexes are read as literals (`MatchPatterns.LiteralOf`). This reading is right for the output of `preg_quote` between `#` delimiters. Arbitrary regexes, for instance from other implementations of `MatchPatternInterface` given to `setPatterns`, are not modelled: the list holds `MatchPattern` values only.
- `Weew\Collections\Dictionary`, the helper `s()` and `array_get()` come from other packages and are not part of this model. The parse result is an ordered list of (name, optional value) pairs, `s('{%s}', k)` is `"{" + k + "}"`, and `array_get($matches, '0.0')` is the first whole match.
- PHP's conversion of numeric-string array keys to integers is not modelled. Under `strict_types` it makes `replaceAll` or the override loop raise a `TypeError` for a key such as `"5"`. PHP arrays also cannot hold a key twice; the model's lists of pairs can, which only generalises the loops.
- PHP strings are byte strings; the model uses sequences of characters. For valid UTF-8 templates and paths this changes nothing, because every character class, escape and delimiter involved is ASCII.
- The loose `==` in `match` compares two strings that both end in `/`, so they are never numeric strings and it acts as string equality. It is modelled as equality.
- `is_array($group)` in `processParameterValues` always holds for `preg_match_all` results in pattern order, so the branch that skips a group is not modelled.
- Compilation.NewestPairConsumesTokens: proved only for names without `(` and sub-patterns without `{`. A sub-pattern holding its own `{name}` token would bring the token back in. The condition is sufficient, not necessary: it also excludes every quantifier sub-pattern such as `[0-9]{4}`, whose fragment `([0-9]{4})` cannot recreate `{year}`; the property still holds for those but is not proved.
- Compilation.LastRegistrationWins: proved under the same sufficient condition as `Compilation.NewestPairConsumesTokens`, so quantifier sub-patterns of the newer registration, such as `[0-9]{4}`, are not covered.
- UrlMatching.ReplaceLeavesNoToken: proved only for values that cannot form the token with the text around them. For other values, `str_replace` can leave a token behind.
