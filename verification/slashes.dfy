/** Trailing-slash normalisation of UrlMatcher (src/Weew/UrlMatcher/UrlMatcher.php). */
module Slashes {

  predicate EndsWithSlash(s: string) {
    |s| > 0 && s[|s| - 1] == '/'
  }

  /**
   * `addTrailingSlash`: append `/` unless the string already ends with one.
   * The result ends with `/`, keeps `s` as its prefix and adds at most one character.
   */
  function AddTrailingSlash(s: string): (r: string)
    ensures |s| <= |r| <= |s| + 1 && EndsWithSlash(r) && r[..|s|] == s
  {
    if EndsWithSlash(s) then s else s + "/"
  }

  /** `removeTrailingSlash`: drop one final `/`, if there is one, and nothing else. */
  function RemoveTrailingSlash(s: string): (r: string)
    ensures (r == s && !EndsWithSlash(s)) || r + "/" == s
  {
    if EndsWithSlash(s) then s[..|s| - 1] else s
  }

  lemma AddTrailingSlashIdempotent(s: string)
    ensures AddTrailingSlash(AddTrailingSlash(s)) == AddTrailingSlash(s)
  {
  }

  /** Removing the slash that was added gives back the original string. */
  lemma RemoveAfterAdd(s: string)
    requires !EndsWithSlash(s)
    ensures RemoveTrailingSlash(AddTrailingSlash(s)) == s
  {
  }

  /** `p` and `p + "/"` normalise to the same string exactly when `p` does not already end with `/`. */
  lemma NormalisationAbsorbsOneSlash(p: string)
    ensures AddTrailingSlash(p) == AddTrailingSlash(p + "/") <==> !EndsWithSlash(p)
  {
    if EndsWithSlash(p) {
      assert |AddTrailingSlash(p + "/")| == |p| + 1;
    }
  }
}
