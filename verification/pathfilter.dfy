/**
 * The path filter. Glob matching itself belongs to a foreign library; here it is a parameter
 * `matches(pattern, path)` standing for a matcher built with the options `dot`, `matchBase`
 * and case-sensitive comparison.
 */
module PathFilter {

  /** A glob matcher: does `pattern` accept the repository-relative `path`? */
  type Matcher = (string, string) -> bool

  /** Patterns that are always in force, ahead of the user's own. */
  const ImplicitPatterns: seq<string> := [".git/**", "node_modules/**"]

  /** The full pattern list: the implicit patterns followed by the configured ones, in order. */
  function IgnorePatterns(user: seq<string>): (ps: seq<string>)
    ensures |ps| == |user| + 2
    ensures ps[0] == ".git/**" && ps[1] == "node_modules/**"
    ensures ps[2..] == user
  {
    ImplicitPatterns + user
  }

  /** A path is ignored when some matcher in the list accepts it. */
  predicate IsIgnored(path: string, patterns: seq<string>, matches: Matcher) {
    if patterns == [] then false
    else matches(patterns[0], path) || IsIgnored(path, patterns[1..], matches)
  }

  /** The list is tried in order, but the answer is simply whether some pattern accepts the path. */
  lemma {:induction false} IgnoredIffSomeMatch(path: string, patterns: seq<string>, matches: Matcher)
    ensures IsIgnored(path, patterns, matches) <==>
      exists k :: 0 <= k < |patterns| && matches(patterns[k], path)
  {
    if patterns != [] {
      IgnoredIffSomeMatch(path, patterns[1..], matches);
      if exists k :: 0 <= k < |patterns| && matches(patterns[k], path) {
        var k :| 0 <= k < |patterns| && matches(patterns[k], path);
        if k > 0 {
          assert patterns[1..][k - 1] == patterns[k];
        }
      }
      if IsIgnored(path, patterns[1..], matches) {
        var k :| 0 <= k < |patterns[1..]| && matches(patterns[1..][k], path);
        assert patterns[k + 1] == patterns[1..][k];
      }
    }
  }

  /** Anything a configured pattern or an implicit pattern accepts is ignored. */
  lemma IgnoredByAnyPattern(path: string, user: seq<string>, matches: Matcher)
    ensures matches(".git/**", path) ==> IsIgnored(path, IgnorePatterns(user), matches)
    ensures matches("node_modules/**", path) ==> IsIgnored(path, IgnorePatterns(user), matches)
    ensures forall k :: 0 <= k < |user| && matches(user[k], path) ==>
      IsIgnored(path, IgnorePatterns(user), matches)
  {
    var ps := IgnorePatterns(user);
    IgnoredIffSomeMatch(path, ps, matches);
    assert ps[0] == ".git/**" && ps[1] == "node_modules/**";
    forall k | 0 <= k < |user| && matches(user[k], path)
      ensures IsIgnored(path, ps, matches)
    {
      assert ps[k + 2] == user[k];
    }
  }

  /** More patterns can only ignore more paths. */
  lemma {:induction false} IgnoreMonotone(path: string, small: seq<string>, large: seq<string>, matches: Matcher)
    requires forall k :: 0 <= k < |small| ==> small[k] in large
    ensures IsIgnored(path, small, matches) ==> IsIgnored(path, large, matches)
  {
    IgnoredIffSomeMatch(path, small, matches);
    IgnoredIffSomeMatch(path, large, matches);
    if IsIgnored(path, small, matches) {
      var k :| 0 <= k < |small| && matches(small[k], path);
      var j :| 0 <= j < |large| && large[j] == small[k];
      assert matches(large[j], path);
    }
  }
}
