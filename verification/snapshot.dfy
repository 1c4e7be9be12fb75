/**
 * The snapshot builder: from a list of tracked paths and their contents, the tree of files
 * to materialize, with ignored paths dropped and text rewritten.
 */
module Snapshot {
  import opened Base
  import opened Sanitizer
  import opened PathFilter

  type Path = string

  /** A file tree: repository-relative path to content. */
  type Tree = map<Path, Bytes>

  /** A path goes into the tree when it is listed, not ignored, and its content could be read. */
  predicate Included(p: Path, files: seq<Path>, blobs: map<Path, Bytes>, patterns: seq<string>, matches: Matcher) {
    p in files && p in blobs && !IsIgnored(p, patterns, matches)
  }

  /**
   * The staged tree of one source commit. `blobs` holds the content of every path whose read
   * succeeded; a listed path missing from it failed to read and is skipped.
   */
  function BuildStagedTree(files: seq<Path>, blobs: map<Path, Bytes>, patterns: seq<string>, matches: Matcher, rules: seq<Rule>): (t: Tree)
    ensures forall p :: p in t <==> Included(p, files, blobs, patterns, matches)
    ensures forall p :: p in t ==> p in blobs && t[p] == StageContent(blobs[p], rules)
    decreases |files|
  {
    if files == [] then map[]
    else
      var rest := BuildStagedTree(files[1..], blobs, patterns, matches, rules);
      var p := files[0];
      assert forall q :: q in files <==> q == p || q in files[1..];
      if p in blobs && !IsIgnored(p, patterns, matches) then rest[p := StageContent(blobs[p], rules)]
      else rest
  }

  /** A path any pattern accepts, implicit or configured, is absent from every staged tree. */
  lemma IgnoredNeverStaged(p: Path, files: seq<Path>, blobs: map<Path, Bytes>, user: seq<string>, matches: Matcher, rules: seq<Rule>)
    requires matches(".git/**", p) || matches("node_modules/**", p)
      || exists k :: 0 <= k < |user| && matches(user[k], p)
    ensures p !in BuildStagedTree(files, blobs, IgnorePatterns(user), matches, rules)
  {
    IgnoredByAnyPattern(p, user, matches);
  }

  /** Adding ignore patterns can only remove files from the staged tree; the rest are unchanged. */
  lemma MorePatternsShrink(files: seq<Path>, blobs: map<Path, Bytes>, small: seq<string>, large: seq<string>, matches: Matcher, rules: seq<Rule>)
    requires forall k :: 0 <= k < |small| ==> small[k] in large
    ensures var a := BuildStagedTree(files, blobs, small, matches, rules);
            var b := BuildStagedTree(files, blobs, large, matches, rules);
            b.Keys <= a.Keys && forall p :: p in b ==> b[p] == a[p]
  {
    forall p | true
      ensures IsIgnored(p, small, matches) ==> IsIgnored(p, large, matches)
    {
      IgnoreMonotone(p, small, large, matches);
    }
  }

  /** A file whose read fails is omitted and every other file is staged exactly as before. */
  lemma ReadFailureIsolated(files: seq<Path>, blobs: map<Path, Bytes>, q: Path, patterns: seq<string>, matches: Matcher, rules: seq<Rule>)
    ensures BuildStagedTree(files, blobs - {q}, patterns, matches, rules)
         == BuildStagedTree(files, blobs, patterns, matches, rules) - {q}
  {
    var a := BuildStagedTree(files, blobs - {q}, patterns, matches, rules);
    var b := BuildStagedTree(files, blobs, patterns, matches, rules) - {q};
    assert a.Keys == b.Keys;
  }

  /**
   * The single-snapshot tree, read from the working directory. There a read failure is not
   * caught: the first listed, non-ignored path that cannot be read ends the run.
   */
  function BuildWorkingTree(files: seq<Path>, disk: map<Path, Bytes>, patterns: seq<string>, matches: Matcher, rules: seq<Rule>): (r: Result<Tree>)
    ensures r.Success? <==> forall k :: 0 <= k < |files| && !IsIgnored(files[k], patterns, matches) ==> files[k] in disk
    ensures r.Success? ==> r.value == BuildStagedTree(files, disk, patterns, matches, rules)
    ensures r.Failure? ==>
      (exists k :: 0 <= k < |files| && r.error == ReadFailed(files[k])
         && !IsIgnored(files[k], patterns, matches) && files[k] !in disk)
    decreases |files|
  {
    if files == [] then Success(map[])
    else
      var p := files[0];
      if IsIgnored(p, patterns, matches) then
        BuildWorkingTree(files[1..], disk, patterns, matches, rules)
      else if p !in disk then
        Failure(ReadFailed(p))
      else
        var rest := BuildWorkingTree(files[1..], disk, patterns, matches, rules);
        if rest.Failure? then rest else Success(rest.value[p := StageContent(disk[p], rules)])
  }
}
