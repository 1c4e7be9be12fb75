/**
 * A whole mirror run: configuration, token, file listing, then either the history replay or
 * the single snapshot, ending in what would be pushed. Git, the file system and the network
 * are replaced by the data they would return.
 */
module Engine {
  import opened Base
  import opened Text
  import opened Sanitizer
  import opened PathFilter
  import opened Snapshot
  import opened GitParse
  import opened Config
  import opened Remote
  import opened Replay

  /**
   * The source repository as a run sees it: the output of `git ls-files -z` (`None` when that
   * command fails), the working directory's readable files, and the first-parent history,
   * oldest commit first.
   */
  datatype Source = Source(lsFiles: Option<string>, disk: map<Path, Bytes>, history: seq<SourceCommit>)

  /**
   * What a successful run leaves to push, or that it found nothing to publish. `ReplacedBranch`
   * is a forced push of a commit without parent: the branch's earlier history and files give
   * way to the staged files alone.
   */
  datatype Outcome =
    | PushedHistory(remote: string, branch: string, force: bool, commits: seq<MirrorCommit>)
    | PushedSnapshot(remote: string, branch: string, force: bool, tree: Tree, message: string)
    | ReplacedBranch(remote: string, branch: string, tree: Tree, message: string)
    | NothingToPublish

  const SnapshotMessage := "dupligit: sanitized mirror"

  /**
   * The single-snapshot working copy: the files of the target branch as fetched (`None` when
   * the fetch failed and a new branch is started) with the staged files written over them.
   */
  function SnapshotTree(base: Option<Tree>, staged: Tree): (w: Tree)
    ensures w.Keys == staged.Keys + base.GetOr(map[]).Keys
    ensures forall p :: p in staged ==> w[p] == staged[p]
    ensures forall p :: p in base.GetOr(map[]) && p !in staged ==> w[p] == base.GetOr(map[])[p]
  {
    CopyInto(staged, base.GetOr(map[]))
  }

  /** `git status` reports changes exactly when some staged file is new or differs from the base. */
  predicate HasChanges(base: Option<Tree>, staged: Tree)
    ensures HasChanges(base, staged) <==>
      exists p :: p in staged && (p !in base.GetOr(map[]) || base.GetOr(map[])[p] != staged[p])
  {
    var b := base.GetOr(map[]);
    var w := SnapshotTree(base, staged);
    assert (forall p :: p in staged ==> p in b && b[p] == staged[p]) ==> w == b by {
      if forall p :: p in staged ==> p in b && b[p] == staged[p] {
        assert w.Keys == b.Keys;
      }
    }
    w != b
  }

  /**
   * Some history commit reads as a message git refuses; the history loop stops at the first
   * such commit, before anything is pushed.
   */
  predicate HasBlankMessage(commits: seq<SourceCommit>, cfg: MirrorConfig, matches: Matcher, now: string) {
    exists i :: 0 <= i < |commits| && IsBlankMessage(Prepare(commits[i], cfg, matches, now).message)
  }

  /**
   * The run with the evident intent of lib/dupligit.js carried out: in the snapshot mode the
   * target branch is checked out before the staged files are written over it. Whether the
   * remote accepts the history mode's push is not decided here: its outcome is the history that
   * would be pushed.
   */
  function Run(raw: RawConfig, env: Env, cmdOut: Option<string>, src: Source, target: Option<Tree>,
               matches: Matcher, now: string, force: bool): (r: Result<Outcome>)
    ensures !Truthy(raw.targetRepo) ==> r == Failure(MissingTargetRepo)
    ensures Truthy(raw.targetRepo) && src.lsFiles.None? ==> r == Failure(ListFilesFailed)
    ensures Truthy(raw.targetRepo) && raw.preserveHistory && src.lsFiles.Some? ==>
      (r.Failure? <==> src.history == [] || HasBlankMessage(src.history, Configure(raw).value, matches, now))
    ensures r.Success? && raw.preserveHistory ==>
      r.value.PushedHistory? && |r.value.commits| == |src.history|
      && forall i :: 0 <= i < |src.history| ==>
           Mirrors(r.value.commits[i], src.history[i], Configure(raw).value, matches, now)
    ensures r.Success? && !raw.preserveHistory ==> !r.value.PushedHistory?
    ensures r.Failure? && raw.preserveHistory ==>
      r.error in {MissingTargetRepo, ListFilesFailed, NoCommits, EmptyCommitMessage}
    ensures r.Success? ==> !r.value.ReplacedBranch?
    ensures r.Success? && (r.value.PushedHistory? || r.value.PushedSnapshot?) ==>
      && r.value.branch != "" && r.value.force == force
      && var cfg := Configure(raw).value;
         r.value.remote == ResolveTargetRemoteUrl(cfg.targetRepo, PrimeTokenEnv(env, cfg.tokenCommand, cmdOut),
                                                  cfg.tokenCommand, cmdOut)
  {
    var cfg :- Configure(raw);
    var env1 := PrimeTokenEnv(env, cfg.tokenCommand, cmdOut);
    var patterns := IgnorePatterns(cfg.ignore);
    if src.lsFiles.None? then Failure(ListFilesFailed)
    else
      var files := ParseTreeListing(src.lsFiles.value);
      var url := ResolveTargetRemoteUrl(cfg.targetRepo, env1, cfg.tokenCommand, cmdOut);
      if cfg.preserveHistory then
        if src.history == [] then Failure(NoCommits)
        else if HasBlankMessage(src.history, cfg, matches, now) then Failure(EmptyCommitMessage)
        else
          var mirror := Replay.Replay(FreshMirror, src.history, cfg, matches, now);
          ReplayOneToOne(src.history, cfg, matches, now);
          Success(PushedHistory(url, cfg.targetBranch, force, mirror.log))
      else
        var staged :- BuildWorkingTree(files, src.disk, patterns, matches, cfg.rules);
        if !HasChanges(target, staged) then Success(NothingToPublish)
        else Success(PushedSnapshot(url, cfg.targetBranch, force, SnapshotTree(target, staged), SnapshotMessage))
  }

  /**
   * A fetched file and a staged file stand in each other's way: the same path, or one of them
   * a directory on the other's path.
   */
  predicate Clashes(fetched: Tree, staged: Tree) {
    exists p, q :: p in fetched && q in staged && (p == q || IsPrefix(p + "/", q) || IsPrefix(q + "/", p))
  }

  /**
   * What the snapshot mode as written has checked out when it stages: the staged files are
   * already in the working directory, so `git checkout -B <branch> FETCH_HEAD` refuses to
   * overwrite them whenever the fetched tree clashes with them, and the fallback
   * `git checkout -B <branch>` leaves an unborn branch with only the staged files.
   */
  function CheckedOutAsWritten(target: Option<Tree>, staged: Tree): (base: Option<Tree>)
    ensures base.Some? <==> target.Some? && !Clashes(target.value, staged)
    ensures base.Some? ==> base == target
  {
    if target.Some? && Clashes(target.value, staged) then None else target
  }

  /**
   * The run as lib/dupligit.js writes it. The history mode reaches `tmpRoot` before its
   * declaration, after first tripping over the token argument and, with an SSH key, over
   * `require`, which an ES module does not have. The snapshot mode trips over `require`
   * whenever an SSH key is configured, and otherwise writes the staged files before it checks
   * out the target branch: when they clash, the commit has no parent, so the push is rejected,
   * or with `--force` replaces the branch.
   */
  function RunAsWritten(raw: RawConfig, env: Env, cmdOut: Option<string>, src: Source, target: Option<Tree>,
                        matches: Matcher, now: string, force: bool): (r: Result<Outcome>)
    ensures r.Success? ==> !raw.preserveHistory
    ensures r.Success? && r.value.ReplacedBranch? ==> force && target.Some?
  {
    var cfg :- Configure(raw);
    var env1 := PrimeTokenEnv(env, cfg.tokenCommand, cmdOut);
    var patterns := IgnorePatterns(cfg.ignore);
    if src.lsFiles.None? then Failure(ListFilesFailed)
    else if cfg.preserveHistory then
      if src.history == [] then Failure(NoCommits)
      else
        var _ :- HistoryRemoteUrlAsWritten(cfg.targetRepo, env1);
        if Truthy(cfg.sshKey) then Failure(RequireUndefined) else Failure(TmpRootBeforeInit)
    else
      var files := ParseTreeListing(src.lsFiles.value);
      var staged :- BuildWorkingTree(files, src.disk, patterns, matches, cfg.rules);
      var url := ResolveTargetRemoteUrl(cfg.targetRepo, env1, cfg.tokenCommand, cmdOut);
      if Truthy(cfg.sshKey) then Failure(RequireUndefined)
      else
        var base := CheckedOutAsWritten(target, staged);
        if !HasChanges(base, staged) then Success(NothingToPublish)
        else if target.Some? && base.None? then
          if force then Success(ReplacedBranch(url, cfg.targetBranch, staged, SnapshotMessage))
          else Failure(PushRejected)
        else Success(PushedSnapshot(url, cfg.targetBranch, force, SnapshotTree(base, staged), SnapshotMessage))
  }

  /** As written, the history mode never gets to replay a single commit. */
  lemma HistoryModeFailsAsWritten(raw: RawConfig, env: Env, cmdOut: Option<string>, src: Source, target: Option<Tree>,
                                  matches: Matcher, now: string, force: bool)
    requires Truthy(raw.targetRepo) && raw.preserveHistory && src.lsFiles.Some? && src.history != []
    requires !HasBlankMessage(src.history, Configure(raw).value, matches, now)
    ensures RunAsWritten(raw, env, cmdOut, src, target, matches, now, force).Failure?
    ensures Run(raw, env, cmdOut, src, target, matches, now, force).Success?
  {
  }

  /** As written, a snapshot run with an SSH key fails once its files are read. */
  lemma SshKeyFailsAsWritten(raw: RawConfig, env: Env, cmdOut: Option<string>, src: Source, target: Option<Tree>,
                             matches: Matcher, now: string, force: bool)
    requires Truthy(raw.targetRepo) && !raw.preserveHistory && src.lsFiles.Some? && Truthy(raw.sshKey)
    requires Run(raw, env, cmdOut, src, target, matches, now, force).Success?
    ensures RunAsWritten(raw, env, cmdOut, src, target, matches, now, force) == Failure(RequireUndefined)
  {
  }

  /** The staged tree a snapshot run reads from the working directory, when every read succeeds. */
  function WorkingStaged(raw: RawConfig, src: Source, matches: Matcher): Result<Tree>
    requires Configure(raw).Success? && src.lsFiles.Some?
  {
    var cfg := Configure(raw).value;
    BuildWorkingTree(ParseTreeListing(src.lsFiles.value), src.disk, IgnorePatterns(cfg.ignore), matches, cfg.rules)
  }

  /**
   * A snapshot run publishes nothing exactly when every staged file is already on the target
   * branch with the same content. Otherwise it pushes the target's files with the staged ones
   * written over them: a file deleted from the source stays on the target.
   */
  lemma SnapshotOutcome(raw: RawConfig, env: Env, cmdOut: Option<string>, src: Source, target: Option<Tree>,
                        matches: Matcher, now: string, force: bool)
    requires Truthy(raw.targetRepo) && !raw.preserveHistory && src.lsFiles.Some?
    requires WorkingStaged(raw, src, matches).Success?
    ensures var r := Run(raw, env, cmdOut, src, target, matches, now, force);
            var staged := WorkingStaged(raw, src, matches).value;
            var base := target.GetOr(map[]);
            r.Success?
            && (r.value == NothingToPublish <==> forall p :: p in staged ==> p in base && base[p] == staged[p])
            && (r.value.PushedSnapshot? ==>
                  r.value.tree.Keys == staged.Keys + base.Keys
                  && (forall p :: p in staged ==> r.value.tree[p] == staged[p])
                  && (forall p :: p in base && p !in staged ==> r.value.tree[p] == base[p])
                  && r.value.message == SnapshotMessage)
  {
    RunSnapshotBranch(raw, env, cmdOut, src, target, matches, now, force);
  }

  /** The snapshot branch of the corrected run, in terms of the staged tree. */
  lemma RunSnapshotBranch(raw: RawConfig, env: Env, cmdOut: Option<string>, src: Source, target: Option<Tree>,
                          matches: Matcher, now: string, force: bool)
    requires Truthy(raw.targetRepo) && !raw.preserveHistory && src.lsFiles.Some?
    requires WorkingStaged(raw, src, matches).Success?
    ensures var r := Run(raw, env, cmdOut, src, target, matches, now, force);
            var staged := WorkingStaged(raw, src, matches).value;
            r.Success?
            && (r.value == NothingToPublish <==> !HasChanges(target, staged))
            && (r.value != NothingToPublish ==>
                  r.value.PushedSnapshot? && r.value.tree == SnapshotTree(target, staged)
                  && r.value.message == SnapshotMessage)
  {
  }

  /** Running again over the tree a snapshot run pushed finds nothing to publish. */
  lemma SnapshotRerunPublishesNothing(raw: RawConfig, env: Env, cmdOut: Option<string>, src: Source, target: Option<Tree>,
                                      matches: Matcher, now: string, force: bool)
    requires Run(raw, env, cmdOut, src, target, matches, now, force).Success?
    requires Run(raw, env, cmdOut, src, target, matches, now, force).value.PushedSnapshot?
    ensures var pushed := Run(raw, env, cmdOut, src, target, matches, now, force).value.tree;
            Run(raw, env, cmdOut, src, Some(pushed), matches, now, force) == Success(NothingToPublish)
  {
    assert WorkingStaged(raw, src, matches).Success?;
    SnapshotOutcome(raw, env, cmdOut, src, target, matches, now, force);
    var pushed := Run(raw, env, cmdOut, src, target, matches, now, force).value.tree;
    SnapshotOutcome(raw, env, cmdOut, src, Some(pushed), matches, now, force);
  }

  /**
   * The snapshot run as written and the corrected one agree whenever no SSH key is set and the
   * fetched target does not clash with the staged files.
   */
  lemma RunAsWrittenAgrees(raw: RawConfig, env: Env, cmdOut: Option<string>, src: Source, target: Option<Tree>,
                           matches: Matcher, now: string, force: bool)
    requires !raw.preserveHistory && !Truthy(raw.sshKey)
    requires Configure(raw).Success? && src.lsFiles.Some? && WorkingStaged(raw, src, matches).Success? ==>
               target.None? || !Clashes(target.value, WorkingStaged(raw, src, matches).value)
    ensures RunAsWritten(raw, env, cmdOut, src, target, matches, now, force)
         == Run(raw, env, cmdOut, src, target, matches, now, force)
  {
  }

  /**
   * As written, a snapshot run over a target that clashes with the staged files never finds
   * nothing to publish: without `--force` the push is rejected, with it the branch is replaced
   * by the staged files alone.
   */
  lemma ClashAsWritten(raw: RawConfig, env: Env, cmdOut: Option<string>, src: Source, target: Option<Tree>,
                       matches: Matcher, now: string, force: bool)
    requires Truthy(raw.targetRepo) && !raw.preserveHistory && !Truthy(raw.sshKey) && src.lsFiles.Some?
    requires WorkingStaged(raw, src, matches).Success?
    requires target.Some? && Clashes(target.value, WorkingStaged(raw, src, matches).value)
    ensures var r := RunAsWritten(raw, env, cmdOut, src, target, matches, now, force);
            && (!force ==> r == Failure(PushRejected))
            && (force ==> r.Success? && r.value.ReplacedBranch?
                          && r.value.tree == WorkingStaged(raw, src, matches).value)
  {
  }

  /**
   * As written, running again over the tree a snapshot run pushed does not find nothing to
   * publish, as the corrected run does: every staged file is on the target, so the checkout is
   * refused, and the second push is rejected or, forced, wipes the branch's history.
   */
  lemma SnapshotRerunAsWritten(raw: RawConfig, env: Env, cmdOut: Option<string>, src: Source, target: Option<Tree>,
                               matches: Matcher, now: string, force: bool)
    requires !Truthy(raw.sshKey)
    requires Run(raw, env, cmdOut, src, target, matches, now, force).Success?
    requires Run(raw, env, cmdOut, src, target, matches, now, force).value.PushedSnapshot?
    ensures var pushed := Run(raw, env, cmdOut, src, target, matches, now, force).value.tree;
            var r := RunAsWritten(raw, env, cmdOut, src, Some(pushed), matches, now, force);
            && Run(raw, env, cmdOut, src, Some(pushed), matches, now, force) == Success(NothingToPublish)
            && (!force ==> r == Failure(PushRejected))
            && (force ==> r.Success? && r.value.ReplacedBranch?)
  {
    SnapshotRerunPublishesNothing(raw, env, cmdOut, src, target, matches, now, force);
    assert WorkingStaged(raw, src, matches).Success?;
    SnapshotOutcome(raw, env, cmdOut, src, target, matches, now, force);
    var staged := WorkingStaged(raw, src, matches).value;
    var pushed := Run(raw, env, cmdOut, src, target, matches, now, force).value.tree;
    SharedFileClashes(pushed, staged);
    ClashAsWritten(raw, env, cmdOut, src, Some(pushed), matches, now, force);
  }

  /** A non-empty staged tree clashes with any tree that holds all of its paths. */
  lemma SharedFileClashes(fetched: Tree, staged: Tree)
    requires staged != map[] && staged.Keys <= fetched.Keys
    ensures Clashes(fetched, staged)
  {
    var p :| p in staged;
    assert p in fetched;
  }
}
