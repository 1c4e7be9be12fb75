/**
 * The history replayer: every source commit, oldest first, becomes one commit of the mirror
 * repository, built from the commit's staged tree and carrying its author, date and rewritten
 * message. The mirror's working directory is a file tree; its `.git` entries stand for the
 * repository's own metadata directory.
 */
module Replay {
  import opened Text
  import opened Sanitizer
  import opened PathFilter
  import opened Snapshot
  import opened GitParse
  import opened Config

  /**
   * A commit of the source history as the replayer reads it: its ls-tree listing, the content
   * of every listed path whose read succeeds, and its metadata block.
   */
  datatype SourceCommit = SourceCommit(sha: string, listing: string, blobs: map<Path, Bytes>, meta: string)

  datatype Identity = Identity(name: string, email: string)

  /** A commit written to the mirror; `allowEmpty` records that it changed no file. */
  datatype MirrorCommit = MirrorCommit(
    tree: Tree,
    message: string,
    author: Identity,
    authorDate: string,
    committer: Identity,
    committerDate: string,
    allowEmpty: bool)

  /** The mirror repository: its working directory and its commits, oldest first. */
  datatype Mirror = Mirror(worktree: Tree, log: seq<MirrorCommit>)

  /** A freshly initialised mirror repository. */
  const FreshMirror := Mirror(map[], [])

  /** A path inside the top-level `.git` directory, or that directory itself. */
  predicate IsGitPath(p: Path) {
    p == ".git" || IsPrefix(".git/", p)
  }

  /** Removing every top-level entry of the working directory except `.git`. */
  function ClearExceptGit(w: Tree): (r: Tree)
    ensures forall p :: p in r <==> p in w && IsGitPath(p)
    ensures forall p :: p in r ==> r[p] == w[p]
  {
    map p | p in w && IsGitPath(p) :: w[p]
  }

  /** Copying a directory over another: copied files replace what was there. */
  function CopyInto(src: Tree, dst: Tree): (r: Tree)
    ensures r.Keys == src.Keys + dst.Keys
    ensures forall p :: p in src ==> r[p] == src[p]
    ensures forall p :: p in dst && p !in src ==> r[p] == dst[p]
  {
    dst + src
  }

  /** The files `git add -A` stages: everything outside `.git`. */
  function Tracked(w: Tree): (t: Tree)
    ensures forall p :: p in t <==> p in w && !IsGitPath(p)
    ensures forall p :: p in t ==> t[p] == w[p]
  {
    map p | p in w && !IsGitPath(p) :: w[p]
  }

  /** The tree of the branch tip; before the first commit there is none, which reads as empty. */
  function HeadTree(log: seq<MirrorCommit>): Tree {
    if log == [] then map[] else log[|log| - 1].tree
  }

  /** The staged tree of a source commit under a configuration. */
  function StagedTreeOf(c: SourceCommit, cfg: MirrorConfig, matches: Matcher): Tree {
    BuildStagedTree(ParseTreeListing(c.listing), c.blobs, IgnorePatterns(cfg.ignore), matches, cfg.rules)
  }

  /**
   * What one iteration reads from the source before it touches the mirror: the commit's staged
   * tree, its message rewritten by the message rules, its author and its author date.
   */
  datatype Prepared = Prepared(staged: Tree, message: string, author: Identity, date: string)

  /** Reading one source commit: its listing and blobs give the staged tree, its metadata block the rest. */
  function Prepare(c: SourceCommit, cfg: MirrorConfig, matches: Matcher, now: string): (p: Prepared)
    ensures p.author.name != "" && p.author.email != ""
  {
    var meta := ParseMeta(c.meta, now);
    Prepared(StagedTreeOf(c, cfg, matches), ApplyRules(meta.message, cfg.messageRules),
      Identity(meta.authorName, meta.authorEmail), meta.authorDate)
  }

  /**
   * `mc` records `p`: the tracked files of the staged tree, the message, and the author with
   * the author date, both as author and again as committer.
   */
  predicate Records(mc: MirrorCommit, p: Prepared) {
    && mc.tree == Tracked(p.staged)
    && mc.message == p.message
    && mc.author == p.author && mc.authorDate == p.date
    && mc.committer == p.author && mc.committerDate == p.date
  }

  /** `mc` is the mirror of source commit `c`: it records what is read from `c`. */
  predicate Mirrors(mc: MirrorCommit, c: SourceCommit, cfg: MirrorConfig, matches: Matcher, now: string) {
    Records(mc, Prepare(c, cfg, matches, now))
  }

  /**
   * The working directory after one iteration: every top-level entry but `.git` removed, then
   * the staged tree copied in.
   */
  function Materialize(staged: Tree, w: Tree): Tree {
    CopyInto(staged, ClearExceptGit(w))
  }

  /**
   * After an iteration the files outside `.git` are exactly the staged ones, and what lies
   * under `.git` is kept unless the staged tree itself supplies it.
   */
  lemma MaterializeSpec(staged: Tree, w: Tree)
    ensures var r := Materialize(staged, w);
      && Tracked(r) == Tracked(staged)
      && (forall p :: !IsGitPath(p) ==> (p in r <==> p in staged))
      && (forall p :: p in staged ==> p in r && r[p] == staged[p])
      && (forall p :: IsGitPath(p) && p !in staged ==> (p in r <==> p in w) && (p in w ==> r[p] == w[p]))
  {
    var r := Materialize(staged, w);
    assert Tracked(r).Keys == Tracked(staged).Keys;
  }

  /**
   * A message `git commit -m` refuses as empty. The message reaches the shell through
   * `JSON.stringify`, which escapes every ASCII white-space character but the space, so git
   * sees only spaces of it: it is blank exactly when it is empty or made of spaces.
   */
  predicate IsBlankMessage(m: string) {
    forall i :: 0 <= i < |m| ==> m[i] == ' '
  }

  /** The commit recorded for `p` on top of a branch whose tip holds `parent`. */
  function CommitFor(p: Prepared, parent: Tree): (mc: MirrorCommit)
    ensures Records(mc, p)
    ensures mc.allowEmpty <==> mc.tree == parent
  {
    var tree := Tracked(p.staged);
    MirrorCommit(tree, p.message, p.author, p.date, p.author, p.date, tree == parent)
  }

  /**
   * The mirror's half of one iteration: replace the working directory's files (all but `.git`)
   * by the staged tree, stage everything, and commit, with `--allow-empty` when nothing changed.
   */
  function Record(m: Mirror, p: Prepared): (r: Mirror)
    ensures |r.log| == |m.log| + 1 && r.log[..|m.log|] == m.log
    ensures Records(r.log[|m.log|], p)
    ensures r.log[|m.log|].allowEmpty <==> r.log[|m.log|].tree == HeadTree(m.log)
  {
    var r := Mirror(Materialize(p.staged, m.worktree), m.log + [CommitFor(p, HeadTree(m.log))]);
    assert r.log[..|m.log|] == m.log;
    r
  }

  /** One iteration of the history loop: read the source commit, then record it in the mirror. */
  function ReplayCommit(m: Mirror, c: SourceCommit, cfg: MirrorConfig, matches: Matcher, now: string): (r: Mirror)
    ensures |r.log| == |m.log| + 1 && r.log[..|m.log|] == m.log
    ensures Mirrors(r.log[|m.log|], c, cfg, matches, now)
    ensures r.log[|m.log|].allowEmpty <==> r.log[|m.log|].tree == HeadTree(m.log)
  {
    Record(m, Prepare(c, cfg, matches, now))
  }

  /** The history loop as a left fold over the commits, oldest first. */
  function Replay(m: Mirror, commits: seq<SourceCommit>, cfg: MirrorConfig, matches: Matcher, now: string): (r: Mirror)
    ensures |r.log| == |m.log| + |commits|
    decreases |commits|
  {
    if commits == [] then m
    else Replay(ReplayCommit(m, commits[0], cfg, matches, now), commits[1..], cfg, matches, now)
  }

  /** Reading every commit of a history, in order. */
  function PrepareAll(commits: seq<SourceCommit>, cfg: MirrorConfig, matches: Matcher, now: string): (ps: seq<Prepared>)
    ensures |ps| == |commits|
    decreases |commits|
  {
    if commits == [] then []
    else [Prepare(commits[0], cfg, matches, now)] + PrepareAll(commits[1..], cfg, matches, now)
  }

  /** Entry i of the read history is what is read from commit i. */
  lemma {:induction false} PrepareAllAt(commits: seq<SourceCommit>, cfg: MirrorConfig, matches: Matcher, now: string, i: nat)
    requires i < |commits|
    ensures PrepareAll(commits, cfg, matches, now)[i] == Prepare(commits[i], cfg, matches, now)
    decreases i
  {
    if i > 0 {
      PrepareAllAt(commits[1..], cfg, matches, now, i - 1);
      TailIndex(commits, i);
    }
  }

  /** The log after committing read commits one after another. */
  function LogAfter(log: seq<MirrorCommit>, ps: seq<Prepared>): (r: seq<MirrorCommit>)
    ensures |r| == |log| + |ps| && r[..|log|] == log
    decreases |ps|
  {
    if ps == [] then log
    else
      var log1 := log + [CommitFor(ps[0], HeadTree(log))];
      var r := LogAfter(log1, ps[1..]);
      assert r[..|log|] == r[..|log1|][..|log|];
      r
  }

  /** The working directory after materialising read commits one after another. */
  function WorktreeAfter(w: Tree, ps: seq<Prepared>): Tree
    decreases |ps|
  {
    if ps == [] then w else WorktreeAfter(Materialize(ps[0].staged, w), ps[1..])
  }

  /** Recording read commits one after another. */
  function RecordAll(m: Mirror, ps: seq<Prepared>): Mirror {
    Mirror(WorktreeAfter(m.worktree, ps), LogAfter(m.log, ps))
  }

  /**
   * Reading a commit touches only the source repository, so the loop that reads and records
   * each commit in turn ends where recording the read history ends.
   */
  lemma {:induction false} ReplayRecordsPrepared(m: Mirror, commits: seq<SourceCommit>, cfg: MirrorConfig, matches: Matcher, now: string)
    ensures Replay(m, commits, cfg, matches, now) == RecordAll(m, PrepareAll(commits, cfg, matches, now))
    decreases |commits|
  {
    if commits != [] {
      var p := Prepare(commits[0], cfg, matches, now);
      var rest := PrepareAll(commits[1..], cfg, matches, now);
      var m1 := Record(m, p);
      ReplayRecordsPrepared(m1, commits[1..], cfg, matches, now);
      ConsParts(p, rest);
      assert PrepareAll(commits, cfg, matches, now) == [p] + rest;
    }
  }

  lemma ConsParts<T>(x: T, xs: seq<T>)
    ensures ([x] + xs)[0] == x && ([x] + xs)[1..] == xs
  {
  }

  /**
   * Entry k of the log, the i-th recorded, records the i-th read commit, and is marked empty
   * exactly when its tree equals the tree of the branch tip before it.
   */
  lemma {:induction false} LogAfterAt(log: seq<MirrorCommit>, ps: seq<Prepared>, i: nat, k: nat, r: seq<MirrorCommit>)
    requires i < |ps| && k == |log| + i && r == LogAfter(log, ps)
    ensures Records(r[k], ps[i])
    ensures r[k].allowEmpty <==> r[k].tree == HeadTree(r[..k])
    decreases i
  {
    var log1 := log + [CommitFor(ps[0], HeadTree(log))];
    if i == 0 {
      PrefixIndex(r, log1, k);
      assert r[..k] == r[..|log1|][..k];
      assert log1[..k] == log;
    } else {
      LogAfterAt(log1, ps[1..], i - 1, k, r);
      TailIndex(ps, i);
    }
  }

  /**
   * After recording, `git add -A` in the working directory `wr` stages the tree of the last
   * commit of the log `lr`.
   */
  lemma {:induction false} RecordAllWorktree(w: Tree, log: seq<MirrorCommit>, ps: seq<Prepared>, wr: Tree, lr: seq<MirrorCommit>)
    requires ps != [] && wr == WorktreeAfter(w, ps) && lr == LogAfter(log, ps)
    ensures |lr| > 0 && Tracked(wr) == lr[|lr| - 1].tree
    decreases |ps|
  {
    var w1 := Materialize(ps[0].staged, w);
    var log1 := log + [CommitFor(ps[0], HeadTree(log))];
    if ps[1..] != [] {
      RecordAllWorktree(w1, log1, ps[1..], wr, lr);
    } else {
      LastWorktree(w, log, ps);
    }
  }

  /** The base case: after a single commit, the working directory holds its tree. */
  lemma LastWorktree(w: Tree, log: seq<MirrorCommit>, ps: seq<Prepared>)
    requires |ps| == 1
    ensures var r := LogAfter(log, ps);
      Tracked(WorktreeAfter(w, ps)) == r[|r| - 1].tree
  {
    var log1 := log + [CommitFor(ps[0], HeadTree(log))];
    MaterializeSpec(ps[0].staged, w);
    assert WorktreeAfter(w, ps) == Materialize(ps[0].staged, w);
    assert LogAfter(log, ps) == log1;
  }

  /** The same, for the mirror as a whole. */
  lemma {:induction false} RecordedWorktree(m: Mirror, ps: seq<Prepared>, r: Mirror)
    requires ps != [] && r == RecordAll(m, ps)
    ensures Tracked(r.worktree) == r.log[|r.log| - 1].tree
  {
    RecordAllWorktree(m.worktree, m.log, ps, r.worktree, r.log);
  }

  /** After the loop, the working directory holds the last commit's tree outside `.git`. */
  lemma {:induction false} ReplayWorktree(m: Mirror, commits: seq<SourceCommit>, cfg: MirrorConfig, matches: Matcher, now: string, r: Mirror)
    requires commits != [] && r == Replay(m, commits, cfg, matches, now)
    ensures Tracked(r.worktree) == r.log[|r.log| - 1].tree
  {
    ReplayRecordsPrepared(m, commits, cfg, matches, now);
    RecordedWorktree(m, PrepareAll(commits, cfg, matches, now), r);
  }

  /** An element of a prefix, read from the whole sequence. */
  lemma PrefixIndex<T>(s: seq<T>, t: seq<T>, k: nat)
    requires k < |t| <= |s| && s[..|t|] == t
    ensures s[k] == t[k]
  {
    assert s[..|t|][k] == s[k];
  }

  /** An element of a sequence's tail, read from the sequence. */
  lemma TailIndex<T>(s: seq<T>, i: nat)
    requires 1 <= i < |s|
    ensures s[1..][i - 1] == s[i]
  {
  }

  /**
   * Replaying N commits into a fresh mirror yields exactly N commits, the i-th mirroring the
   * i-th source commit and marked empty exactly when its tree equals the previous one's.
   */
  lemma {:induction false} ReplayOneToOne(commits: seq<SourceCommit>, cfg: MirrorConfig, matches: Matcher, now: string)
    ensures var r := Replay(FreshMirror, commits, cfg, matches, now);
      && |r.log| == |commits|
      && (forall i :: 0 <= i < |commits| ==> Mirrors(r.log[i], commits[i], cfg, matches, now))
      && (forall i :: 0 < i < |commits| ==> (r.log[i].allowEmpty <==> r.log[i].tree == r.log[i - 1].tree))
      && (commits != [] ==> (r.log[0].allowEmpty <==> r.log[0].tree == map[]))
  {
    ReplayRecordsPrepared(FreshMirror, commits, cfg, matches, now);
    var r := Replay(FreshMirror, commits, cfg, matches, now);
    var ps := PrepareAll(commits, cfg, matches, now);
    RecordedMirrors(commits, cfg, matches, now, ps, r.log);
    RecordedEmptyMarks(commits, cfg, matches, now, ps, r.log);
  }

  /** The same, for the log `log` recorded from the read history `ps`: entry i mirrors commit i. */
  lemma {:induction false} RecordedMirrors(commits: seq<SourceCommit>, cfg: MirrorConfig, matches: Matcher, now: string,
                                           ps: seq<Prepared>, log: seq<MirrorCommit>)
    requires ps == PrepareAll(commits, cfg, matches, now) && log == LogAfter([], ps)
    ensures |log| == |commits|
    ensures forall i :: 0 <= i < |commits| ==> Mirrors(log[i], commits[i], cfg, matches, now)
  {
    forall i | 0 <= i < |commits|
      ensures Mirrors(log[i], commits[i], cfg, matches, now)
    {
      RecordedEntry(commits, cfg, matches, now, ps, log, i);
    }
  }

  /** Entry i is marked empty exactly when its tree equals the tree before it. */
  lemma {:induction false} RecordedEmptyMarks(commits: seq<SourceCommit>, cfg: MirrorConfig, matches: Matcher, now: string,
                                              ps: seq<Prepared>, log: seq<MirrorCommit>)
    requires ps == PrepareAll(commits, cfg, matches, now) && log == LogAfter([], ps)
    ensures |log| == |commits|
    ensures forall i :: 0 < i < |commits| ==> (log[i].allowEmpty <==> log[i].tree == log[i - 1].tree)
    ensures commits != [] ==> (log[0].allowEmpty <==> log[0].tree == map[])
  {
    forall i | 0 <= i < |commits|
      ensures 0 < i ==> (log[i].allowEmpty <==> log[i].tree == log[i - 1].tree)
      ensures i == 0 ==> (log[i].allowEmpty <==> log[i].tree == map[])
    {
      EmptyMark(ps, log, i);
    }
  }

  /** The empty mark of one entry of a log recorded into a fresh repository. */
  lemma EmptyMark(ps: seq<Prepared>, log: seq<MirrorCommit>, i: nat)
    requires log == LogAfter([], ps) && i < |ps|
    ensures 0 < i ==> (log[i].allowEmpty <==> log[i].tree == log[i - 1].tree)
    ensures i == 0 ==> (log[i].allowEmpty <==> log[i].tree == map[])
  {
    LogAfterAt([], ps, i, i, log);
    if 0 < i {
      assert log[..i][i - 1] == log[i - 1];
    }
  }

  /** One entry of a log recorded from a read history. */
  lemma {:induction false} RecordedEntry(commits: seq<SourceCommit>, cfg: MirrorConfig, matches: Matcher, now: string,
                                         ps: seq<Prepared>, log: seq<MirrorCommit>, i: nat)
    requires ps == PrepareAll(commits, cfg, matches, now) && log == LogAfter([], ps) && i < |commits|
    ensures Mirrors(log[i], commits[i], cfg, matches, now)
  {
    LogAfterAt([], ps, i, i, log);
    PrepareAllAt(commits, cfg, matches, now, i);
  }

  /** With a matcher that ignores everything under `.git`, a mirror commit holds the staged tree itself. */
  lemma CommitTreeIsStagedTree(c: SourceCommit, cfg: MirrorConfig, matches: Matcher)
    requires forall p :: IsGitPath(p) ==> matches(".git/**", p)
    ensures Tracked(StagedTreeOf(c, cfg, matches)) == StagedTreeOf(c, cfg, matches)
  {
    var staged := StagedTreeOf(c, cfg, matches);
    forall p | p in staged
      ensures !IsGitPath(p)
    {
      if IsGitPath(p) {
        IgnoredByAnyPattern(p, cfg.ignore, matches);
      }
    }
  }
}
