# dupligit in Dafny

dupligit publishes a sanitized copy of a git repository to another repository. It reads the
tracked files and drops every path that an ignore pattern matches. It rewrites text files with
configured rules and leaves binary files untouched. Then it either pushes one snapshot commit
or replays the whole first-parent history, one mirror commit per source commit. The package
also comes with a command-line parser and scripts that install and remove a git `pre-push`
hook.

This project models that core as immutable data and pure functions:

- `base.dfy`: `Option`, `Result` and the error values.
- `text.dfy`: the JavaScript string operations the code relies on. It covers `||` on strings,
  `indexOf`, `split`/`join`, `filter` and `trim`.
- `sanitizer.dfy`: the binary-file heuristic, the rewrite rules as a left fold, and how a
  staged file's content is chosen.
- `pathfilter.dfy`: the ignore list. Glob matching is a function parameter
  `matches(pattern, path)`.
- `snapshot.dfy`: the staged tree, as a map from path to bytes. It covers both a source commit
  (read failures skipped) and the working directory (a read failure ends the run).
- `gitparse.dfy`: parsing of the `ls-tree`/`ls-files` listings and of the commit metadata block.
- `config.dfy`: loading and defaulting the configuration, and where the config file comes from.
- `remote.dfy`: the token lookup and writing the token into a GitHub HTTPS URL.
- `replay.dfy`: the history loop. It is a fold over the commits that clears the mirror's
  working directory except `.git`, copies the staged tree in and records one commit.
- `engine.dfy`: a whole run, in both modes, including the "no changes, no commit" rule of the
  snapshot mode. It holds the run as written next to the corrected run, including how the
  snapshot mode's checkout of the target interacts with the files it has already written.
- `cli.dfy`: `parseArgs`, as a method with a loop and as a token interpretation.
- `hooks.dfy`: the hook script, the hooks directory, the install merge and the uninstall line
  filter.

Git, the file system, the environment, the clock and the network are all inputs:

- `git ls-files -z` output is an `Option<string>`.
- The working directory and each commit's readable blobs are maps.
- The environment is a map.
- A token command's output is an `Option<string>`.
- The current time is a string.
- The target branch as fetched is an `Option<Tree>`.

## Model

| member | source | states |
|---|---|---|
| Text.Or | lib/dupligit.js:86 | `a \|\| b` on optional strings: the result is truthy iff either side is, and it is `a` whenever `a` is truthy, else `b` |
| Text.JoinSplit | bin/dupligit-uninstall-hook.js:12 | joining the pieces of `split(sep)` with `sep` restores the original text |
| Text.SplitJoin | bin/dupligit-uninstall-hook.js:12 | splitting a `c`-joined list of `c`-free pieces gives the pieces back |
| Text.Trim | lib/dupligit.js:90 | `trim()` removes a run of white space at the start and one at the end and nothing else: the result is a slice of the input, everything cut off is white space, and the result neither starts nor ends with white space |
| Text.TrimIdempotent | lib/dupligit.js:90 | trimming twice is trimming once |
| Text.FilterMembers | bin/dupligit-uninstall-hook.js:12 | an element is in `filter(keep)` iff it is in the list and accepted |
| Text.FilterIdempotent | bin/dupligit-uninstall-hook.js:12 | filtering twice with the same test is filtering once |
| Sanitizer.ScanForBinary | lib/dupligit.js:37-43 | the loop answers true exactly when some byte at an index below min(length, 8192) is zero |
| Sanitizer.BinaryIgnoresTail | lib/dupligit.js:38 | bytes at offset 8192 and beyond never change the classification |
| Sanitizer.EffectiveFlags | lib/dupligit.js:76 | `r.flags \|\| 'g'`: non-empty flags are used as given, missing or empty flags become `g` |
| Sanitizer.ReplaceFirst | lib/dupligit.js:77-78 | a non-global rule leaves a text without the pattern unchanged, and otherwise replaces the pattern at its first occurrence, keeping what is before and after it |
| Sanitizer.ReplaceAllAbsent | lib/dupligit.js:78 | a pattern that does not occur leaves the text unchanged |
| Sanitizer.ReplaceAllSelf | lib/dupligit.js:78 | replacing a pattern by itself leaves the text unchanged |
| Sanitizer.ReplaceAllSplit | lib/dupligit.js:78 | a global replacement of a non-empty pattern equals splitting the text at the pattern and joining the pieces with the replacement |
| Sanitizer.ReplaceAllAtFirst | lib/dupligit.js:78 | a global replacement copies the text up to the first occurrence, replaces it, and continues after it |
| Sanitizer.ApplyRules | lib/dupligit.js:73-81 | no rules leave the text unchanged; a single rule is that rule's rewrite |
| Sanitizer.ApplyRulesAppend | lib/dupligit.js:73-81 | applying `R1 ++ R2` equals applying `R2` to the result of applying `R1` |
| Sanitizer.ApplyRulesSnoc | lib/dupligit.js:75-79 | a rule at the end of the list rewrites the output of all the rules before it |
| Sanitizer.RuleOrderMatters | lib/dupligit.js:75-79 | rules apply in list order: `a→b, b→c` turns `a` into `c`, the reverse order gives `b` |
| Sanitizer.RulesNotIdempotent | lib/dupligit.js:73-81 | a rule whose replacement contains its pattern changes its own output again (`a→aa`) |
| Sanitizer.StageContent | lib/dupligit.js:182-189 | a binary file is copied byte for byte; a text file holds its decoded text rewritten by the rules |
| Sanitizer.StageWithoutRules | lib/dupligit.js:182-189 | with no rules, an ASCII file is staged byte for byte |
| PathFilter.IgnorePatterns | lib/dupligit.js:124-128 | the pattern list is `.git/**`, then `node_modules/**`, then the configured patterns in order |
| PathFilter.IgnoredIffSomeMatch | lib/dupligit.js:69-71 | a path is ignored iff some pattern in the list matches it |
| PathFilter.IgnoredByAnyPattern | lib/dupligit.js:124-128 | a path that `.git/**`, `node_modules/**` or any configured pattern matches is ignored |
| PathFilter.IgnoreMonotone | lib/dupligit.js:64-71 | a list containing every pattern of another list ignores at least the same paths |
| Snapshot.BuildStagedTree | lib/dupligit.js:176-190 | the staged tree holds exactly the listed, readable, non-ignored paths, each with its staged content |
| Snapshot.IgnoredNeverStaged | lib/dupligit.js:176-177 | a path matched by an implicit or configured pattern is never in the staged tree |
| Snapshot.MorePatternsShrink | lib/dupligit.js:176-177 | adding ignore patterns only removes files from the staged tree and leaves the content of the others unchanged |
| Snapshot.ReadFailureIsolated | lib/dupligit.js:178-180 | a file whose read fails is left out and every other file is staged exactly as before |
| Snapshot.BuildWorkingTree | lib/dupligit.js:234-251 | the snapshot read succeeds iff every listed non-ignored path is readable, and then it gives the staged tree; a failure names a listed, non-ignored, unreadable path |
| GitParse.NonEmpty | lib/dupligit.js:137 | `filter(Boolean)` on strings: every kept string is non-empty and from the input, and every non-empty input string is kept (defined as the generic filter, so order and repetitions are those of `filter`) |
| GitParse.ParseTreeListing | lib/dupligit.js:137 | every parsed path is non-empty and free of NUL |
| GitParse.ParseTreeListingRoundTrip | lib/dupligit.js:137 | parsing the NUL-terminated listing of a list of paths gives back exactly those paths, in order |
| GitParse.ListingAsWrittenIsOneEntry | lib/dupligit.js:175 | splitting on a backslash and `0` turns a whole listing into one entry, which is none of the listed paths |
| GitParse.ParseMetaWith | lib/dupligit.js:194-198 | name and email are never empty (fallbacks `unknown` and `unknown@example.com`), and the date is not empty when the clock reading is not |
| GitParse.ParseMeta | lib/dupligit.js:193-198 | the metadata block read at line breaks has a non-empty author name and email |
| GitParse.ParseMetaRoundTrip | lib/dupligit.js:193-198 | the block git prints for a name, email, date and message parses back to exactly those four |
| GitParse.ParseMetaFallbacks | lib/dupligit.js:195-197 | empty name, email and date lines take their fallbacks while the message is still read |
| GitParse.MetaAsWrittenSwallowsAll | lib/dupligit.js:194-198 | splitting at a backslash and `n` makes the whole block the author name, with fallback email and date and an empty message |
| Config.LoadConfig | lib/dupligit.js:54-62 | fails iff `targetRepo` is missing or empty; otherwise the branch is non-empty (`main` by default), `rules` and `ignore` are lists and every other field is kept |
| Config.LoadConfigIdempotent | lib/dupligit.js:54-62 | loading an already loaded configuration changes nothing |
| Config.Configure | lib/dupligit.js:111-113 | `messageRules` defaults to `rules` and `preserveHistory` is read as a boolean, on top of the defaults of loading |
| Config.ResolveConfigPath | lib/dupligit.js:109 | the config path is never empty: the argument, else `DUPLIGIT_CONFIG`, else `dupligit.config.json` |
| Remote.ResolveToken | lib/dupligit.js:86-94 | the token is `DUPLIGIT_TOKEN`, else `GITHUB_TOKEN`, else the trimmed output of a configured token command that succeeded |
| Remote.PrimeTokenEnv | lib/dupligit.js:115-122 | with neither token variable set, a configured command whose trimmed output is non-empty sets `DUPLIGIT_TOKEN` to that output; in every other case the environment is unchanged; no other variable ever changes |
| Remote.PrimeTokenEnvKeepsToken | lib/dupligit.js:115-122 | storing the command's token early never changes the token the URL is later built with |
| Remote.RewriteUrl | lib/dupligit.js:96-101 | the URL changes iff it is neither SSH nor credentialed, a token is present and it is a GitHub HTTP(S) URL; it then becomes `https://` + the token with its `$` patterns expanded + `@` + the rest, which is the token itself when it has no `$` |
| Remote.RewriteUrlIdempotent | lib/dupligit.js:96-101 | rewriting a rewritten URL with the same token changes nothing |
| Remote.SubstitutePlain | lib/dupligit.js:99 | a replacement string without `$` is inserted as it is |
| Remote.SubstitutePlainHead | lib/dupligit.js:99 | the `$`-free start of a replacement string is copied and the rest is expanded on its own |
| Remote.SubstituteAtTail | lib/dupligit.js:99 | the `@` closing `https://${token}@` never joins a `$` of the token into a pattern |
| Remote.DollarTokenExpands | lib/dupligit.js:99 | a token `a$$b` is written into `https://github.com/o/r` as `a$b`, since `replace` reads `$$` as one dollar sign |
| Remote.ResolveTargetRemoteUrl | lib/dupligit.js:85-102 | an SSH, credentialed or non-GitHub URL is kept, and so is any URL when no token resolves; otherwise a GitHub URL gets the resolved token (`DUPLIGIT_TOKEN`, else `GITHUB_TOKEN`, else the command output), `$`-expanded, and with `DUPLIGIT_TOKEN` set and free of `$` it is that token as it is |
| Remote.HistoryRemoteUrlAsWritten | lib/dupligit.js:152 | with the token string passed as the configuration, a successful call uses the environment token only |
| Remote.HistoryRemoteUrlAsWrittenFails | lib/dupligit.js:152 | as written, a history run without any token fails even for an SSH URL that the corrected call keeps |
| Replay.ClearExceptGit | lib/dupligit.js:12-19 | after clearing, exactly the `.git` entries of the working directory remain, unchanged |
| Replay.CopyInto | lib/dupligit.js:20-32 | copying gives the union of both trees, copied files replacing what was there |
| Replay.Tracked | lib/dupligit.js:214 | `git add -A` stages exactly the paths outside `.git`, with their content |
| Replay.MaterializeSpec | lib/dupligit.js:201-203 | after clearing and copying, the files outside `.git` are exactly the staged files with their staged content |
| Replay.Prepare | lib/dupligit.js:174-199 | the identity read from a commit always has a non-empty name and email |
| Replay.CommitFor | lib/dupligit.js:205-220 | the commit holds the tracked staged tree and the rewritten message, the author's identity and date also serve as committer's, and it is marked empty iff its tree equals the parent's |
| Replay.Record | lib/dupligit.js:201-220 | one iteration on the mirror keeps the log and appends exactly one commit recording the read commit, marked empty iff nothing changed |
| Replay.ReplayCommit | lib/dupligit.js:169-221 | one iteration appends exactly one commit, which mirrors the source commit |
| Replay.Replay | lib/dupligit.js:169-221 | the loop adds exactly one commit per source commit |
| Replay.ReplayRecordsPrepared | lib/dupligit.js:169-221 | running the loop equals reading every commit first and recording them afterwards |
| Replay.ReplayOneToOne | lib/dupligit.js:169-221 | N source commits give exactly N mirror commits in source order; commit i mirrors source commit i and is marked empty iff its tree equals commit i-1's (or is empty, for the first) |
| Replay.ReplayWorktree | lib/dupligit.js:201-214 | after the loop the working directory, outside `.git`, holds the tree of the last commit |
| Replay.CommitTreeIsStagedTree | lib/dupligit.js:124-128 | since `.git/**` is always ignored, the committed tree is the staged tree itself |
| Engine.HasChanges | lib/dupligit.js:292-298 | `git status` reports changes iff some staged file is new on the target branch or has different content there |
| Engine.SnapshotTree | lib/dupligit.js:234-290 | the snapshot working copy holds the fetched files and the staged files, a staged file replacing a fetched one |
| Engine.Run | lib/dupligit.js:104-308 | the corrected run fails without `targetRepo` or a file listing; in history mode it fails before the push iff there are no commits or some commit's rewritten message is blank (only those errors before the push), and otherwise yields one mirror commit per source commit, each mirroring its source commit; it pushes to the resolved remote URL, on a non-empty branch, with the requested force, and never replaces the target branch by the staged files alone |
| Engine.HistoryModeFailsAsWritten | lib/dupligit.js:152-162 | as written, the history mode fails wherever the corrected run succeeds |
| Engine.SshKeyFailsAsWritten | lib/dupligit.js:268-270 | as written, a snapshot run with an SSH key fails after reading its files |
| Engine.RunAsWrittenAgrees | lib/dupligit.js:230-308 | without history mode, an SSH key or a fetched tree that clashes with the staged files, the run as written and the corrected run agree |
| Engine.CheckedOutAsWritten | lib/dupligit.js:285-290 | with the staged files already written, the fetched branch is checked out iff it does not clash with them; otherwise the fallback leaves an unborn branch |
| Engine.RunAsWritten | lib/dupligit.js:104-308 | as written, only a snapshot run succeeds, and it replaces the target branch only when forced and when there is a target |
| Engine.ClashAsWritten | lib/dupligit.js:285-303 | as written, a snapshot run whose fetched target clashes with the staged files never finds nothing to publish: unforced it is rejected, forced it replaces the branch by the staged files alone |
| Engine.SnapshotRerunAsWritten | lib/dupligit.js:285-303 | as written, a rerun over the tree a snapshot run pushed is rejected, or forced replaces the branch, where the corrected rerun finds nothing to publish |
| Engine.SnapshotOutcome | lib/dupligit.js:285-303 | a snapshot run publishes nothing iff every staged file is already on the target branch unchanged; otherwise it pushes the target's files with the staged ones written over them |
| Engine.SnapshotRerunPublishesNothing | lib/dupligit.js:292-302 | running again over the tree a snapshot run pushed finds nothing to publish |
| Cli.Tokenize | bin/dupligit.js:6-16 | only size bounds: never more options than words, and at least one option for a non-empty word list; what the options mean is stated by Cli.ParseArgs (the loop is the interpretation of the options) and Cli.TokenizeRender (the round trip) |
| Cli.ParseArgs | bin/dupligit.js:4-18 | the loop from index 2 yields the interpretation of the options; each flag is set iff it occurs, and with no words after index 1 the defaults come back |
| Cli.InterpFlags | bin/dupligit.js:9-11 | a flag ends up set iff it was set or occurs, however often |
| Cli.PositionalConfig | bin/dupligit.js:12-15 | without a config option, only the first non-empty positional word becomes the config path, and only while none is set |
| Cli.InterpAppend | bin/dupligit.js:6-16 | the options are interpreted left to right: a split command line is read part after part |
| Cli.LastConfigOptWins | bin/dupligit.js:8 | the last `-c` with a non-empty value sets the config path, whatever came before or after |
| Cli.TokenizeRender | bin/dupligit.js:6-16 | writing options back as words and reading them again gives the same options |
| Cli.SinglePositional | bin/dupligit.js:14 | `dupligit <path>` selects that path and no flag |
| Cli.TrailingConfigSwitch | bin/dupligit.js:8 | a trailing `-c` consumes nothing and leaves the config path unset |
| Hooks.HookBodyLines | bin/dupligit-install-hook.js:52-68 | splitting the script at line breaks gives back exactly its lines, ending with an empty piece since the script ends in a line break |
| Hooks.HookBodyShape | bin/dupligit-install-hook.js:52-68 | the script starts with the shebang and holds both the marker and the end marker |
| Hooks.HooksDir | bin/dupligit-install-hook.js:23-29 | a non-blank absolute `core.hooksPath` is used as is, a non-blank relative one is joined to the root, and a blank setting or a failed lookup gives `<root>/.git/hooks` |
| Hooks.HooksDirIgnoresBlanks | bin/dupligit-uninstall-hook.js:8 | white space around the setting, or a blank setting, makes no difference |
| Hooks.MergeHook | bin/dupligit-install-hook.js:70-87 | a file with the marker is left alone; no file gets the script; any other file becomes the old text, a line break and the script, exactly (prefix, suffix and length) |
| Hooks.Install | bin/dupligit-install-hook.js:35-87 | nothing is written iff an opt-out applies, outside a repository, or when the hook already has the marker; with no hook file the script is written |
| Hooks.InstallSkipped | bin/dupligit-install-hook.js:37-44 | inside a repository with neither opt-out variable set the install goes ahead, and a `CI` value other than `true` does not opt out |
| Hooks.InstallAsWritten | bin/dupligit-install-hook.js:52-68 | as written, the installer can only ever do what the corrected install does, and fails when the template literal does not parse |
| Hooks.InstallFailsAsWritten | bin/dupligit-install-hook.js:55 | as written, `${DUPLIGIT_TOKEN:-}` makes the template a syntax error, so no hook is ever written; escaped, the template parses and a fresh install writes the script |
| Hooks.InstallIdempotent | bin/dupligit-install-hook.js:70-75 | installing over a hook an install has written changes nothing |
| Hooks.CleanHookLines | bin/dupligit-uninstall-hook.js:12 | the cleaned hook's lines are the lines that pass the test, in order, and all of them pass it |
| Hooks.CleanHookMembers | bin/dupligit-uninstall-hook.js:12 | every line without the marker prefix or the name survives, and every surviving line was such a line |
| Hooks.CleanHookIdempotent | bin/dupligit-uninstall-hook.js:12 | cleaning a cleaned hook changes nothing |
| Hooks.UninstallAsWritten | bin/dupligit-uninstall-hook.js:10-13 | nothing is written iff there is no hook file |
| Hooks.UninstallOrphansElse | bin/dupligit-uninstall-hook.js:12 | cleaning a fresh install as written keeps an `else` line but drops its `if` line |
| Hooks.RemoveBlocksLines | bin/dupligit-uninstall-hook.js:12 | after removing the blocks no marker line is left, and every line left was a line of the hook |
| Hooks.RemoveBlocksNoMark | bin/dupligit-uninstall-hook.js:12 | a hook without a marker line is kept exactly |
| Hooks.Uninstall | bin/dupligit-uninstall-hook.js:10-13 | nothing is written iff there is no hook file |
| Hooks.UninstallFreshInstall | bin/dupligit-uninstall-hook.js:12 | uninstalling a fresh install leaves only the shebang and `set` lines |
| Hooks.UninstallAfterAppend | bin/dupligit-uninstall-hook.js:12 | installing into a marker-free hook and uninstalling gives back the original hook, then a line break and the script's first two lines |

## Left out

- Regular expressions are not modelled. A rule's pattern is taken as a literal string: it
  replaces every occurrence when the effective flags contain `g`, and otherwise the first
  occurrence. Other flags, special characters and `$` patterns in rule replacements are not
  modelled. The `$` patterns are modelled for the push URL, whose pattern has no groups
  (Remote.Substitute).
- Sanitizer.StageContent: text is decoded as one character per byte, not UTF-8, so the
  contract only covers outputs whose characters each fit in a byte.
- Glob matching (minimatch with `dot`, `matchBase`, case-sensitive) is a parameter, so no
  property of it is assumed. Replay.CommitTreeIsStagedTree takes as a premise that `.git/**`
  matches every path inside `.git`.
- Process execution, the file system, `ssh-add`, `GIT_SSH_COMMAND`, `~/` expansion and all
  logging are left out. They are either inputs to the model or effects outside it. Of the
  snapshot mode's `fetch`, `checkout` and `push`, the model keeps what decides the outcome: a
  failed fetch is a `None` target; the checkout as written is refused when the fetched files
  clash with the staged ones (Engine.CheckedOutAsWritten); a push of a commit without parent
  onto an existing branch is rejected unless forced. A push rejected for any other reason
  (permissions, a branch that moved) is not modelled.
- Engine.Run: in the corrected snapshot mode the staged files are written over the checked-out
  target, so a staged file `d` over a fetched directory `d/`, or the reverse, cannot arise in the
  model's map of paths. The corrected run does not say what happens with such a clash.
- The token command runs twice in the source (lines 115-122 and 87-93). The model gives both
  runs the same output `cmdOut`, so a command that answers differently each time is not
  modelled.
- The wall-clock fallback for a missing author date is the input `now`.
- `path.join` normalisation (`..`, doubled slashes) and Windows absolute paths are not
  modelled. Paths are joined with `/`, and a path is absolute when it starts with `/`.
- A failing `git status` in the snapshot mode counts as "changed" in the source. The model
  always has a status.
- The commit message is passed through `JSON.stringify` on a shell command line. The shell's
  expansion of `$` and backquotes inside that quoting is not modelled, and the message is
  recorded as rewritten.
- Replay.CommitFor: records a commit even for a blank message. git aborts such a commit
  (`Aborting commit due to empty commit message`, also with `--allow-empty`), and Engine.Run
  fails with `EmptyCommitMessage` before anything is pushed. Since `JSON.stringify` escapes tabs
  and line breaks, a message is blank exactly when it consists of spaces (Replay.IsBlankMessage).
- Replay.CommitFor: records the rewritten message itself. The source runs `git commit -m` with
  the `JSON.stringify` form of the message through `/bin/sh` (lib/dupligit.js:49-52, :216-218).
  Inside double quotes the shell removes the backslash only before `"`, `\`, `$` and a
  backquote, so the JSON escapes `\n`, `\t` and `\uXXXX` reach git as literal backslash
  sequences: a message with line breaks, as `%B` always gives, is recorded on one line with
  literal `\n`. The model does not state git's stored message in these terms.
- Engine.Run: does not decide whether the remote accepts the history push. The history mode
  pushes a fresh history without parent (lib/dupligit.js:224-225) whatever the target branch
  holds: an unforced push onto a target branch that has diverged from it is rejected as not a
  fast-forward, so the source run fails, and a forced one overwrites the branch. The model's
  `target` describes only the snapshot mode, and the history mode's push outcome is taken to
  be `PushedHistory`.
- Engine.Run: the history push assumes git's initial branch in the fresh mirror repository is
  the target branch. The source runs a plain `git init` (lib/dupligit.js:162), so the commits
  land on `init.defaultBranch` (`master` when unset), and `git push origin <branch>:<branch>`
  (:225) fails when the two names differ. Git's configuration is not an input of the model.
- Config.Configure: the configuration fields are typed. `preserveHistory` is a boolean, so the
  truthiness `!!cfg.preserveHistory` gives to other JSON values (the string `"false"` is true)
  is not modelled.
- Replay.Tracked: is everything outside `.git`. A `.gitignore` among the staged files would make
  `git add -A` leave the files it names out of the commit; the model does not read `.gitignore`
  and commits the whole staged tree.
- The history loop interleaves reading a commit and recording it. Since reading touches only
  the source repository, the properties are stated about "read all, then record"
  (Replay.ReplayRecordsPrepared proves the two are the same).
- The hook script text is modelled as the bash it evidently means, with the bash expansion
  `${DUPLIGIT_TOKEN:-}` kept literally. As written, that expansion sits inside the JavaScript
  template literal, which does not parse (see Findings).
- The install comment at bin/dupligit-install-hook.js:76 speaks of inserting before `exit`
  lines. Both branches of the code append at the end, and so does the model.
- The uninstall script calls `git config` without passing the root as working directory, so
  the setting is read in the current directory. The model reads it once per repository.
- The setup-action script is not part of this model.

## Findings

| source | as written | input that shows it | evidently intended | confidence | as-written member | corrected member |
|---|---|---|---|---|---|---|
| lib/dupligit.js:162 | the history mode uses `tmpRoot` before its `const` declaration at line 230; the throw at line 162 is swallowed by its own `catch {}`, and the next use, in the `catch` at line 164, throws uncaught | any run with `preserveHistory: true` and a token present | create the mirror repository before the loop and replay into it | not executed | Engine.HistoryModeFailsAsWritten | Engine.Run |
| lib/dupligit.js:156 | `require('os')` inside an ES module, where `require` is undefined (also line 269) | any run with `sshKey` set | expand `~/` with the imported `os` module | not executed | Engine.SshKeyFailsAsWritten | Engine.SnapshotOutcome |
| lib/dupligit.js:175 | `split('\\0')` splits at a backslash followed by `0`, not at NUL | listing `a.txt` NUL `b.txt` NUL | split at NUL as line 137 does | not executed | GitParse.ListingAsWrittenIsOneEntry | GitParse.ParseTreeListingRoundTrip |
| lib/dupligit.js:194 | `split('\\n')` and `join('\\n')` (line 198) use a backslash followed by `n` | metadata `Ann` LF `ann@x.org` LF `2024-01-01` LF `fix` | split and rejoin at line breaks | not executed | GitParse.MetaAsWrittenSwallowsAll | GitParse.ParseMetaRoundTrip |
| lib/dupligit.js:152 | the token string is passed where the configuration is expected | history run with neither `DUPLIGIT_TOKEN` nor `GITHUB_TOKEN` and an SSH URL | pass the configuration | not executed | Remote.HistoryRemoteUrlAsWrittenFails | Remote.ResolveTargetRemoteUrl |
| lib/dupligit.js:287 | the staged files are written into the mirror directory (lines 234-251) before `git checkout -B <branch> FETCH_HEAD`, which refuses to overwrite them, so the fallback leaves an unborn branch and the snapshot commit has no parent | a second run over a target the first run pushed to, with the same files | check out the fetched branch first, then write the staged files over it | not executed | Engine.SnapshotRerunAsWritten | Engine.SnapshotRerunPublishesNothing |
| bin/dupligit-install-hook.js:55 | the bash default expansion `${DUPLIGIT_TOKEN:-}` is inside the template literal opened at line 52, where JavaScript reads it as a substitution, and `DUPLIGIT_TOKEN:-` is no expression, so the module does not parse | any `npm install` that runs the script | escape it as `\${DUPLIGIT_TOKEN:-}` | not executed | Hooks.InstallFailsAsWritten | Hooks.Install |
| bin/dupligit-uninstall-hook.js:12 | every line that mentions `dupligit` is dropped, which removes an `if` line but keeps its `else` and `fi` | a hook the installer has just written | remove the block from the marker line through the end marker line | not executed | Hooks.UninstallOrphansElse | Hooks.UninstallAfterAppend |
