/**
 * The git pre-push hook that the package installs and removes. File system and `git` calls
 * become parameters: the hook file's content before (`None` when there is no file) and its
 * content after (`None` when the file is left as it is).
 */
module Hooks {
  import opened Base
  import opened Text

  /** The package name; the uninstall script drops every line that mentions it. */
  const Name := "dupligit"

  /** The line that opens the dupligit block; the block ends with this line followed by ` end`. */
  const Mark := "# === dupligit hook ==="
  const MarkEnd := Mark + " end"
  const HookName := "pre-push"
  const Shebang := "#!/usr/bin/env bash\n"

  /**
   * The lines of the hook script the installer writes; the script ends with a line break.
   * Long lines are spelled in short pieces, which keeps reasoning about their characters cheap.
   */
  const HookLines: seq<string> := [
    "#!/usr/bin/env bash",
    "set -euo pipefail",
    Mark,
    "# Prefer env token, fallback " + "to global git config key: " + Name + ".token",
    "if [[ -z \"${DUPLIGIT_TOKEN:-}\"" + " ]]; then",
    "  t=\"$(git config --get " + Name + ".token || true)\"",
    "  if [[ -n \"$t\" ]]; then " + "export DUPLIGIT_TOKEN=\"$t\"; fi",
    "fi",
    "",
    "# Only run if config exists",
    "if [[ -f \"" + Name + ".config.json\" ]]; then",
    "  echo \"[" + Name + " hook] running " + Name + "\U{2026}\"",
    "  npx -y " + Name + " -v",
    "else",
    "  echo \"[" + Name + " hook] no " + Name + ".config.json; skipping.\"",
    "fi",
    MarkEnd,
    ""
  ]

  const HookBody: string := Join(HookLines, "\n")

  /** No line of the script contains a line break, so splitting the script gives its lines back. */
  lemma HookBodyLines()
    ensures Split(HookBody, "\n") == HookLines
  {
    forall k | 0 <= k < |HookLines|
      ensures '\n' !in HookLines[k]
    {
      HookLineFacts(k);
    }
    SplitJoin(HookLines, '\n');
  }

  /** The lines of the script that survive the uninstall script's line test. */
  const KeptLines: set<nat> := {0, 1, 4, 6, 7, 8, 9, 13, 15, 17}

  /** Each line of the script holds no line break, and passes the line test exactly when listed in `KeptLines`. */
  lemma HookLineFacts(k: nat)
    requires k < |HookLines|
    ensures '\n' !in HookLines[k]
    ensures KeepLineAsWritten(HookLines[k]) <==> k in KeptLines
    ensures k != 2 && k != 16 ==> HookLines[k] != Mark && HookLines[k] != MarkEnd
  {
    if k == 0 {
      HookLine0();
    } else if k == 1 {
      HookLine1();
    } else if k == 2 {
      HookLine2();
    } else if k == 3 {
      HookLine3();
    } else if k == 4 {
      HookLine4();
    } else if k == 5 {
      HookLine5();
    } else if k == 6 {
      HookLine6();
    } else if k == 7 {
      HookLine7();
    } else if k == 8 {
      HookLine8();
    } else if k == 9 {
      HookLine9();
    } else if k == 10 {
      HookLine10();
    } else if k == 11 {
      HookLine11();
    } else if k == 12 {
      HookLine12();
    } else if k == 13 {
      HookLine13();
    } else if k == 14 {
      HookLine14();
    } else if k == 15 {
      HookLine15();
    } else if k == 16 {
      HookLine16();
    } else {
      HookLine17();
    }
  }

  lemma HookLine0()
    ensures '\n' !in HookLines[0]
    ensures KeepLineAsWritten(HookLines[0]) <==> 0 in KeptLines
    ensures HookLines[0] != Mark && HookLines[0] != MarkEnd
  {
    KeptWithoutD(HookLines[0]);
  }

  lemma HookLine1()
    ensures '\n' !in HookLines[1]
    ensures KeepLineAsWritten(HookLines[1]) <==> 1 in KeptLines
    ensures HookLines[1] != Mark && HookLines[1] != MarkEnd
  {
    KeptWithoutD(HookLines[1]);
  }

  lemma HookLine2()
    ensures '\n' !in HookLines[2]
    ensures KeepLineAsWritten(HookLines[2]) <==> 2 in KeptLines
  {
    assert IsPrefix(Mark, HookLines[2]);
  }

  lemma HookLine3()
    ensures '\n' !in HookLines[3]
    ensures KeepLineAsWritten(HookLines[3]) <==> 3 in KeptLines
    ensures HookLines[3] != Mark && HookLines[3] != MarkEnd
  {
    assert NoBreak("# Prefer env token, fallback " + "to global git config key: ");
    assert NoBreak(".token");
    DroppedLine("# Prefer env token, fallback " + "to global git config key: ", ".token");
  }

  lemma HookLine4()
    ensures '\n' !in HookLines[4]
    ensures KeepLineAsWritten(HookLines[4]) <==> 4 in KeptLines
    ensures HookLines[4] != Mark && HookLines[4] != MarkEnd
  {
    assert PlainText("if [[ -z \"${DUPLIGIT_TOKEN:-}\"");
    assert PlainText(" ]]; then");
    PlainConcat("if [[ -z \"${DUPLIGIT_TOKEN:-}\"", " ]]; then");
    PlainKept(HookLines[4]);
  }

  lemma HookLine5()
    ensures '\n' !in HookLines[5]
    ensures KeepLineAsWritten(HookLines[5]) <==> 5 in KeptLines
    ensures HookLines[5] != Mark && HookLines[5] != MarkEnd
  {
    assert NoBreak("  t=\"$(git config --get ");
    assert NoBreak(".token || true)\"");
    DroppedLine("  t=\"$(git config --get ", ".token || true)\"");
  }

  lemma HookLine6()
    ensures '\n' !in HookLines[6]
    ensures KeepLineAsWritten(HookLines[6]) <==> 6 in KeptLines
    ensures HookLines[6] != Mark && HookLines[6] != MarkEnd
  {
    assert PlainText("  if [[ -n \"$t\" ]]; then ");
    assert PlainText("export DUPLIGIT_TOKEN=\"$t\"; fi");
    PlainConcat("  if [[ -n \"$t\" ]]; then ", "export DUPLIGIT_TOKEN=\"$t\"; fi");
    PlainKept(HookLines[6]);
  }

  lemma HookLine7()
    ensures '\n' !in HookLines[7]
    ensures KeepLineAsWritten(HookLines[7]) <==> 7 in KeptLines
    ensures HookLines[7] != Mark && HookLines[7] != MarkEnd
  {
    KeptWithoutD(HookLines[7]);
  }

  lemma HookLine8()
    ensures '\n' !in HookLines[8]
    ensures KeepLineAsWritten(HookLines[8]) <==> 8 in KeptLines
    ensures HookLines[8] != Mark && HookLines[8] != MarkEnd
  {
    KeptWithoutD(HookLines[8]);
  }

  lemma HookLine9()
    ensures '\n' !in HookLines[9]
    ensures KeepLineAsWritten(HookLines[9]) <==> 9 in KeptLines
    ensures HookLines[9] != Mark && HookLines[9] != MarkEnd
  {
    assert HookLines[9][2] != MarkEnd[2];
    assert PlainText(HookLines[9]);
    PlainKept(HookLines[9]);
  }

  lemma HookLine10()
    ensures '\n' !in HookLines[10]
    ensures KeepLineAsWritten(HookLines[10]) <==> 10 in KeptLines
    ensures HookLines[10] != Mark && HookLines[10] != MarkEnd
  {
    assert NoBreak("if [[ -f \"");
    assert NoBreak(".config.json\" ]]; then");
    DroppedLine("if [[ -f \"", ".config.json\" ]]; then");
  }

  lemma HookLine11()
    ensures '\n' !in HookLines[11]
    ensures KeepLineAsWritten(HookLines[11]) <==> 11 in KeptLines
    ensures HookLines[11] != Mark && HookLines[11] != MarkEnd
  {
    assert HookLines[11] == "  echo \"[" + Name + (" hook] running " + Name + "\U{2026}\"");
    assert NoBreak("  echo \"[");
    assert NoBreak(" hook] running " + Name + "\U{2026}\"");
    DroppedLine("  echo \"[", " hook] running " + Name + "\U{2026}\"");
  }

  lemma HookLine12()
    ensures '\n' !in HookLines[12]
    ensures KeepLineAsWritten(HookLines[12]) <==> 12 in KeptLines
    ensures HookLines[12] != Mark && HookLines[12] != MarkEnd
  {
    assert NoBreak("  npx -y ");
    assert NoBreak(" -v");
    DroppedLine("  npx -y ", " -v");
  }

  lemma HookLine13()
    ensures '\n' !in HookLines[13]
    ensures KeepLineAsWritten(HookLines[13]) <==> 13 in KeptLines
    ensures HookLines[13] != Mark && HookLines[13] != MarkEnd
  {
    KeptWithoutD(HookLines[13]);
  }

  lemma HookLine14()
    ensures '\n' !in HookLines[14]
    ensures KeepLineAsWritten(HookLines[14]) <==> 14 in KeptLines
    ensures HookLines[14] != Mark && HookLines[14] != MarkEnd
  {
    assert HookLines[14] == "  echo \"[" + Name + (" hook] no " + Name + ".config.json; skipping.\"");
    assert NoBreak("  echo \"[");
    assert NoBreak(" hook] no " + Name + ".config.json; skipping.\"");
    DroppedLine("  echo \"[", " hook] no " + Name + ".config.json; skipping.\"");
  }

  lemma HookLine15()
    ensures '\n' !in HookLines[15]
    ensures KeepLineAsWritten(HookLines[15]) <==> 15 in KeptLines
    ensures HookLines[15] != Mark && HookLines[15] != MarkEnd
  {
    KeptWithoutD(HookLines[15]);
  }

  lemma HookLine16()
    ensures '\n' !in HookLines[16]
    ensures KeepLineAsWritten(HookLines[16]) <==> 16 in KeptLines
  {
    assert IsPrefix(Mark, HookLines[16]);
  }

  lemma HookLine17()
    ensures '\n' !in HookLines[17]
    ensures KeepLineAsWritten(HookLines[17]) <==> 17 in KeptLines
    ensures HookLines[17] != Mark && HookLines[17] != MarkEnd
  {
    KeptWithoutD(HookLines[17]);
  }

  /** The script starts with the shebang and holds both block markers. */
  lemma HookBodyShape()
    ensures IsPrefix(Shebang, HookBody)
    ensures Contains(HookBody, Mark) && Contains(HookBody, MarkEnd)
  {
    JoinContainsElement(HookLines, "\n", 2);
    JoinContainsElement(HookLines, "\n", 16);
    assert HookBody == HookLines[0] + "\n" + Join(HookLines[1..], "\n");
  }

  /** `path.isAbsolute` for POSIX paths. */
  predicate IsAbsolute(p: string) {
    |p| > 0 && p[0] == '/'
  }

  /**
   * The hooks directory. `configured` is the output of `git config --get core.hooksPath`,
   * `None` when that command fails; a non-blank setting, trimmed, is taken as is when absolute
   * and relative to the repository root otherwise.
   */
  function HooksDir(root: string, configured: Option<string>): (dir: string)
    ensures IsAbsolute(root) ==> IsAbsolute(dir)
    ensures configured.None? ==> dir == root + "/.git/hooks"
    ensures configured.Some? && IsAbsolute(Trim(configured.value)) ==> dir == Trim(configured.value)
    ensures configured.Some? && Trim(configured.value) != "" && !IsAbsolute(Trim(configured.value)) ==>
      dir == root + "/" + Trim(configured.value)
    ensures configured.Some? && Trim(configured.value) == "" ==> dir == root + "/.git/hooks"
  {
    var custom := if configured.Some? then Trim(configured.value) else "";
    if custom != "" then
      if IsAbsolute(custom) then custom else root + "/" + custom
    else
      root + "/.git/hooks"
  }

  /** Blank space around the setting, or a blank setting, makes no difference. */
  lemma HooksDirIgnoresBlanks(root: string, setting: string)
    ensures HooksDir(root, Some(Trim(setting))) == HooksDir(root, Some(setting))
    ensures Trim(setting) == "" ==> HooksDir(root, Some(setting)) == HooksDir(root, None)
  {
    TrimIdempotent(setting);
  }

  function HookPath(dir: string): string {
    dir + "/" + HookName
  }

  /**
   * The installer does nothing when asked not to, under CI, or outside a git work tree. Only
   * the exact values `0` and `true` opt out.
   */
  predicate InstallSkipped(env: Env, inRepo: bool)
    ensures inRepo && "DUPLIGIT_INSTALL_HOOK" !in env && "CI" !in env ==> !InstallSkipped(env, inRepo)
    ensures "CI" in env && env["CI"] != "true" && !InstallSkipped(env - {"CI"}, inRepo) ==>
      !InstallSkipped(env, inRepo)
  {
    EnvVar(env, "DUPLIGIT_INSTALL_HOOK") == Some("0") || EnvVar(env, "CI") == Some("true") || !inRepo
  }

  /**
   * The hook file after installing: a new file holds the script; an existing file that already
   * has the marker is left alone; any other existing file gets a line break and the script
   * appended.
   */
  function MergeHook(existing: Option<string>): (r: Option<string>)
    ensures r.None? <==> existing.Some? && Contains(existing.value, Mark)
    ensures r.Some? ==> Contains(r.value, Mark) && Contains(r.value, MarkEnd)
    ensures existing.None? ==> r == Some(HookBody)
    ensures r.Some? && existing.Some? ==> IsPrefix(existing.value + "\n", r.value)
    ensures r.Some? && existing.Some? ==> |r.value| == |existing.value| + 1 + |HookBody|
    ensures r.Some? ==> |r.value| >= |HookBody| && r.value[|r.value| - |HookBody|..] == HookBody
  {
    HookBodyShape();
    match existing
    case None => Some(HookBody)
    case Some(text) =>
      if Contains(text, Mark) then None
      else
        var updated := text + "\n" + HookBody;
        ContainsWithin(text + "\n", HookBody, Mark);
        ContainsWithin(text + "\n", HookBody, MarkEnd);
        Some(updated)
  }

  /** The install script: the opt-out check, then the merge. */
  function Install(env: Env, inRepo: bool, existing: Option<string>): (r: Option<string>)
    ensures r.None? <==> InstallSkipped(env, inRepo) || (existing.Some? && Contains(existing.value, Mark))
    ensures r.Some? ==> Contains(r.value, Mark)
    ensures !InstallSkipped(env, inRepo) && existing.None? ==> r == Some(HookBody)
  {
    if InstallSkipped(env, inRepo) then None else MergeHook(existing)
  }

  /**
   * The texts between `${` and `}` in the template literal of bin/dupligit-install-hook.js:52-68,
   * in order. The third comes from the bash default expansion `${DUPLIGIT_TOKEN:-}` on line 55,
   * which JavaScript reads as a substitution of its own; `$(` and `$t` open none.
   */
  const TemplateSubstitutions: seq<string> := ["SHEBANG", "MARK", "DUPLIGIT_TOKEN:-", "MARK"]

  /** With the bash expansion escaped as `\${`, only the two constants are substituted. */
  const EscapedTemplateSubstitutions: seq<string> := ["SHEBANG", "MARK", "MARK"]

  /** A JavaScript name: letters, digits, `_` and `$`, not starting with a digit. */
  predicate IsName(s: string) {
    && s != ""
    && !('0' <= s[0] <= '9')
    && forall i :: 0 <= i < |s| ==>
         ('a' <= s[i] <= 'z') || ('A' <= s[i] <= 'Z') || ('0' <= s[i] <= '9') || s[i] == '_' || s[i] == '$'
  }

  /**
   * A template literal parses when each substitution is an expression. Those of this template
   * are plain names, and a name followed by `:-` ends no expression.
   */
  predicate TemplateParses(substitutions: seq<string>) {
    forall k :: 0 <= k < |substitutions| ==> IsName(substitutions[k])
  }

  /**
   * bin/dupligit-install-hook.js as written: the template literal does not parse, so the module
   * is a syntax error and none of its statements, the `try` around `install()` included, runs.
   */
  function InstallAsWritten(env: Env, inRepo: bool, existing: Option<string>): (r: Result<Option<string>>)
    ensures r.Success? ==> r.value == Install(env, inRepo, existing)
  {
    if TemplateParses(TemplateSubstitutions) then Success(Install(env, inRepo, existing))
    else Failure(TemplateSyntaxError)
  }

  /**
   * As written, the installer never writes a hook, even into a repository without one; with the
   * bash expansion escaped the template parses and the script is written.
   */
  lemma InstallFailsAsWritten(env: Env, inRepo: bool, existing: Option<string>)
    ensures InstallAsWritten(env, inRepo, existing) == Failure(TemplateSyntaxError)
    ensures TemplateParses(EscapedTemplateSubstitutions)
    ensures !InstallSkipped(env, inRepo) && existing.None? ==> Install(env, inRepo, existing) == Some(HookBody)
  {
    assert TemplateSubstitutions[2][14] == ':';
    assert !IsName(TemplateSubstitutions[2]);
  }

  /** Installing into a hook that an install has written changes nothing. */
  lemma InstallIdempotent(env: Env, inRepo: bool, existing: Option<string>)
    requires Install(env, inRepo, existing).Some?
    ensures Install(env, inRepo, Install(env, inRepo, existing)) == None
  {
  }

  /** The uninstall script's line test: drop a line that starts with the marker or mentions `dupligit`. */
  predicate KeepLineAsWritten(l: string) {
    !IsPrefix(Mark, l) && !Contains(l, Name)
  }

  /** A line without the letter `d` passes the line test: both the marker and the name contain one. */
  lemma KeptWithoutD(l: string)
    requires 'd' !in l
    ensures KeepLineAsWritten(l)
  {
    if |Mark| <= |l| {
      assert l[..|Mark|][6] == l[6];
    }
    forall i | 0 <= i <= |l| - |Name|
      ensures !OccursAt(l, Name, i)
    {
      assert l[i..i + |Name|][0] == l[i];
    }
  }

  /** A text free of line breaks and of the letter `d`. */
  predicate PlainText(s: string) {
    forall i :: 0 <= i < |s| ==> s[i] != 'd' && s[i] != '\n'
  }

  lemma PlainConcat(a: string, b: string)
    requires PlainText(a) && PlainText(b)
    ensures PlainText(a + b)
  {
  }

  /** A line free of line breaks and of `d` is one line, and it passes the line test. */
  lemma PlainKept(l: string)
    requires PlainText(l)
    ensures '\n' !in l && KeepLineAsWritten(l)
  {
    KeptWithoutD(l);
  }

  /** A text free of line breaks. */
  predicate NoBreak(s: string) {
    forall i :: 0 <= i < |s| ==> s[i] != '\n'
  }

  /** A line that mentions the name, with no line break around it, is one line that fails the line test. */
  lemma DroppedLine(a: string, b: string)
    requires NoBreak(a) && NoBreak(b)
    ensures '\n' !in a + Name + b && !KeepLineAsWritten(a + Name + b)
  {
    assert NoBreak(Name);
    assert NoBreak(a + Name + b);
    DroppedWithName(a, b);
  }

  /** A line that mentions the name fails the line test. */
  lemma DroppedWithName(a: string, b: string)
    ensures !KeepLineAsWritten(a + Name + b)
  {
    var l := a + Name + b;
    assert l[|a|..|a| + |Name|] == Name;
    assert OccursAt(l, Name, |a|);
  }

  /** The uninstall script's rewrite of the hook as written: every line that fails the test goes. */
  function CleanHook(text: string): (r: string)
  {
    Join(Filter(Split(text, "\n"), KeepLineAsWritten), "\n")
  }

  /** The lines of the cleaned hook are the surviving lines of the original, in order. */
  lemma CleanHookLines(text: string)
    ensures var kept := Filter(Split(text, "\n"), KeepLineAsWritten);
            Split(CleanHook(text), "\n") == if kept == [] then [""] else kept
    ensures forall k :: 0 <= k < |Split(CleanHook(text), "\n")| ==>
      KeepLineAsWritten(Split(CleanHook(text), "\n")[k])
  {
    var lines := Split(text, "\n");
    var kept := Filter(lines, KeepLineAsWritten);
    FilterAccepted(lines, KeepLineAsWritten);
    if kept != [] {
      forall k | 0 <= k < |kept|
        ensures '\n' !in kept[k]
      {
        FilterMembers(lines, KeepLineAsWritten, kept[k]);
        SplitPiecesAvoidLineBreak(text);
      }
      SplitJoin(kept, '\n');
    } else {
      assert KeepLineAsWritten("") by {
        assert !Contains("", Name);
      }
    }
  }

  /** No line that a split at line breaks produces holds a line break. */
  lemma SplitPiecesAvoidLineBreak(text: string)
    ensures forall k :: 0 <= k < |Split(text, "\n")| ==> '\n' !in Split(text, "\n")[k]
  {
    SplitPiecesAvoidChar(text, '\n');
  }

  /** Cleaning a cleaned hook changes nothing. */
  lemma CleanHookIdempotent(text: string)
    ensures CleanHook(CleanHook(text)) == CleanHook(text)
  {
    CleanHookLines(text);
    var lines := Split(CleanHook(text), "\n");
    FilterKeepsAll(lines, KeepLineAsWritten);
    JoinSplit(CleanHook(text), "\n");
  }

  /**
   * A line that passes the test survives the cleaning, and a line of the cleaned hook passed the
   * test and was a line of the hook (or is the empty text left when no line survives).
   */
  lemma CleanHookMembers(text: string, l: string)
    ensures l in Split(text, "\n") && KeepLineAsWritten(l) ==> l in Split(CleanHook(text), "\n")
    ensures l in Split(CleanHook(text), "\n") ==> KeepLineAsWritten(l) && (l in Split(text, "\n") || l == "")
  {
    CleanHookLines(text);
    FilterMembers(Split(text, "\n"), KeepLineAsWritten, l);
  }

  /** What the line test leaves of the installed script, in order. */
  const SurvivingLines: seq<string> := [
    HookLines[0], HookLines[1], HookLines[4], HookLines[6], HookLines[7],
    HookLines[8], HookLines[9], HookLines[13], HookLines[15], HookLines[17]
  ]

  lemma FilterHookLines()
    ensures Filter(HookLines, KeepLineAsWritten) == SurvivingLines
  {
    forall k | 0 <= k < |HookLines|
      ensures KeepLineAsWritten(HookLines[k]) <==> k in KeptLines
    {
      HookLineFacts(k);
    }
    FilterListedLines(HookLines, KeepLineAsWritten);
  }

  /** A test on eighteen lines that accepts exactly those at the `KeptLines` positions. */
  lemma FilterListedLines(xs: seq<string>, keep: string -> bool)
    requires |xs| == 18
    requires forall k :: 0 <= k < |xs| ==> (keep(xs[k]) <==> k in KeptLines)
    ensures Filter(xs, keep) == [xs[0], xs[1], xs[4], xs[6], xs[7], xs[8], xs[9], xs[13], xs[15], xs[17]]
  {
    FilterListedTail(xs, keep);
    FilterListedMiddle(xs, keep);
    FilterListedHead(xs, keep);
  }

  lemma FilterListedTail(xs: seq<string>, keep: string -> bool)
    requires |xs| == 18
    requires forall k :: 0 <= k < |xs| ==> (keep(xs[k]) <==> k in KeptLines)
    ensures Filter(xs[12..], keep) == [xs[13], xs[15], xs[17]]
  {
    assert xs[18..] == [];
    FilterKept(xs, 17, keep);
    FilterDropped(xs, 16, keep);
    FilterKept(xs, 15, keep);
    FilterDropped(xs, 14, keep);
    FilterKept(xs, 13, keep);
    FilterDropped(xs, 12, keep);
  }

  lemma FilterListedMiddle(xs: seq<string>, keep: string -> bool)
    requires |xs| == 18
    requires forall k :: 0 <= k < |xs| ==> (keep(xs[k]) <==> k in KeptLines)
    ensures Filter(xs[6..], keep) == [xs[6], xs[7], xs[8], xs[9]] + Filter(xs[12..], keep)
  {
    var f12 := Filter(xs[12..], keep);
    FilterDropped(xs, 11, keep);
    FilterDropped(xs, 10, keep);
    FilterKept(xs, 9, keep);
    FilterKept(xs, 8, keep);
    FilterKept(xs, 7, keep);
    FilterKept(xs, 6, keep);
    ConsFour(xs[6], xs[7], xs[8], xs[9], f12);
  }

  lemma FilterListedHead(xs: seq<string>, keep: string -> bool)
    requires |xs| == 18
    requires forall k :: 0 <= k < |xs| ==> (keep(xs[k]) <==> k in KeptLines)
    ensures Filter(xs, keep) == [xs[0], xs[1], xs[4]] + Filter(xs[6..], keep)
  {
    var f6 := Filter(xs[6..], keep);
    FilterDropped(xs, 5, keep);
    FilterKept(xs, 4, keep);
    FilterDropped(xs, 3, keep);
    FilterDropped(xs, 2, keep);
    FilterKept(xs, 1, keep);
    FilterKept(xs, 0, keep);
    assert xs[0..] == xs;
    ConsThree(xs[0], xs[1], xs[4], f6);
  }

  /** The surviving lines hold no line break and pass the line test. */
  lemma SurvivingLinesFacts()
    ensures forall k :: 0 <= k < |SurvivingLines| ==>
      '\n' !in SurvivingLines[k] && KeepLineAsWritten(SurvivingLines[k])
  {
    FilterHookLines();
    FilterAccepted(HookLines, KeepLineAsWritten);
    forall k | 0 <= k < |SurvivingLines|
      ensures '\n' !in SurvivingLines[k]
    {
      FilterMembers(HookLines, KeepLineAsWritten, SurvivingLines[k]);
      var j :| 0 <= j < |HookLines| && HookLines[j] == SurvivingLines[k];
      HookLineFacts(j);
    }
  }

  /** The script cleaned as written, as text. */
  lemma CleanedHookBody()
    ensures CleanHook(HookBody) == Join(SurvivingLines, "\n")
  {
    HookBodyLines();
    FilterHookLines();
  }

  /** The cleaned script read back line by line. */
  lemma CleanedHookBodyLines()
    ensures Split(Join(SurvivingLines, "\n"), "\n") == SurvivingLines
  {
    SurvivingLinesFacts();
    SplitJoin(SurvivingLines, '\n');
  }

  /**
   * Uninstalling a freshly installed hook as written leaves a script whose `else` line has lost
   * the `if` line it belongs to (line 13 survives, line 10 does not): the shell rejects the
   * script, so every later push fails.
   */
  lemma UninstallOrphansElse()
    ensures UninstallAsWritten(MergeHook(None)) == Some(Join(SurvivingLines, "\n"))
    ensures Split(Join(SurvivingLines, "\n"), "\n") == SurvivingLines
    ensures "else" in SurvivingLines && "else" == HookLines[13]
    ensures HookLines[10] !in SurvivingLines
  {
    CleanedHookBody();
    CleanedHookBodyLines();
    IfLineDropped();
    assert SurvivingLines[7] == HookLines[13];
  }

  /** The `if` line of the config check is among the lines the line test drops. */
  lemma IfLineDropped()
    ensures HookLines[10] !in SurvivingLines
  {
    var dropped := HookLines[10];
    HookLineFacts(10);
    SurvivingLinesFacts();
    forall k | 0 <= k < |SurvivingLines|
      ensures SurvivingLines[k] != dropped
    {
      assert KeepLineAsWritten(SurvivingLines[k]);
    }
  }

  /** The uninstall script as written: no hook file, nothing to do. */
  function UninstallAsWritten(existing: Option<string>): (r: Option<string>)
    ensures r.None? <==> existing.None?
  {
    match existing
    case None => None
    case Some(text) => Some(CleanHook(text))
  }

  /** The lines after the first end marker; none when no end marker follows. */
  function AfterBlockEnd(lines: seq<string>): (r: seq<string>)
    ensures |r| <= |lines| && r == lines[|lines| - |r|..]
    decreases |lines|
  {
    if lines == [] then []
    else if lines[0] == MarkEnd then lines[1..]
    else AfterBlockEnd(lines[1..])
  }

  /**
   * The evidently intended uninstall: each dupligit block, from its marker line through its end
   * marker line, is taken out, and every other line is kept as it is.
   */
  function RemoveBlocks(lines: seq<string>): (r: seq<string>)
    ensures |r| <= |lines|
    decreases |lines|
  {
    if lines == [] then []
    else if lines[0] == Mark then RemoveBlocks(AfterBlockEnd(lines[1..]))
    else [lines[0]] + RemoveBlocks(lines[1..])
  }

  /** No marker line survives, and every surviving line was a line of the hook. */
  lemma {:induction false} RemoveBlocksLines(lines: seq<string>)
    ensures forall k :: 0 <= k < |RemoveBlocks(lines)| ==>
      RemoveBlocks(lines)[k] != Mark && RemoveBlocks(lines)[k] in lines
    decreases |lines|
  {
    if lines != [] {
      if lines[0] == Mark {
        var rest := AfterBlockEnd(lines[1..]);
        RemoveBlocksLines(rest);
        assert RemoveBlocks(lines) == RemoveBlocks(rest);
        SuffixElements(lines, rest);
      } else {
        RemoveBlocksLines(lines[1..]);
        ConsElements(lines, RemoveBlocks(lines[1..]));
      }
    }
  }

  /** The elements of a proper suffix of a sequence are elements of the sequence. */
  lemma SuffixElements<T>(s: seq<T>, t: seq<T>)
    requires 1 <= |s| && |t| <= |s| - 1 && t == s[1..][|s| - 1 - |t|..]
    ensures forall x :: x in t ==> x in s
  {
    assert t == s[|s| - |t|..];
  }

  /** Putting a sequence's head in front of lines drawn from its tail gives lines drawn from it. */
  lemma ConsElements(s: seq<string>, r: seq<string>)
    requires s != [] && s[0] != Mark
    requires forall k :: 0 <= k < |r| ==> r[k] != Mark && r[k] in s[1..]
    ensures forall k :: 0 <= k < |[s[0]] + r| ==> ([s[0]] + r)[k] != Mark && ([s[0]] + r)[k] in s
  {
    forall k | 0 <= k < |[s[0]] + r|
      ensures ([s[0]] + r)[k] != Mark && ([s[0]] + r)[k] in s
    {
      if k > 0 {
        assert ([s[0]] + r)[k] == r[k - 1];
      }
    }
  }

  /** A hook without a marker line is left exactly as it is. */
  lemma {:induction false} RemoveBlocksNoMark(lines: seq<string>)
    requires forall k :: 0 <= k < |lines| ==> lines[k] != Mark
    ensures RemoveBlocks(lines) == lines
    decreases |lines|
  {
    if lines != [] {
      assert lines[0] != Mark;
      RemoveBlocksNoMark(lines[1..]);
    }
  }

  /** Lines without a marker in front of a hook are kept, and the rest is cleaned as before. */
  lemma {:induction false} RemoveBlocksAfterPlainLines(pre: seq<string>, rest: seq<string>)
    requires forall k :: 0 <= k < |pre| ==> pre[k] != Mark
    ensures RemoveBlocks(pre + rest) == pre + RemoveBlocks(rest)
    decreases |pre|
  {
    if pre == [] {
      assert pre + rest == rest;
    } else {
      assert (pre + rest)[0] == pre[0];
      assert (pre + rest)[1..] == pre[1..] + rest;
      RemoveBlocksAfterPlainLines(pre[1..], rest);
    }
  }

  /** Skipping past an end marker drops exactly the block's lines. */
  lemma {:induction false} AfterBlockEndSkips(mid: seq<string>, post: seq<string>)
    requires forall k :: 0 <= k < |mid| ==> mid[k] != MarkEnd
    ensures AfterBlockEnd(mid + [MarkEnd] + post) == post
    decreases |mid|
  {
    if mid == [] {
      assert (mid + [MarkEnd] + post)[1..] == post;
    } else {
      assert (mid + [MarkEnd] + post)[1..] == mid[1..] + [MarkEnd] + post;
      AfterBlockEndSkips(mid[1..], post);
    }
  }

  /** A block between lines without markers is removed and everything around it kept. */
  lemma {:induction false} RemoveBlocksSkipsBlock(pre: seq<string>, mid: seq<string>, post: seq<string>)
    requires forall k :: 0 <= k < |pre| ==> pre[k] != Mark
    requires forall k :: 0 <= k < |mid| ==> mid[k] != MarkEnd
    ensures RemoveBlocks(pre + [Mark] + mid + [MarkEnd] + post) == pre + RemoveBlocks(post)
    decreases |pre|
  {
    var lines := pre + [Mark] + mid + [MarkEnd] + post;
    if pre == [] {
      assert lines[1..] == mid + [MarkEnd] + post;
      AfterBlockEndSkips(mid, post);
    } else {
      assert lines[1..] == pre[1..] + [Mark] + mid + [MarkEnd] + post;
      RemoveBlocksSkipsBlock(pre[1..], mid, post);
    }
  }

  /** The corrected uninstall: the hook with its dupligit blocks taken out; no file, nothing to do. */
  function Uninstall(existing: Option<string>): (r: Option<string>)
    ensures r.None? <==> existing.None?
  {
    match existing
    case None => None
    case Some(text) => Some(Join(RemoveBlocks(Split(text, "\n")), "\n"))
  }

  /** The installed script is its first two lines, then one block, then the final empty line. */
  lemma HookLinesBlock()
    ensures HookLines[2] == Mark && HookLines[16] == MarkEnd && HookLines[17] == ""
    ensures forall k :: 0 <= k < 2 ==> HookLines[k] != Mark
    ensures forall k :: 3 <= k < 16 ==> HookLines[k] != MarkEnd
  {
    forall k | 0 <= k < 16 && k != 2
      ensures HookLines[k] != Mark && HookLines[k] != MarkEnd
    {
      HookLineFacts(k);
    }
  }

  /** Eighteen lines shaped like the script: two plain lines, one block, a final empty line. */
  lemma RemoveScriptShapedBlock(h: seq<string>)
    requires |h| == 18 && h[2] == Mark && h[16] == MarkEnd && h[17] == ""
    requires forall k :: 0 <= k < 2 ==> h[k] != Mark
    requires forall k :: 3 <= k < 16 ==> h[k] != MarkEnd
    ensures RemoveBlocks(h) == [h[0], h[1], ""]
  {
    assert h == h[..2] + h[2..];
    RemoveBlocksAfterPlainLines(h[..2], h[2..]);
    RemoveLeadingBlock(h[2..]);
  }

  /** A block closed by the end marker and followed by one empty line leaves that line alone. */
  lemma RemoveLeadingBlock(b: seq<string>)
    requires |b| == 16 && b[0] == Mark && b[14] == MarkEnd && b[15] == ""
    requires forall k :: 1 <= k < 14 ==> b[k] != MarkEnd
    ensures RemoveBlocks(b) == [""]
  {
    var mid := b[1..14];
    assert b[1..] == mid + [MarkEnd] + [""];
    AfterBlockEndSkips(mid, [""]);
    assert RemoveBlocks([""]) == [""];
  }

  /** Taking the block out of the installed script leaves its first two lines and the final empty one. */
  lemma RemoveHookBlock()
    ensures RemoveBlocks(HookLines) == [HookLines[0], HookLines[1], ""]
  {
    HookLinesBlock();
    RemoveScriptShapedBlock(HookLines);
  }

  /** The lines left by `RemoveHookBlock`, joined. */
  lemma HookRemainder()
    ensures Join([HookLines[0], HookLines[1], ""], "\n") == Shebang + "set -euo pipefail\n"
  {
    var a, b := HookLines[0], HookLines[1];
    assert a == "#!/usr/bin/env bash" && b == "set -euo pipefail";
    var ls := [a, b, ""];
    assert ls[1..] == [b, ""] && [b, ""][1..] == [""];
    assert Join([b, ""], "\n") == b + "\n";
    assert Join(ls, "\n") == a + "\n" + (b + "\n");
  }

  /** The corrected uninstall of a freshly installed hook leaves only the shebang and `set` lines. */
  lemma UninstallFreshInstall()
    ensures Uninstall(MergeHook(None)) == Some(Shebang + "set -euo pipefail\n")
  {
    HookBodyLines();
    RemoveHookBlock();
    HookRemainder();
  }

  /** No line of a text that does not contain the marker is the marker line. */
  lemma LinesWithoutMark(text: string)
    requires !Contains(text, Mark)
    ensures forall k :: 0 <= k < |Split(text, "\n")| ==> Split(text, "\n")[k] != Mark
  {
    var lines := Split(text, "\n");
    forall k | 0 <= k < |lines|
      ensures Contains(text, lines[k])
    {
      JoinContainsElement(lines, "\n", k);
      JoinSplit(text, "\n");
    }
  }

  /** The lines of a hook with the script appended are its own lines followed by the script's. */
  lemma AppendedHookLines(text: string)
    ensures Split(text + "\n" + HookBody, "\n") == Split(text, "\n") + HookLines
  {
    SplitAppendSep(text, '\n', HookBody);
    HookBodyLines();
  }

  /** Taking the block out of lines without markers followed by the script. */
  lemma RemoveAppendedBlock(lines: seq<string>)
    requires forall k :: 0 <= k < |lines| ==> lines[k] != Mark
    ensures RemoveBlocks(lines + HookLines) == lines + [HookLines[0], HookLines[1], ""]
  {
    RemoveBlocksAfterPlainLines(lines, HookLines);
    RemoveHookBlock();
  }

  /** The corrected uninstall of a hook with the script appended, as lines. */
  lemma UninstallAppendedLines(text: string)
    requires !Contains(text, Mark)
    ensures Uninstall(Some(text + "\n" + HookBody))
         == Some(Join(Split(text, "\n") + [HookLines[0], HookLines[1], ""], "\n"))
  {
    AppendedHookLines(text);
    LinesWithoutMark(text);
    RemoveAppendedBlock(Split(text, "\n"));
  }

  /** A text's lines followed by the remainder of the script, joined. */
  lemma JoinTextAndRemainder(text: string)
    ensures Join(Split(text, "\n") + [HookLines[0], HookLines[1], ""], "\n")
         == text + "\n" + (Shebang + "set -euo pipefail\n")
  {
    JoinAppend(Split(text, "\n"), [HookLines[0], HookLines[1], ""], "\n");
    JoinSplit(text, "\n");
    HookRemainder();
  }

  /**
   * Installing into an existing hook and then uninstalling with the correction gives back the
   * original hook, followed by a line break and the script's shebang and `set` lines.
   */
  lemma UninstallAfterAppend(text: string)
    requires !Contains(text, Mark)
    ensures Uninstall(MergeHook(Some(text))) == Some(text + "\n" + Shebang + "set -euo pipefail\n")
  {
    assert MergeHook(Some(text)) == Some(text + "\n" + HookBody);
    UninstallAppendedLines(text);
    JoinTextAndRemainder(text);
    ConcatAssoc(text + "\n", Shebang, "set -euo pipefail\n");
  }
}
