/**
 * Resolving the push URL: where the access token comes from, and how it is written into a
 * GitHub HTTPS URL. The environment and the token command's output are explicit inputs;
 * `cmdOut` is the command's standard output when it exits with status 0, `None` otherwise.
 */
module Remote {
  import opened Base
  import opened Text

  /** `DUPLIGIT_TOKEN || GITHUB_TOKEN`. */
  function EnvToken(env: Env): Option<string> {
    Or(EnvVar(env, "DUPLIGIT_TOKEN"), EnvVar(env, "GITHUB_TOKEN"))
  }

  /**
   * The token: `DUPLIGIT_TOKEN`, else `GITHUB_TOKEN`, else the trimmed output of a configured
   * token command that succeeded. The result may be present but empty, which counts as no token.
   */
  function ResolveToken(env: Env, tokenCommand: Option<string>, cmdOut: Option<string>): (t: Option<string>)
    ensures Truthy(EnvVar(env, "DUPLIGIT_TOKEN")) ==> t == EnvVar(env, "DUPLIGIT_TOKEN")
    ensures !Truthy(EnvVar(env, "DUPLIGIT_TOKEN")) && Truthy(EnvVar(env, "GITHUB_TOKEN")) ==>
      t == EnvVar(env, "GITHUB_TOKEN")
    ensures Truthy(t) && !Truthy(EnvToken(env)) ==>
      Truthy(tokenCommand) && cmdOut.Some? && t.value == Trim(cmdOut.value)
    ensures !Truthy(EnvToken(env)) && Truthy(tokenCommand) && cmdOut.Some? ==> t == Some(Trim(cmdOut.value))
  {
    var t := EnvToken(env);
    if !Truthy(t) && Truthy(tokenCommand) && cmdOut.Some? then Some(Trim(cmdOut.value)) else t
  }

  /**
   * The early token step of a run: with neither variable set and a token command configured,
   * a non-empty trimmed output of that command is stored as `DUPLIGIT_TOKEN`.
   */
  function PrimeTokenEnv(env: Env, tokenCommand: Option<string>, cmdOut: Option<string>): (e: Env)
    ensures e.Keys >= env.Keys
    ensures forall k :: k in env && k != "DUPLIGIT_TOKEN" ==> e[k] == env[k]
    ensures !Truthy(EnvToken(env)) && Truthy(tokenCommand) && cmdOut.Some? && Trim(cmdOut.value) != "" ==>
      EnvVar(e, "DUPLIGIT_TOKEN") == Some(Trim(cmdOut.value))
    ensures Truthy(EnvToken(env)) || !Truthy(tokenCommand) || cmdOut.None? || Trim(cmdOut.value) == "" ==>
      e == env
  {
    if !Truthy(EnvVar(env, "DUPLIGIT_TOKEN")) && !Truthy(EnvVar(env, "GITHUB_TOKEN"))
      && Truthy(tokenCommand) && cmdOut.Some? && Trim(cmdOut.value) != ""
    then env["DUPLIGIT_TOKEN" := Trim(cmdOut.value)]
    else env
  }

  /** The early step and the later lookup agree: priming the environment never changes the token. */
  lemma PrimeTokenEnvKeepsToken(env: Env, tokenCommand: Option<string>, cmdOut: Option<string>)
    ensures ResolveToken(PrimeTokenEnv(env, tokenCommand, cmdOut), tokenCommand, cmdOut)
         == ResolveToken(env, tokenCommand, cmdOut)
  {
  }

  const SshPrefix := "git@"

  /** The URL after an `http://` or `https://` scheme, if it has one (matched case-sensitively). */
  function AfterHttpScheme(url: string): Option<string> {
    if IsPrefix("https://", url) then Some(url[8..])
    else if IsPrefix("http://", url) then Some(url[7..])
    else None
  }

  /** `^https?://[^@]+@`: the URL already carries credentials. */
  predicate HasCredentials(url: string) {
    var rest := AfterHttpScheme(url);
    rest.Some? && |rest.value| > 0 && rest.value[0] != '@' && '@' in rest.value
  }

  /** `^https?://github\.com/`, ignoring case. */
  predicate IsGitHubHttpUrl(url: string) {
    IsPrefixIgnoreCase("https://github.com/", url) || IsPrefixIgnoreCase("http://github.com/", url)
  }

  /** Length of the scheme `^https?://` matched ignoring case; only used on a GitHub HTTP URL. */
  function SchemeLength(url: string): (n: nat)
    requires IsGitHubHttpUrl(url)
    ensures n <= |url|
  {
    if IsPrefixIgnoreCase("https://", url) then 8 else 7
  }

  /** A URL that is left exactly as configured. */
  predicate KeptAsIs(url: string) {
    IsPrefix(SshPrefix, url) || HasCredentials(url)
  }

  /**
   * The replacement string of `String.prototype.replace` expanded against a match: `$$` is a
   * dollar sign, `$&` the matched text, `` $` `` the text before the match and `$'` the text
   * after it. The pattern has no capture groups, so every other `$` stands for itself.
   */
  function Substitute(rep: string, matched: string, before: string, after: string): string
    decreases |rep|
  {
    if rep == "" then ""
    else if rep[0] == '$' && |rep| >= 2 && rep[1] in "$&`'" then
      var piece := if rep[1] == '$' then "$" else if rep[1] == '&' then matched
                   else if rep[1] == '`' then before else after;
      piece + Substitute(rep[2..], matched, before, after)
    else [rep[0]] + Substitute(rep[1..], matched, before, after)
  }

  /** A replacement string without dollar signs is used as it is. */
  lemma {:induction false} SubstitutePlain(rep: string, matched: string, before: string, after: string)
    requires '$' !in rep
    ensures Substitute(rep, matched, before, after) == rep
    decreases |rep|
  {
    if rep != "" {
      SubstitutePlain(rep[1..], matched, before, after);
    }
  }

  /** A dollar-free head of a replacement string is copied, and the rest is expanded on its own. */
  lemma {:induction false} SubstitutePlainHead(a: string, b: string, matched: string, before: string, after: string)
    requires '$' !in a
    ensures Substitute(a + b, matched, before, after) == a + Substitute(b, matched, before, after)
    decreases |a|
  {
    if a != "" {
      assert (a + b)[0] == a[0] && (a + b)[1..] == a[1..] + b;
      assert a[0] != '$';
      assert Substitute(a + b, matched, before, after) == [a[0]] + Substitute(a[1..] + b, matched, before, after);
      SubstitutePlainHead(a[1..], b, matched, before, after);
      var s := Substitute(b, matched, before, after);
      assert [a[0]] + (a[1..] + s) == a + s;
    } else {
      assert a + b == b;
    }
  }

  /** A trailing `@` is copied: `$@` is no pattern, so it cannot join a dollar sign before it. */
  lemma {:induction false} SubstituteAtTail(a: string, matched: string, before: string, after: string)
    ensures Substitute(a + "@", matched, before, after) == Substitute(a, matched, before, after) + "@"
    decreases |a|
  {
    var m := Substitute(a, matched, before, after);
    if a == "" {
      assert a + "@" == "@";
    } else if a[0] == '$' && |a| >= 2 && a[1] in "$&`'" {
      var piece := if a[1] == '$' then "$" else if a[1] == '&' then matched
                   else if a[1] == '`' then before else after;
      assert (a + "@")[0] == a[0] && (a + "@")[1] == a[1] && (a + "@")[2..] == a[2..] + "@";
      var rest := Substitute(a[2..], matched, before, after);
      assert m == piece + rest;
      SubstituteAtTail(a[2..], matched, before, after);
      assert piece + (rest + "@") == (piece + rest) + "@";
    } else {
      assert (a + "@")[0] == a[0] && (a + "@")[1..] == a[1..] + "@";
      assert !(a[0] == '$' && a[1..] + "@" != "" && (a[1..] + "@")[0] in "$&`'") by {
        if a[0] == '$' && |a| == 1 {
          assert a[1..] + "@" == "@";
        }
      }
      var rest := Substitute(a[1..], matched, before, after);
      assert m == [a[0]] + rest;
      SubstituteAtTail(a[1..], matched, before, after);
      assert [a[0]] + (rest + "@") == ([a[0]] + rest) + "@";
    }
  }

  /** What a token turns into inside `https://${token}@` when that string replaces the scheme. */
  function ExpandedToken(token: string, url: string): string
    requires IsGitHubHttpUrl(url)
  {
    Substitute(token, url[..SchemeLength(url)], "", url[SchemeLength(url)..])
  }

  /**
   * The push URL. SSH URLs and URLs with credentials are kept; a GitHub HTTP(S) URL has its
   * scheme replaced by `https://${token}@`, a replacement string in which `$` patterns of the
   * token are expanded; anything else is kept.
   */
  function RewriteUrl(url: string, token: Option<string>): (r: string)
    ensures r != url <==> !KeptAsIs(url) && Truthy(token) && IsGitHubHttpUrl(url)
    ensures r != url ==> r == "https://" + ExpandedToken(token.value, url) + "@" + url[SchemeLength(url)..]
    ensures r != url && '$' !in token.value ==> r == "https://" + token.value + "@" + url[SchemeLength(url)..]
  {
    if KeptAsIs(url) then url
    else if Truthy(token) && IsGitHubHttpUrl(url) then
      var n := SchemeLength(url);
      var rest := url[n..];
      var tok := token.value;
      var r := Substitute("https://" + tok + "@", url[..n], "", rest) + rest;
      assert "https://" + tok + "@" == "https://" + (tok + "@");
      SubstitutePlainHead("https://", tok + "@", url[..n], "", rest);
      SubstituteAtTail(tok, url[..n], "", rest);
      assert r == "https://" + ExpandedToken(tok, url) + "@" + rest;
      assert '$' !in tok ==> Substitute(tok, url[..n], "", rest) == tok by {
        if '$' !in tok {
          SubstitutePlain(tok, url[..n], "", rest);
        }
      }
      assert |r| > |url|;
      r
    else url
  }

  /** Rewriting is idempotent: a rewritten URL is either recognised as credentialed or not GitHub's. */
  lemma RewriteUrlIdempotent(url: string, token: Option<string>)
    ensures RewriteUrl(RewriteUrl(url, token), token) == RewriteUrl(url, token)
  {
    var r := RewriteUrl(url, token);
    if r != url {
      var e := ExpandedToken(token.value, url);
      var rest := url[SchemeLength(url)..];
      assert r == "https://" + e + "@" + rest;
      if e != "" && e[0] != '@' {
        TokenUrlHasCredentials(e, rest);
      } else {
        AtTokenUrlNotGitHub(e, rest);
      }
    }
  }

  /** A URL with a token not starting with `@` written in is recognised as carrying credentials. */
  lemma TokenUrlHasCredentials(tok: string, rest: string)
    requires tok != "" && tok[0] != '@'
    ensures HasCredentials("https://" + tok + "@" + rest)
  {
    var r := "https://" + tok + "@" + rest;
    var after := tok + "@" + rest;
    assert r == "https://" + after;
    assert r[..8] == "https://";
    assert r[8..] == after;
    assert after[|tok|] == '@';
  }

  /** An empty token or one starting with `@` leaves an `@` where the host was, so the URL is not GitHub's. */
  lemma AtTokenUrlNotGitHub(tok: string, rest: string)
    requires tok == "" || tok[0] == '@'
    ensures !IsGitHubHttpUrl("https://" + tok + "@" + rest)
  {
    var r := "https://" + tok + "@" + rest;
    assert r[4] == 's' && r[8] == '@';
    assert LowerAscii(r[8]) != LowerAscii("https://github.com/"[8]);
    assert LowerAscii(r[4]) != LowerAscii("http://github.com/"[4]);
  }

  /** A token holding `$$` reaches the URL with a single dollar sign. */
  lemma DollarTokenExpands(url: string, tok: string)
    requires url == "https://github.com/o/r" && tok == "a$$b"
    ensures RewriteUrl(url, Some(tok)) == "https://" + "a$b" + "@" + url[8..]
  {
    PlainGitHubUrl(url);
    DoubleDollar(tok, url[..8], url[8..]);
    RewriteGitHubUrl(url, tok);
  }

  /** A GitHub URL without credentials is rewritten with the expanded token. */
  lemma RewriteGitHubUrl(url: string, tok: string)
    requires IsGitHubHttpUrl(url) && !KeptAsIs(url) && tok != ""
    ensures RewriteUrl(url, Some(tok)) == "https://" + ExpandedToken(tok, url) + "@" + url[SchemeLength(url)..]
  {
    assert Truthy(Some(tok));
  }

  /** The example URL is a GitHub HTTPS URL without credentials. */
  lemma PlainGitHubUrl(url: string)
    requires url == "https://github.com/o/r"
    ensures IsGitHubHttpUrl(url) && !KeptAsIs(url) && SchemeLength(url) == 8
  {
    assert IsPrefixIgnoreCase("https://", url);
    assert IsPrefixIgnoreCase("https://github.com/", url);
    assert url[0] != SshPrefix[0];
    assert AfterHttpScheme(url) == Some(url[8..]);
    assert url[8..] == "github.com/o/r";
    assert forall i :: 0 <= i < |url[8..]| ==> url[8..][i] != '@';
  }

  /** `$$` expands to one dollar sign. */
  lemma DoubleDollar(tok: string, matched: string, after: string)
    requires tok == "a$$b"
    ensures Substitute(tok, matched, "", after) == "a$b"
  {
    assert tok[1..] == "$$b" && "$$b"[2..] == "b" && "b"[1..] == "";
    assert Substitute("b", matched, "", after) == "b";
    assert Substitute("$$b", matched, "", after) == "$" + "b";
  }

  /** The remote URL of a run: the configured URL rewritten with the resolved token. */
  function ResolveTargetRemoteUrl(targetRepo: string, env: Env, tokenCommand: Option<string>, cmdOut: Option<string>): (r: string)
    ensures Truthy(EnvVar(env, "DUPLIGIT_TOKEN")) && !KeptAsIs(targetRepo) && IsGitHubHttpUrl(targetRepo) ==>
      r == "https://" + ExpandedToken(env["DUPLIGIT_TOKEN"], targetRepo) + "@" + targetRepo[SchemeLength(targetRepo)..]
    ensures Truthy(EnvVar(env, "DUPLIGIT_TOKEN")) && !KeptAsIs(targetRepo) && IsGitHubHttpUrl(targetRepo)
            && '$' !in env["DUPLIGIT_TOKEN"] ==>
      r == "https://" + env["DUPLIGIT_TOKEN"] + "@" + targetRepo[SchemeLength(targetRepo)..]
    ensures !KeptAsIs(targetRepo) && IsGitHubHttpUrl(targetRepo) && Truthy(ResolveToken(env, tokenCommand, cmdOut)) ==>
      r == "https://" + ExpandedToken(ResolveToken(env, tokenCommand, cmdOut).value, targetRepo) + "@"
           + targetRepo[SchemeLength(targetRepo)..]
    ensures !Truthy(ResolveToken(env, tokenCommand, cmdOut)) ==> r == targetRepo
    ensures KeptAsIs(targetRepo) || !IsGitHubHttpUrl(targetRepo) ==> r == targetRepo
  {
    RewriteUrl(targetRepo, ResolveToken(env, tokenCommand, cmdOut))
  }

  /**
   * lib/dupligit.js:152 as written: the history mode passes `DUPLIGIT_TOKEN || GITHUB_TOKEN` where
   * the configuration is expected. When that value is `undefined`, reading its `tokenCommand`
   * throws; a string has no such property, so the command is never consulted.
   */
  function HistoryRemoteUrlAsWritten(targetRepo: string, env: Env): (r: Result<string>)
    ensures r.Success? ==> r.value == RewriteUrl(targetRepo, EnvToken(env))
  {
    var arg := EnvToken(env);
    if arg.None? then Failure(TokenArgUndefined)
    else Success(RewriteUrl(targetRepo, arg))
  }

  /** As written, a history run without any token fails even for an SSH URL that needs none. */
  lemma HistoryRemoteUrlAsWrittenFails(targetRepo: string, tokenCommand: Option<string>, cmdOut: Option<string>)
    requires IsPrefix(SshPrefix, targetRepo)
    ensures HistoryRemoteUrlAsWritten(targetRepo, map[]).Failure?
    ensures ResolveTargetRemoteUrl(targetRepo, map[], tokenCommand, cmdOut) == targetRepo
  {
  }
}
