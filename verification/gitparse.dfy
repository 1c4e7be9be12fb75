/**
 * Reading the text that git prints: the NUL-separated path listing of a commit and the
 * author/date/message block of `git show -s`. Each comes in the corrected form the model uses
 * and in the form lib/dupligit.js writes, whose separators are two-character escapes.
 */
module GitParse {
  import opened Text

  /** A string `Boolean` accepts: JavaScript's only falsy string is the empty one. */
  predicate IsTruthyString(s: string) {
    s != ""
  }

  /**
   * `xs.filter(Boolean)` on strings: the generic `filter` with the truthiness test, so the
   * non-empty strings are kept in order and with their repetitions.
   */
  function NonEmpty(xs: seq<string>): (r: seq<string>)
    ensures forall k :: 0 <= k < |r| ==> r[k] != "" && r[k] in xs
    ensures forall k :: 0 <= k < |xs| && xs[k] != "" ==> xs[k] in r
    ensures |r| <= |xs|
  {
    var r := Filter(xs, IsTruthyString);
    FilterAccepted(xs, IsTruthyString);
    assert forall x :: x in r <==> x in xs && IsTruthyString(x) by {
      forall x
        ensures x in r <==> x in xs && IsTruthyString(x)
      {
        FilterMembers(xs, IsTruthyString, x);
      }
    }
    r
  }

  /** The listing git prints with `-z`: every path followed by a NUL character. */
  function NulTerminated(paths: seq<string>): string {
    if paths == [] then "" else paths[0] + "\0" + NulTerminated(paths[1..])
  }

  /** A path as git lists it: non-empty and free of NUL characters. */
  predicate IsListablePath(p: string) {
    p != "" && '\0' !in p
  }

  /** The tracked paths of a NUL-separated listing. */
  function ParseTreeListing(raw: string): (paths: seq<string>)
    ensures forall k :: 0 <= k < |paths| ==> IsListablePath(paths[k])
  {
    var parts := NonEmpty(Split(raw, "\0"));
    assert forall k :: 0 <= k < |parts| ==> '\0' !in parts[k] by {
      forall k | 0 <= k < |parts|
        ensures '\0' !in parts[k]
      {
        SplitPiecesAvoidChar(raw, '\0');
      }
    }
    parts
  }

  /** Parsing the listing git prints gives back exactly the listed paths, in order. */
  lemma {:induction false} ParseTreeListingRoundTrip(paths: seq<string>)
    requires forall k :: 0 <= k < |paths| ==> IsListablePath(paths[k])
    ensures ParseTreeListing(NulTerminated(paths)) == paths
  {
    if paths != [] {
      ParseTreeListingRoundTrip(paths[1..]);
      SplitCons(paths[0], '\0', NulTerminated(paths[1..]));
      assert paths[0] + "\0" + NulTerminated(paths[1..]) == NulTerminated(paths);
    }
  }

  /** lib/dupligit.js:175 as written: it splits on a backslash followed by `0`. */
  function ParseTreeListingAsWritten(raw: string): seq<string> {
    NonEmpty(Split(raw, "\\0"))
  }

  /** A text without backslashes has no two-character escape in it. */
  lemma NoEscapeWithoutBackslash(s: string, e: char)
    requires '\\' !in s
    ensures !Contains(s, ['\\', e])
  {
    forall i | 0 <= i <= |s| - 2
      ensures !OccursAt(s, ['\\', e], i)
    {
      assert s[i..i + 2][0] == s[i];
    }
  }

  /**
   * As written, a non-empty listing comes back as one entry: the whole output, NUL
   * characters included, which is none of the tracked paths.
   */
  lemma ListingAsWrittenIsOneEntry(paths: seq<string>)
    requires |paths| >= 1
    requires forall k :: 0 <= k < |paths| ==> IsListablePath(paths[k]) && '\\' !in paths[k]
    ensures ParseTreeListingAsWritten(NulTerminated(paths)) == [NulTerminated(paths)]
    ensures '\0' in NulTerminated(paths)
    ensures NulTerminated(paths) !in paths
  {
    var raw := NulTerminated(paths);
    NulTerminatedChars(paths);
    NoEscapeWithoutBackslash(raw, '0');
    assert raw[|paths[0]|] == '\0';
  }

  /** The characters of a listing are those of its paths and the NUL separators. */
  lemma {:induction false} NulTerminatedChars(paths: seq<string>)
    requires forall k :: 0 <= k < |paths| ==> '\\' !in paths[k]
    ensures '\\' !in NulTerminated(paths)
    ensures paths != [] ==> |NulTerminated(paths)| > |paths[0]|
  {
    if paths != [] {
      NulTerminatedChars(paths[1..]);
    }
  }

  /** The fields `git show -s --format=%an%n%ae%n%ad%n%B` yields for a commit. */
  datatype Meta = Meta(authorName: string, authorEmail: string, authorDate: string, message: string)

  const UnknownName := "unknown"
  const UnknownEmail := "unknown@example.com"

  /**
   * The metadata block read line by line: name, email and date, each replaced by its fallback
   * when missing or empty, then the remaining lines rejoined as the message. `now` stands for
   * the current time, the fallback date.
   */
  function ParseMetaWith(raw: string, sep: string, now: string): (m: Meta)
    requires sep != ""
    ensures m.authorName != "" && m.authorEmail != ""
    ensures now != "" ==> m.authorDate != ""
  {
    var lines := Split(raw, sep);
    Meta(
      if lines[0] != "" then lines[0] else UnknownName,
      if |lines| > 1 && lines[1] != "" then lines[1] else UnknownEmail,
      if |lines| > 2 && lines[2] != "" then lines[2] else now,
      Join(lines[if |lines| < 3 then |lines| else 3..], sep))
  }

  /** The metadata block split at line breaks, the evidently intended reading. */
  function ParseMeta(raw: string, now: string): (m: Meta)
    ensures m.authorName != "" && m.authorEmail != ""
  {
    ParseMetaWith(raw, "\n", now)
  }

  /** lib/dupligit.js:194 and :198 as written: split and rejoin at a backslash followed by `n`. */
  function ParseMetaAsWritten(raw: string, now: string): (m: Meta)
    ensures m.authorName != "" && m.authorEmail != ""
  {
    ParseMetaWith(raw, "\\n", now)
  }

  /** The metadata block as git prints it for a commit. */
  function MetaText(name: string, email: string, date: string, msg: string): string {
    name + "\n" + (email + "\n" + (date + "\n" + msg))
  }

  lemma MetaTextLines(name: string, email: string, date: string, msg: string)
    requires '\n' !in name && '\n' !in email && '\n' !in date
    ensures Split(MetaText(name, email, date, msg), "\n") == [name, email, date] + Split(msg, "\n")
  {
    var t3 := date + "\n" + msg;
    var t2 := email + "\n" + t3;
    SplitCons(date, '\n', msg);
    SplitCons(email, '\n', t3);
    SplitCons(name, '\n', t2);
    ConsThree(name, email, date, Split(msg, "\n"));
  }

  /** What git prints for a commit parses back to its name, email, date and message. */
  lemma ParseMetaRoundTrip(name: string, email: string, date: string, msg: string, now: string)
    requires name != "" && email != "" && date != ""
    requires '\n' !in name && '\n' !in email && '\n' !in date
    ensures ParseMeta(MetaText(name, email, date, msg), now) == Meta(name, email, date, msg)
  {
    MetaTextLines(name, email, date, msg);
    var lines := Split(MetaText(name, email, date, msg), "\n");
    assert lines[3..] == Split(msg, "\n");
    JoinSplit(msg, "\n");
  }

  /** Empty name, email and date lines take the fallbacks; the message is still read. */
  lemma ParseMetaFallbacks(msg: string, now: string)
    ensures ParseMeta(MetaText("", "", "", msg), now) == Meta(UnknownName, UnknownEmail, now, msg)
  {
    MetaTextLines("", "", "", msg);
    var lines := Split(MetaText("", "", "", msg), "\n");
    assert lines[3..] == Split(msg, "\n");
    JoinSplit(msg, "\n");
  }

  /**
   * As written, git's output (which has real line breaks, not backslashes) becomes the author
   * name in full; the email and date take their fallbacks and the message is empty.
   */
  lemma MetaAsWrittenSwallowsAll(raw: string, now: string)
    requires raw != "" && '\\' !in raw
    ensures ParseMetaAsWritten(raw, now) == Meta(raw, UnknownEmail, now, "")
  {
    NoEscapeWithoutBackslash(raw, 'n');
  }
}
