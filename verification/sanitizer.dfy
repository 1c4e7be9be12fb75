/** The content sanitizer: binary detection and the ordered rewrite rules applied to text. */
module Sanitizer {
  import opened Text

  newtype byte = x: int | 0 <= x < 256

  type Bytes = seq<byte>

  /** Only this many leading bytes are inspected when deciding whether a file is binary. */
  const ScanLimit: nat := 8192

  function Min(a: int, b: int): int {
    if a < b then a else b
  }

  /** A buffer is treated as binary when a zero byte occurs among its first `ScanLimit` bytes. */
  predicate IsProbablyBinary(buf: Bytes) {
    exists i :: 0 <= i < Min(|buf|, ScanLimit) && buf[i] == 0
  }

  /** The bounded scan the source performs; it stops at the first zero byte. */
  method ScanForBinary(buf: Bytes) returns (binary: bool)
    ensures binary <==> IsProbablyBinary(buf)
  {
    var len := Min(|buf|, ScanLimit);
    var i := 0;
    while i < len
      invariant 0 <= i <= len
      invariant forall j :: 0 <= j < i ==> buf[j] != 0
    {
      if buf[i] == 0 {
        return true;
      }
      i := i + 1;
    }
    return false;
  }

  /** Bytes from offset `ScanLimit` on never affect the classification. */
  lemma BinaryIgnoresTail(buf: Bytes, tail: Bytes)
    requires |buf| >= ScanLimit
    ensures IsProbablyBinary(buf + tail) <==> IsProbablyBinary(buf)
    ensures IsProbablyBinary(buf) <==> IsProbablyBinary(buf[..ScanLimit])
  {
    if IsProbablyBinary(buf) {
      var i :| 0 <= i < Min(|buf|, ScanLimit) && buf[i] == 0;
      assert (buf + tail)[i] == 0;
      assert buf[..ScanLimit][i] == 0;
    }
    if IsProbablyBinary(buf + tail) {
      var i :| 0 <= i < Min(|buf + tail|, ScanLimit) && (buf + tail)[i] == 0;
      assert buf[i] == 0;
    }
    if IsProbablyBinary(buf[..ScanLimit]) {
      var i :| 0 <= i < Min(ScanLimit, ScanLimit) && buf[..ScanLimit][i] == 0;
      assert buf[i] == 0;
    }
  }

  /**
   * A rewrite rule from the configuration. The pattern is taken as a literal string
   * rather than a regular expression; `flags` is the empty string when the rule has none.
   */
  datatype Rule = Rule(pattern: string, replacement: string, flags: string)

  /** `r.flags || 'g'`: a rule without flags replaces every occurrence. */
  function EffectiveFlags(r: Rule): (f: string)
    ensures f != ""
    ensures r.flags != "" ==> f == r.flags
    ensures r.flags == "" ==> f == "g"
  {
    if r.flags == "" then "g" else r.flags
  }

  predicate IsGlobal(r: Rule) {
    'g' in EffectiveFlags(r)
  }

  /**
   * Replace every occurrence of `pat`, scanning left to right without overlap. An empty
   * pattern matches before every character and at the end, as an empty regular expression does.
   */
  function ReplaceAll(s: string, pat: string, rep: string): string
    decreases |s|
  {
    if pat == "" then
      if s == "" then rep else rep + [s[0]] + ReplaceAll(s[1..], pat, rep)
    else if IsPrefix(pat, s) then
      rep + ReplaceAll(s[|pat|..], pat, rep)
    else if s == "" then
      ""
    else
      [s[0]] + ReplaceAll(s[1..], pat, rep)
  }

  /** Replace the first occurrence of `pat` only. */
  function ReplaceFirst(s: string, pat: string, rep: string): (r: string)
    ensures !Contains(s, pat) ==> r == s
    ensures Contains(s, pat) ==>
      exists i ::
        && 0 <= i <= |s| - |pat| && OccursAt(s, pat, i)
        && (forall j :: 0 <= j < i ==> !OccursAt(s, pat, j))
        && r == s[..i] + rep + s[i + |pat|..]
  {
    match FirstIndex(s, pat)
    case None => s
    case Some(i) => s[..i] + rep + s[i + |pat|..]
  }

  /** A non-empty pattern that does not occur leaves the text unchanged. */
  lemma {:induction false} ReplaceAllAbsent(s: string, pat: string, rep: string)
    requires pat != "" && !Contains(s, pat)
    ensures ReplaceAll(s, pat, rep) == s
    decreases |s|
  {
    assert !OccursAt(s, pat, 0);
    if s != "" {
      forall j | 0 <= j <= |s[1..]| - |pat| && OccursAt(s[1..], pat, j)
        ensures false
      {
        OccursShift(s, pat, j + 1);
      }
      ReplaceAllAbsent(s[1..], pat, rep);
    }
  }

  /**
   * Replacing every occurrence of a non-empty pattern is splitting at the pattern and joining
   * the pieces with the replacement.
   */
  lemma {:induction false} ReplaceAllSplit(s: string, pat: string, rep: string)
    requires pat != ""
    ensures ReplaceAll(s, pat, rep) == Join(Split(s, pat), rep)
    decreases |s|
  {
    var first := FirstIndex(s, pat);
    if first.None? {
      assert Split(s, pat) == [s];
      ReplaceAllAbsent(s, pat, rep);
    } else {
      var i := first.value;
      var rest := s[i + |pat|..];
      var tail := Split(rest, pat);
      assert Split(s, pat) == [s[..i]] + tail;
      ReplaceAllSplit(rest, pat, rep);
      ReplaceAllAtFirst(s, pat, rep, i);
      JoinCons(s[..i], tail, rep);
    }
  }

  /** Up to the first occurrence the text is copied, then the occurrence is replaced. */
  lemma {:induction false} ReplaceAllAtFirst(s: string, pat: string, rep: string, i: nat)
    requires pat != "" && OccursAt(s, pat, i)
    requires forall j :: 0 <= j < i ==> !OccursAt(s, pat, j)
    ensures ReplaceAll(s, pat, rep) == s[..i] + rep + ReplaceAll(s[i + |pat|..], pat, rep)
    decreases i
  {
    if i == 0 {
      assert IsPrefix(pat, s);
    } else {
      var t := s[1..];
      ReplaceAllSkip(s, pat, rep);
      OccursShift(s, pat, i);
      forall j | 0 <= j < i - 1
        ensures !OccursAt(t, pat, j)
      {
        OccursShift(s, pat, j + 1);
      }
      ReplaceAllAtFirst(t, pat, rep, i - 1);
      ConsSplice(s, i, |pat|, rep, ReplaceAll(s[i + |pat|..], pat, rep));
    }
  }

  /** Putting the first character back in front of a replacement in the rest of the text. */
  lemma ConsSplice(s: string, i: nat, n: nat, rep: string, after: string)
    requires 1 <= i && i + n <= |s|
    ensures s[1..][i - 1 + n..] == s[i + n..]
    ensures [s[0]] + (s[1..][..i - 1] + rep + after) == s[..i] + rep + after
  {
    assert [s[0]] + s[1..][..i - 1] == s[..i];
  }

  /** Where the pattern does not start, its first character is copied. */
  lemma ReplaceAllSkip(s: string, pat: string, rep: string)
    requires pat != "" && s != "" && !OccursAt(s, pat, 0)
    ensures ReplaceAll(s, pat, rep) == [s[0]] + ReplaceAll(s[1..], pat, rep)
  {
    assert !IsPrefix(pat, s);
  }

  /** Replacing a pattern by itself changes nothing. */
  lemma {:induction false} ReplaceAllSelf(s: string, pat: string)
    ensures ReplaceAll(s, pat, pat) == s
    decreases |s|
  {
    if pat == "" {
      if s != "" {
        ReplaceAllSelf(s[1..], pat);
        assert s == [s[0]] + s[1..];
      }
    } else if IsPrefix(pat, s) {
      ReplaceAllSelf(s[|pat|..], pat);
      assert s == s[..|pat|] + s[|pat|..];
    } else if s != "" {
      ReplaceAllSelf(s[1..], pat);
      assert s == [s[0]] + s[1..];
    }
  }

  /** One rule: a global replacement when its flags contain `g`, otherwise the first match only. */
  function ApplyRule(text: string, r: Rule): string {
    if IsGlobal(r) then ReplaceAll(text, r.pattern, r.replacement)
    else ReplaceFirst(text, r.pattern, r.replacement)
  }

  /** The rules as a left fold: each rule rewrites the output of the rules before it. */
  function ApplyRules(text: string, rules: seq<Rule>): (out: string)
    ensures rules == [] ==> out == text
    ensures |rules| == 1 ==> out == ApplyRule(text, rules[0])
    decreases |rules|
  {
    if rules == [] then text else ApplyRules(ApplyRule(text, rules[0]), rules[1..])
  }

  /** Applying `r1 + r2` is applying `r1` and then `r2` to its output. */
  lemma {:induction false} ApplyRulesAppend(text: string, r1: seq<Rule>, r2: seq<Rule>)
    ensures ApplyRules(text, r1 + r2) == ApplyRules(ApplyRules(text, r1), r2)
    decreases |r1|
  {
    if r1 == [] {
      assert r1 + r2 == r2;
    } else {
      assert (r1 + r2)[0] == r1[0];
      assert (r1 + r2)[1..] == r1[1..] + r2;
      ApplyRulesAppend(ApplyRule(text, r1[0]), r1[1..], r2);
    }
  }

  /** A rule appended to a list rewrites the list's output: rules apply strictly in list order. */
  lemma ApplyRulesSnoc(text: string, rules: seq<Rule>, r: Rule)
    ensures ApplyRules(text, rules + [r]) == ApplyRule(ApplyRules(text, rules), r)
  {
    ApplyRulesAppend(text, rules, [r]);
  }

  /** Order matters: two rules that chain give different results in the two orders. */
  lemma RuleOrderMatters()
    ensures ApplyRules("a", [Rule("a", "b", ""), Rule("b", "c", "")]) == "c"
    ensures ApplyRules("a", [Rule("b", "c", ""), Rule("a", "b", "")]) == "b"
  {
    assert IsPrefix("a", "a");
    assert !IsPrefix("b", "a");
    assert IsPrefix("b", "b");
    assert ReplaceAll("a", "a", "b") == "b" + ReplaceAll("", "a", "b");
    assert ReplaceAll("b", "b", "c") == "c" + ReplaceAll("", "b", "c");
    assert ReplaceAll("a", "b", "c") == "a" + ReplaceAll("", "b", "c");
  }

  /** A rule whose replacement reintroduces its pattern is not idempotent. */
  lemma RulesNotIdempotent()
    ensures ApplyRules("a", [Rule("a", "aa", "")]) == "aa"
    ensures ApplyRules("aa", [Rule("a", "aa", "")]) == "aaaa"
  {
    assert IsPrefix("a", "a");
    assert ReplaceAll("a", "a", "aa") == "aa" + ReplaceAll("", "a", "aa");
    assert "aa"[1..] == "a";
    assert ReplaceAll("aa", "a", "aa") == "aa" + ReplaceAll("a", "a", "aa");
  }

  /** Decoding a file's bytes as text, one character per byte. */
  function Decode(buf: Bytes): (s: string)
    ensures |s| == |buf|
    ensures forall i :: 0 <= i < |buf| ==> s[i] as int == buf[i] as int
  {
    seq(|buf|, i requires 0 <= i < |buf| => (buf[i] as int) as char)
  }

  /** Encoding text as bytes; a character beyond one byte keeps its low eight bits. */
  function Encode(s: string): (buf: Bytes)
    ensures |buf| == |s|
    ensures forall i :: 0 <= i < |s| && s[i] as int < 256 ==> buf[i] as int == s[i] as int
  {
    seq(|s|, i requires 0 <= i < |s| => ((s[i] as int) % 256) as byte)
  }

  /** Text every character of which fits in one byte. */
  predicate IsByteText(s: string) {
    forall i :: 0 <= i < |s| ==> s[i] as int < 256
  }

  /** The model's one-character-per-byte codec loses nothing on the way from bytes and back. */
  lemma EncodeDecode(buf: Bytes)
    ensures Encode(Decode(buf)) == buf
  {
  }

  /** What a staged file holds: binary bytes untouched, text rewritten by the rules. */
  function StageContent(buf: Bytes, rules: seq<Rule>): (out: Bytes)
    ensures IsProbablyBinary(buf) ==> out == buf
    ensures !IsProbablyBinary(buf) && IsByteText(ApplyRules(Decode(buf), rules)) ==>
      Decode(out) == ApplyRules(Decode(buf), rules)
  {
    if IsProbablyBinary(buf) then buf else Encode(ApplyRules(Decode(buf), rules))
  }

  /** With no rules, staging reproduces every ASCII file byte for byte. */
  lemma StageWithoutRules(buf: Bytes)
    requires forall i :: 0 <= i < |buf| ==> buf[i] < 128
    ensures StageContent(buf, []) == buf
  {
    EncodeDecode(buf);
  }
}
