/** The string operations of JavaScript that the mirror relies on, over `seq<char>`. */
module Text {
  import opened Base

  /** A JavaScript string value is truthy when it is present and not empty. */
  predicate Truthy(o: Option<string>) {
    o.Some? && o.value != ""
  }

  /** JavaScript `a || b` on values that are strings or `undefined`. */
  function Or(a: Option<string>, b: Option<string>): (r: Option<string>)
    ensures Truthy(r) <==> Truthy(a) || Truthy(b)
    ensures Truthy(a) ==> r == a
    ensures !Truthy(a) ==> r == b
  {
    if Truthy(a) then a else b
  }

  /** The process environment: variable name to value. */
  type Env = map<string, string>

  /** `process.env[name]`, `undefined` when the variable is not set. */
  function EnvVar(env: Env, name: string): Option<string> {
    if name in env then Some(env[name]) else None
  }

  predicate IsPrefix(p: string, s: string) {
    |p| <= |s| && s[..|p|] == p
  }

  /** `t` occurs in `s` starting at index `i`. */
  predicate OccursAt(s: string, t: string, i: int) {
    0 <= i && i + |t| <= |s| && s[i..i + |t|] == t
  }

  /** JavaScript `s.includes(t)`. */
  predicate Contains(s: string, t: string) {
    exists i :: 0 <= i <= |s| - |t| && OccursAt(s, t, i)
  }

  lemma OccursShift(s: string, t: string, j: int)
    requires 1 <= j && |s| >= 1
    ensures OccursAt(s, t, j) <==> OccursAt(s[1..], t, j - 1)
  {
    if j + |t| <= |s| {
      assert s[1..][j - 1..j - 1 + |t|] == s[j..j + |t|];
    }
  }

  /** The index of the first occurrence of `t` in `s` (JavaScript `indexOf`). */
  function FirstIndex(s: string, t: string): (r: Option<nat>)
    ensures r.None? <==> !Contains(s, t)
    ensures r.Some? ==> OccursAt(s, t, r.value)
    ensures r.Some? ==> forall j :: 0 <= j < r.value ==> !OccursAt(s, t, j)
    decreases |s|
  {
    if IsPrefix(t, s) then
      assert OccursAt(s, t, 0);
      Some(0)
    else if |s| <= |t| then
      None
    else
      var rest := FirstIndex(s[1..], t);
      assert forall j :: 1 <= j ==> (OccursAt(s, t, j) <==> OccursAt(s[1..], t, j - 1)) by {
        forall j | 1 <= j {
          OccursShift(s, t, j);
        }
      }
      match rest
      case None => None
      case Some(i) =>
        assert OccursAt(s, t, i + 1);
        Some(i + 1)
  }

  /** An occurrence of a single character is that character at the index. */
  lemma ContainsChar(s: string, c: char)
    ensures Contains(s, [c]) <==> c in s
  {
    if c in s {
      var i :| 0 <= i < |s| && s[i] == c;
      assert OccursAt(s, [c], i);
    }
    forall i | 0 <= i <= |s| - 1 && OccursAt(s, [c], i)
      ensures c in s
    {
      assert s[i] == s[i..i + 1][0];
    }
  }

  /** JavaScript `s.split(sep)` for a non-empty separator string. */
  function Split(s: string, sep: string): (parts: seq<string>)
    requires sep != ""
    ensures |parts| >= 1
    decreases |s|
  {
    match FirstIndex(s, sep)
    case None => [s]
    case Some(i) => [s[..i]] + Split(s[i + |sep|..], sep)
  }

  /** JavaScript `parts.join(sep)`. */
  function Join(parts: seq<string>, sep: string): string {
    if |parts| == 0 then ""
    else if |parts| == 1 then parts[0]
    else parts[0] + sep + Join(parts[1..], sep)
  }

  /** Joining the pieces of a split with the same separator restores the string. */
  lemma {:induction false} JoinSplit(s: string, sep: string)
    requires sep != ""
    ensures Join(Split(s, sep), sep) == s
    decreases |s|
  {
    match FirstIndex(s, sep)
    case None =>
    case Some(i) =>
      var rest := s[i + |sep|..];
      JoinSplit(rest, sep);
      JoinCons(s[..i], Split(rest, sep), sep);
      AroundOccurrence(s, sep, i);
  }

  /** Joining a list with a head is the head, the separator, and the rest joined. */
  lemma JoinCons(x: string, tail: seq<string>, sep: string)
    requires |tail| >= 1
    ensures Join([x] + tail, sep) == x + sep + Join(tail, sep)
  {
    assert ([x] + tail)[1..] == tail;
  }

  /** A string is what precedes an occurrence, the occurrence, and what follows it. */
  lemma AroundOccurrence(s: string, t: string, i: nat)
    requires OccursAt(s, t, i)
    ensures s == s[..i] + t + s[i + |t|..]
  {
    assert s == s[..i] + s[i..i + |t|] + s[i + |t|..];
  }

  /** Splitting at a separator character that the head does not contain peels off the head. */
  lemma SplitCons(a: string, c: char, b: string)
    requires c !in a
    ensures Split(a + [c] + b, [c]) == [a] + Split(b, [c])
  {
    var s := a + [c] + b;
    assert OccursAt(s, [c], |a|);
    forall j | 0 <= j < |a|
      ensures !OccursAt(s, [c], j)
    {
      assert s[j..j + 1] == [a[j]];
    }
    assert FirstIndex(s, [c]) == Some(|a|);
    assert s[|a| + 1..] == b;
    assert s[..|a|] == a;
  }

  /** No piece of a split at a character contains that character. */
  lemma {:induction false} SplitPiecesAvoidChar(s: string, c: char)
    ensures forall k :: 0 <= k < |Split(s, [c])| ==> c !in Split(s, [c])[k]
    decreases |s|
  {
    match FirstIndex(s, [c])
    case None =>
      ContainsChar(s, c);
    case Some(i) =>
      SplitPiecesAvoidChar(s[i + 1..], c);
      BeforeFirstIndex(s, c, i);
      var tail := Split(s[i + 1..], [c]);
      assert Split(s, [c]) == [s[..i]] + tail;
      PiecesAvoidChar(s[..i], tail, c);
  }

  /** Nothing before the first occurrence of a character is that character. */
  lemma BeforeFirstIndex(s: string, c: char, i: nat)
    requires FirstIndex(s, [c]) == Some(i)
    ensures c !in s[..i]
  {
    forall j | 0 <= j < i
      ensures s[j] != c
    {
      assert s[j..j + 1] == [s[j]];
      assert !OccursAt(s, [c], j);
    }
  }

  /** A piece put in front of pieces, none of which holds a character, does not add it. */
  lemma PiecesAvoidChar(head: string, tail: seq<string>, c: char)
    requires c !in head
    requires forall k :: 0 <= k < |tail| ==> c !in tail[k]
    ensures forall k :: 0 <= k < |[head] + tail| ==> c !in ([head] + tail)[k]
  {
    forall k | 0 <= k < |[head] + tail|
      ensures c !in ([head] + tail)[k]
    {
      if k > 0 {
        assert ([head] + tail)[k] == tail[k - 1];
      }
    }
  }

  /** Splitting a separator-joined list of separator-free pieces gives the pieces back. */
  lemma {:induction false} SplitJoin(parts: seq<string>, c: char)
    requires |parts| >= 1
    requires forall k :: 0 <= k < |parts| ==> c !in parts[k]
    ensures Split(Join(parts, [c]), [c]) == parts
  {
    if |parts| == 1 {
      ContainsChar(parts[0], c);
    } else {
      SplitJoin(parts[1..], c);
      SplitCons(parts[0], c, Join(parts[1..], [c]));
      assert parts == [parts[0]] + parts[1..];
    }
  }

  /** The first position of a character that occurs in a string. */
  lemma {:induction false} FirstOccurrence(a: string, c: char) returns (i: nat)
    requires c in a
    ensures i < |a| && a[i] == c && c !in a[..i]
    decreases |a|
  {
    if a[0] == c {
      i := 0;
    } else {
      var j := FirstOccurrence(a[1..], c);
      i := j + 1;
      assert a[..i] == [a[0]] + a[1..][..j];
    }
  }

  /** Splitting at a separator character distributes over a concatenation joined by it. */
  lemma {:induction false} SplitAppendSep(a: string, c: char, b: string)
    ensures Split(a + [c] + b, [c]) == Split(a, [c]) + Split(b, [c])
    decreases |a|
  {
    if c !in a {
      SplitCons(a, c, b);
      ContainsChar(a, c);
    } else {
      var i := FirstOccurrence(a, c);
      var a1, a2 := a[..i], a[i + 1..];
      assert a == a1 + [c] + a2;
      SplitAppendSep(a2, c, b);
      SplitAppendSepStep(a1, a2, c, b);
    }
  }

  /** One step of `SplitAppendSep`: peel off the piece before the first separator. */
  lemma SplitAppendSepStep(a1: string, a2: string, c: char, b: string)
    requires c !in a1
    requires Split(a2 + [c] + b, [c]) == Split(a2, [c]) + Split(b, [c])
    ensures Split(a1 + [c] + a2 + [c] + b, [c]) == Split(a1 + [c] + a2, [c]) + Split(b, [c])
  {
    var head := a1 + [c];
    var rest := a2 + [c] + b;
    ConcatAssoc(head, a2 + [c], b);
    ConcatAssoc(head, a2, [c]);
    SplitCons(a1, c, rest);
    SplitCons(a1, c, a2);
    ConcatAssoc([a1], Split(a2, [c]), Split(b, [c]));
  }

  lemma ConcatAssoc<T>(a: seq<T>, b: seq<T>, c: seq<T>)
    ensures a + (b + c) == (a + b) + c
  {
  }

  /** Joining two non-empty lists is joining each and putting the separator between them. */
  lemma {:induction false} JoinAppend(xs: seq<string>, ys: seq<string>, sep: string)
    requires |xs| >= 1 && |ys| >= 1
    ensures Join(xs + ys, sep) == Join(xs, sep) + sep + Join(ys, sep)
    decreases |xs|
  {
    if |xs| > 1 {
      JoinAppend(xs[1..], ys, sep);
      assert (xs + ys)[1..] == xs[1..] + ys;
    }
  }

  /** An occurrence stays an occurrence when text is added on either side. */
  lemma ContainsWithin(a: string, b: string, t: string)
    ensures Contains(b, t) ==> Contains(a + b, t) && Contains(b + a, t)
  {
    if Contains(b, t) {
      var i :| 0 <= i <= |b| - |t| && OccursAt(b, t, i);
      assert (a + b)[|a| + i..|a| + i + |t|] == b[i..i + |t|];
      assert OccursAt(a + b, t, |a| + i);
      assert (b + a)[i..i + |t|] == b[i..i + |t|];
      assert OccursAt(b + a, t, i);
    }
  }

  /** Every element of a list occurs in the list joined. */
  lemma {:induction false} JoinContainsElement(parts: seq<string>, sep: string, k: nat)
    requires k < |parts|
    ensures Contains(Join(parts, sep), parts[k])
    decreases k
  {
    if |parts| == 1 {
      assert OccursAt(parts[0], parts[0], 0);
    } else if k == 0 {
      var j := Join(parts, sep);
      assert j[..|parts[0]|] == parts[0];
      assert OccursAt(j, parts[0], 0);
    } else {
      JoinContainsElement(parts[1..], sep, k - 1);
      ContainsWithin(parts[0] + sep, Join(parts[1..], sep), parts[k]);
    }
  }

  /** `xs.filter(keep)`: the elements `keep` accepts, in their original order. */
  function Filter<T>(xs: seq<T>, keep: T -> bool): (r: seq<T>)
    ensures |r| <= |xs|
    decreases |xs|
  {
    if xs == [] then []
    else if keep(xs[0]) then [xs[0]] + Filter(xs[1..], keep)
    else Filter(xs[1..], keep)
  }

  /** Every element of the filtered list is accepted. */
  lemma {:induction false} FilterAccepted<T>(xs: seq<T>, keep: T -> bool)
    ensures forall k :: 0 <= k < |Filter(xs, keep)| ==> keep(Filter(xs, keep)[k])
    decreases |xs|
  {
    if xs != [] {
      FilterAccepted(xs[1..], keep);
    }
  }

  /** The filtered list holds exactly the accepted elements of the list. */
  lemma {:induction false} FilterMembers<T>(xs: seq<T>, keep: T -> bool, x: T)
    ensures x in Filter(xs, keep) <==> x in xs && keep(x)
    decreases |xs|
  {
    if xs != [] {
      FilterMembers(xs[1..], keep, x);
      assert xs == [xs[0]] + xs[1..];
    }
  }

  /** Filtering a suffix: its first element, if accepted, then the filtered rest. */
  lemma FilterStep<T>(xs: seq<T>, k: nat, keep: T -> bool)
    requires k < |xs|
    ensures Filter(xs[k..], keep) == (if keep(xs[k]) then [xs[k]] else []) + Filter(xs[k + 1..], keep)
  {
    assert xs[k..][1..] == xs[k + 1..];
  }

  /** An accepted element at position k stays, in front of the filtered rest. */
  lemma FilterKept<T>(xs: seq<T>, k: nat, keep: T -> bool)
    requires k < |xs| && keep(xs[k])
    ensures Filter(xs[k..], keep) == [xs[k]] + Filter(xs[k + 1..], keep)
  {
    FilterStep(xs, k, keep);
  }

  /** A rejected element at position k goes. */
  lemma FilterDropped<T>(xs: seq<T>, k: nat, keep: T -> bool)
    requires k < |xs| && !keep(xs[k])
    ensures Filter(xs[k..], keep) == Filter(xs[k + 1..], keep)
  {
    FilterStep(xs, k, keep);
  }

  lemma ConsThree<T>(a: T, b: T, c: T, rest: seq<T>)
    ensures [a] + ([b] + ([c] + rest)) == [a, b, c] + rest
  {
  }

  lemma ConsFour<T>(a: T, b: T, c: T, d: T, rest: seq<T>)
    ensures [a] + ([b] + ([c] + ([d] + rest))) == [a, b, c, d] + rest
  {
  }

  /** Filtering a concatenation filters each part. */
  lemma {:induction false} FilterAppend<T>(a: seq<T>, b: seq<T>, keep: T -> bool)
    ensures Filter(a + b, keep) == Filter(a, keep) + Filter(b, keep)
    decreases |a|
  {
    if a == [] {
      assert a + b == b;
    } else {
      assert (a + b)[1..] == a[1..] + b;
      FilterAppend(a[1..], b, keep);
    }
  }

  /** A list whose every element is accepted passes through unchanged. */
  lemma {:induction false} FilterKeepsAll<T>(xs: seq<T>, keep: T -> bool)
    requires forall k :: 0 <= k < |xs| ==> keep(xs[k])
    ensures Filter(xs, keep) == xs
    decreases |xs|
  {
    if xs != [] {
      FilterKeepsAll(xs[1..], keep);
    }
  }

  /** Filtering twice with the same test is filtering once. */
  lemma FilterIdempotent<T>(xs: seq<T>, keep: T -> bool)
    ensures Filter(Filter(xs, keep), keep) == Filter(xs, keep)
  {
    FilterAccepted(xs, keep);
    FilterKeepsAll(Filter(xs, keep), keep);
  }

  /** The characters JavaScript's `String.prototype.trim` removes: white space and line terminators. */
  predicate IsJsWhitespace(c: char) {
    || c == '\t' || c == '\n' || c == '\U{000B}' || c == '\U{000C}' || c == '\r' || c == ' '
    || c == '\U{00A0}' || c == '\U{1680}' || ('\U{2000}' <= c <= '\U{200A}')
    || c == '\U{2028}' || c == '\U{2029}' || c == '\U{202F}' || c == '\U{205F}'
    || c == '\U{3000}' || c == '\U{FEFF}'
  }

  function TrimStart(s: string): (r: string)
    ensures |r| <= |s| && r == s[|s| - |r|..]
    ensures r == "" || !IsJsWhitespace(r[0])
    ensures forall i :: 0 <= i < |s| - |r| ==> IsJsWhitespace(s[i])
  {
    if s != [] && IsJsWhitespace(s[0]) then TrimStart(s[1..]) else s
  }

  function TrimEnd(s: string): (r: string)
    ensures |r| <= |s| && r == s[..|r|]
    ensures r == "" || !IsJsWhitespace(r[|r| - 1])
    ensures forall i :: |r| <= i < |s| ==> IsJsWhitespace(s[i])
  {
    if s != [] && IsJsWhitespace(s[|s| - 1]) then TrimEnd(s[..|s| - 1]) else s
  }

  /**
   * JavaScript `s.trim()`: `s` with its leading and trailing white space cut, which leaves an
   * infix that neither starts nor ends with white space.
   */
  function Trim(s: string): (r: string)
    ensures exists i, j ::
              && 0 <= i <= j <= |s| && r == s[i..j]
              && (forall k :: 0 <= k < i ==> IsJsWhitespace(s[k]))
              && (forall k :: j <= k < |s| ==> IsJsWhitespace(s[k]))
    ensures r == "" || (!IsJsWhitespace(r[0]) && !IsJsWhitespace(r[|r| - 1]))
  {
    var t := TrimStart(s);
    var i := |s| - |t|;
    var u := TrimEnd(t);
    assert u == s[i..i + |u|];
    u
  }

  /** Trimming twice is trimming once. */
  lemma TrimIdempotent(s: string)
    ensures Trim(Trim(s)) == Trim(s)
  {
    var t := Trim(s);
    if t != "" {
      assert TrimStart(t) == t;
      assert TrimEnd(t) == t;
    }
  }

  /** ASCII lower-casing, which is what a JavaScript regular expression's `i` flag folds. */
  function LowerAscii(c: char): char {
    if 'A' <= c <= 'Z' then (c as int + 32) as char else c
  }

  /** `p` is a prefix of `s` up to ASCII case. */
  predicate IsPrefixIgnoreCase(p: string, s: string) {
    |p| <= |s| && forall i :: 0 <= i < |p| ==> LowerAscii(s[i]) == LowerAscii(p[i])
  }
}
