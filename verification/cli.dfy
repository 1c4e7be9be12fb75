/**
 * The command line of `dupligit`: options are read left to right from the third element of
 * `argv` (the first two are the interpreter and the script).
 */
module Cli {
  import opened Base
  import opened Text

  /** The parsed command line. `config` is `None` while unset, as the source's `null`/`undefined`. */
  datatype Args = Args(config: Option<string>, force: bool, verbose: bool, help: bool)

  const Defaults := Args(None, false, false, false)

  predicate IsConfigSwitch(a: string) { a == "-c" || a == "--config" }
  predicate IsForceSwitch(a: string) { a == "-f" || a == "--force" }
  predicate IsVerboseSwitch(a: string) { a == "-v" || a == "--verbose" }
  predicate IsHelpSwitch(a: string) { a == "-h" || a == "--help" }

  predicate IsSwitch(a: string) {
    IsConfigSwitch(a) || IsForceSwitch(a) || IsVerboseSwitch(a) || IsHelpSwitch(a)
  }

  /**
   * The command line as a list of options: a config option with the word after it (`None` when
   * it is the last word), a flag, or a positional word.
   */
  datatype Token = ConfigOpt(value: Option<string>) | ForceFlag | VerboseFlag | HelpFlag | Positional(word: string)

  /** Group the words into options; the word after a config switch is its value, whatever it is. */
  function Tokenize(words: seq<string>): (ts: seq<Token>)
    ensures |ts| <= |words|
    ensures words != [] ==> ts != []
    decreases |words|
  {
    if words == [] then []
    else
      var a := words[0];
      if IsConfigSwitch(a) then
        if |words| == 1 then [ConfigOpt(None)] else [ConfigOpt(Some(words[1]))] + Tokenize(words[2..])
      else if IsForceSwitch(a) then [ForceFlag] + Tokenize(words[1..])
      else if IsVerboseSwitch(a) then [VerboseFlag] + Tokenize(words[1..])
      else if IsHelpSwitch(a) then [HelpFlag] + Tokenize(words[1..])
      else [Positional(a)] + Tokenize(words[1..])
  }

  /** One option's effect: a positional word sets the config path only while none is truthy. */
  function Step(acc: Args, t: Token): Args {
    match t
    case ConfigOpt(v) => acc.(config := v)
    case ForceFlag => acc.(force := true)
    case VerboseFlag => acc.(verbose := true)
    case HelpFlag => acc.(help := true)
    case Positional(w) => if Truthy(acc.config) then acc else acc.(config := Some(w))
  }

  /** The options applied left to right. */
  function Interp(acc: Args, ts: seq<Token>): Args
    decreases |ts|
  {
    if ts == [] then acc else Interp(Step(acc, ts[0]), ts[1..])
  }

  /** The words after the first two. */
  function Words(argv: seq<string>): seq<string> {
    if |argv| <= 2 then [] else argv[2..]
  }

  /** The suffix of `argv` from index `i`, empty past the end. */
  function From(argv: seq<string>, i: nat): seq<string> {
    if i >= |argv| then [] else argv[i..]
  }

  /** The source's index loop over `argv`, starting at index 2. */
  method ParseArgs(argv: seq<string>) returns (args: Args)
    ensures args == Interp(Defaults, Tokenize(Words(argv)))
    ensures args.force <==> ForceFlag in Tokenize(Words(argv))
    ensures args.verbose <==> VerboseFlag in Tokenize(Words(argv))
    ensures args.help <==> HelpFlag in Tokenize(Words(argv))
    ensures |argv| <= 2 ==> args == Defaults
  {
    args := Defaults;
    var i: nat := 2;
    while i < |argv|
      invariant Interp(args, Tokenize(From(argv, i))) == Interp(Defaults, Tokenize(Words(argv)))
      decreases |argv| - i
    {
      var a := argv[i];
      ghost var rest := argv[i..];
      assert rest[0] == a;
      if IsConfigSwitch(a) {
        i := i + 1;
        args := args.(config := if i < |argv| then Some(argv[i]) else None);
        if i < |argv| {
          assert rest[2..] == From(argv, i + 1);
        }
      } else {
        if IsForceSwitch(a) {
          args := args.(force := true);
        } else if IsVerboseSwitch(a) {
          args := args.(verbose := true);
        } else if IsHelpSwitch(a) {
          args := args.(help := true);
        } else if !Truthy(args.config) {
          args := args.(config := Some(a));
        }
        assert rest[1..] == From(argv, i + 1);
      }
      i := i + 1;
    }
    InterpFlags(Defaults, Tokenize(Words(argv)));
  }

  /** A flag ends up set exactly when it was set before or occurs among the options. */
  lemma {:induction false} InterpFlags(acc: Args, ts: seq<Token>)
    ensures Interp(acc, ts).force <==> acc.force || ForceFlag in ts
    ensures Interp(acc, ts).verbose <==> acc.verbose || VerboseFlag in ts
    ensures Interp(acc, ts).help <==> acc.help || HelpFlag in ts
    decreases |ts|
  {
    if ts != [] {
      InterpFlags(Step(acc, ts[0]), ts[1..]);
      assert ts == [ts[0]] + ts[1..];
    }
  }

  predicate NoConfigOpt(ts: seq<Token>) {
    forall k :: 0 <= k < |ts| ==> !ts[k].ConfigOpt?
  }

  /** The first positional word that is not empty, if any. */
  function FirstTruthyPositional(ts: seq<Token>): (w: Option<string>)
    ensures w.Some? ==> w.value != "" && Positional(w.value) in ts
    ensures w.None? ==> forall k :: 0 <= k < |ts| && ts[k].Positional? ==> ts[k].word == ""
    decreases |ts|
  {
    if ts == [] then None
    else if ts[0].Positional? && ts[0].word != "" then Some(ts[0].word)
    else
      var w := FirstTruthyPositional(ts[1..]);
      assert forall k :: 1 <= k < |ts| ==> ts[k] == ts[1..][k - 1];
      w
  }

  /**
   * Without a config option, a truthy config path is kept, and otherwise the first non-empty
   * positional word becomes the config path.
   */
  lemma {:induction false} PositionalConfig(acc: Args, ts: seq<Token>)
    requires NoConfigOpt(ts)
    ensures Truthy(acc.config) ==> Interp(acc, ts).config == acc.config
    ensures !Truthy(acc.config) && FirstTruthyPositional(ts).Some? ==>
      Interp(acc, ts).config == FirstTruthyPositional(ts)
    ensures !Truthy(acc.config) && FirstTruthyPositional(ts).None? ==> !Truthy(Interp(acc, ts).config)
    decreases |ts|
  {
    if ts != [] {
      assert !ts[0].ConfigOpt?;
      PositionalConfig(Step(acc, ts[0]), ts[1..]);
    }
  }

  /** Options split anywhere are applied one part after the other. */
  lemma {:induction false} InterpAppend(acc: Args, a: seq<Token>, b: seq<Token>)
    ensures Interp(acc, a + b) == Interp(Interp(acc, a), b)
    decreases |a|
  {
    if a == [] {
      assert a + b == b;
    } else {
      assert (a + b)[1..] == a[1..] + b;
      InterpAppend(Step(acc, a[0]), a[1..], b);
    }
  }

  /**
   * The last config option wins when its value is non-empty: neither an earlier config option
   * nor a positional word anywhere overrides it.
   */
  lemma LastConfigOptWins(acc: Args, pre: seq<Token>, v: string, post: seq<Token>)
    requires v != "" && NoConfigOpt(post)
    ensures Interp(acc, pre + [ConfigOpt(Some(v))] + post).config == Some(v)
  {
    InterpAppend(acc, pre + [ConfigOpt(Some(v))], post);
    InterpAppend(acc, pre, [ConfigOpt(Some(v))]);
    PositionalConfig(Interp(acc, pre + [ConfigOpt(Some(v))]), post);
  }

  /** The command line written back as words, each option in its long form. */
  function Render(ts: seq<Token>): (words: seq<string>)
    ensures |words| >= |ts|
    decreases |ts|
  {
    if ts == [] then []
    else
      var head := match ts[0]
        case ConfigOpt(None) => ["--config"]
        case ConfigOpt(Some(v)) => ["--config", v]
        case ForceFlag => ["--force"]
        case VerboseFlag => ["--verbose"]
        case HelpFlag => ["--help"]
        case Positional(w) => [w];
      head + Render(ts[1..])
  }

  /**
   * Options a command line can express: positional words are not switches, and a config
   * option without a value can only come last.
   */
  predicate Expressible(ts: seq<Token>) {
    forall k :: 0 <= k < |ts| ==>
      (ts[k].Positional? ==> !IsSwitch(ts[k].word))
      && (ts[k] == ConfigOpt(None) ==> k == |ts| - 1)
  }

  /** Reading back a rendered command line gives the same options. */
  lemma {:induction false} TokenizeRender(ts: seq<Token>)
    requires Expressible(ts)
    ensures Tokenize(Render(ts)) == ts
    decreases |ts|
  {
    if ts != [] {
      var rest := Render(ts[1..]);
      assert Expressible(ts[1..]) by {
        forall k | 0 <= k < |ts[1..]|
          ensures (ts[1..][k].Positional? ==> !IsSwitch(ts[1..][k].word))
                  && (ts[1..][k] == ConfigOpt(None) ==> k == |ts[1..]| - 1)
        {
          assert ts[1..][k] == ts[k + 1];
        }
      }
      TokenizeRender(ts[1..]);
      match ts[0]
      case ConfigOpt(None) =>
        assert |ts| == 1;
      case ConfigOpt(Some(v)) =>
        assert Render(ts) == ["--config", v] + rest;
        assert (["--config", v] + rest)[2..] == rest;
      case ForceFlag =>
        assert (["--force"] + rest)[1..] == rest;
      case VerboseFlag =>
        assert (["--verbose"] + rest)[1..] == rest;
      case HelpFlag =>
        assert (["--help"] + rest)[1..] == rest;
      case Positional(w) =>
        assert ([w] + rest)[1..] == rest;
    }
  }

  /** The config path a bare `dupligit <path>` call selects. */
  lemma SinglePositional(path: string)
    requires path != "" && !IsSwitch(path)
    ensures Interp(Defaults, Tokenize([path])) == Args(Some(path), false, false, false)
  {
  }

  /** A config switch given as the last word leaves the config path unset. */
  lemma TrailingConfigSwitch(path: string)
    requires !IsSwitch(path)
    ensures Interp(Defaults, Tokenize([path, "-c"])).config == None
  {
    assert [path, "-c"][1..] == ["-c"];
    assert Tokenize(["-c"]) == [ConfigOpt(None)];
    var ts := [Positional(path), ConfigOpt(None)];
    assert Tokenize([path, "-c"]) == ts;
    assert ts[1..] == [ConfigOpt(None)] && ts[1..][1..] == [];
    var acc := Step(Defaults, Positional(path));
    assert Interp(Defaults, ts) == Interp(acc, [ConfigOpt(None)]);
    assert Interp(acc, [ConfigOpt(None)]) == Interp(acc.(config := None), []);
  }
}
