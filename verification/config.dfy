/** Reading the configuration: required fields, defaults, and where the file is looked for. */
module Config {
  import opened Base
  import opened Text
  import opened Sanitizer

  /** A JSON field expected to hold an array. */
  datatype JsonList<T> = Missing | NotAList | List(items: seq<T>)

  /** The configuration object as parsed from JSON, before defaults are filled in. */
  datatype RawConfig = RawConfig(
    targetRepo: Option<string>,
    targetBranch: Option<string>,
    rules: JsonList<Rule>,
    messageRules: Option<seq<Rule>>,
    ignore: JsonList<string>,
    preserveHistory: bool,
    sshKey: Option<string>,
    tokenCommand: Option<string>)

  /** The configuration a run works with. */
  datatype MirrorConfig = MirrorConfig(
    targetRepo: string,
    targetBranch: string,
    rules: seq<Rule>,
    messageRules: seq<Rule>,
    ignore: seq<string>,
    preserveHistory: bool,
    sshKey: Option<string>,
    tokenCommand: Option<string>)

  const DefaultBranch := "main"
  const DefaultConfigPath := "dupligit.config.json"

  function ListOr<T>(l: JsonList<T>): seq<T> {
    if l.List? then l.items else []
  }

  /**
   * The checks and defaults applied right after parsing: a missing or empty `targetRepo` is an
   * error, an unset branch becomes `main`, and a `rules` or `ignore` that is not an array
   * becomes the empty list. Every other field is passed through.
   */
  function LoadConfig(raw: RawConfig): (r: Result<RawConfig>)
    ensures r.Failure? <==> !Truthy(raw.targetRepo)
    ensures r.Failure? ==> r.error == MissingTargetRepo
    ensures r.Success? ==> var c := r.value;
      && c.targetRepo == raw.targetRepo
      && Truthy(c.targetBranch)
      && (Truthy(raw.targetBranch) ==> c.targetBranch == raw.targetBranch)
      && (!Truthy(raw.targetBranch) ==> c.targetBranch == Some(DefaultBranch))
      && c.rules == List(ListOr(raw.rules))
      && c.ignore == List(ListOr(raw.ignore))
      && c.messageRules == raw.messageRules
      && c.preserveHistory == raw.preserveHistory
      && c.sshKey == raw.sshKey && c.tokenCommand == raw.tokenCommand
  {
    if !Truthy(raw.targetRepo) then Failure(MissingTargetRepo)
    else Success(raw.(
      targetBranch := if Truthy(raw.targetBranch) then raw.targetBranch else Some(DefaultBranch),
      rules := List(ListOr(raw.rules)),
      ignore := List(ListOr(raw.ignore))))
  }

  /** Loading an already loaded configuration changes nothing. */
  lemma LoadConfigIdempotent(raw: RawConfig)
    requires LoadConfig(raw).Success?
    ensures LoadConfig(LoadConfig(raw).value) == LoadConfig(raw)
  {
  }

  /** Message rules default to the content rules; `preserveHistory` is read as a boolean. */
  function Configure(raw: RawConfig): (r: Result<MirrorConfig>)
    ensures r.Failure? <==> !Truthy(raw.targetRepo)
    ensures r.Success? ==> var c := r.value;
      && c.targetRepo == raw.targetRepo.value && c.targetRepo != ""
      && c.targetBranch != ""
      && (Truthy(raw.targetBranch) ==> c.targetBranch == raw.targetBranch.value)
      && (!Truthy(raw.targetBranch) ==> c.targetBranch == DefaultBranch)
      && c.rules == ListOr(raw.rules)
      && c.ignore == ListOr(raw.ignore)
      && c.messageRules == raw.messageRules.GetOr(c.rules)
      && c.preserveHistory == raw.preserveHistory
  {
    var loaded :- LoadConfig(raw);
    Success(MirrorConfig(
      loaded.targetRepo.value,
      loaded.targetBranch.value,
      loaded.rules.items,
      if loaded.messageRules.Some? then loaded.messageRules.value else loaded.rules.items,
      loaded.ignore.items,
      loaded.preserveHistory,
      loaded.sshKey,
      loaded.tokenCommand))
  }

  /** The configuration file: the command-line path, else `DUPLIGIT_CONFIG`, else the default name. */
  function ResolveConfigPath(arg: Option<string>, env: Env): (path: string)
    ensures path != ""
    ensures Truthy(arg) ==> path == arg.value
    ensures !Truthy(arg) && Truthy(EnvVar(env, "DUPLIGIT_CONFIG")) ==> path == env["DUPLIGIT_CONFIG"]
    ensures !Truthy(arg) && !Truthy(EnvVar(env, "DUPLIGIT_CONFIG")) ==> path == DefaultConfigPath
  {
    Or(Or(arg, EnvVar(env, "DUPLIGIT_CONFIG")), Some(DefaultConfigPath)).value
  }
}
