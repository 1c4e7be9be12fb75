/** Shared vocabulary: optional values, results, and the ways a mirror run can fail. */
module Base {

  /** A value that may be absent: a JavaScript `undefined`, a failed lookup. */
  datatype Option<+T> = None | Some(value: T) {
    function GetOr(default: T): T {
      if Some? then value else default
    }
  }

  /** The outcome of an operation that can throw. */
  datatype Result<+T> = Success(value: T) | Failure(error: Error) {
    predicate IsFailure() {
      Failure?
    }

    function PropagateFailure<U>(): Result<U>
      requires Failure?
    {
      Failure(error)
    }

    function Extract(): T
      requires Success?
    {
      value
    }
  }

  /**
   * Errors a run or an install script reports. `NoCommits` is `git rev-list HEAD` failing in a
   * repository without commits, and `EmptyCommitMessage` git refusing a commit whose message is
   * blank. The remaining five are reached only by the code as written: `PushRejected` is a push
   * that is not a fast-forward, the other four are JavaScript errors.
   */
  datatype Error =
    | MissingTargetRepo
    | ListFilesFailed
    | ReadFailed(path: string)
    | NoCommits
    | EmptyCommitMessage
    | PushRejected
    | TokenArgUndefined
    | RequireUndefined
    | TmpRootBeforeInit
    | TemplateSyntaxError
}
