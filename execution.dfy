/**
 * What one run of a code block yields, `CodeActAgent._execute_code`
 * (agents/codeact.py:49-95), and the error text the agent reports for a
 * failed run (agents/codeact.py:176-177 and 193-197).
 *
 * The subprocess itself is outside the model: its outcome is an `Outcome`
 * value handed in by the caller. This module turns an outcome into the
 * result dictionary the agent works with.
 */
module Execution {

  datatype Option<T> = None | Some(value: T)

  /** How the subprocess run ended: it exited with a return code and its
      captured output, it ran past the time limit, or starting it raised an
      exception (whose text and formatted traceback are given). */
  datatype Outcome =
    | Exited(returncode: int, stdout: string, stderr: string)
    | TimedOut
    | Raised(message: string, trace: string)

  /** The result dictionary: `success` is always present, the other keys
      only in some results, so each is optional. */
  datatype ExecResult = ExecResult(
    success: bool,
    stdout: Option<string>,
    stderr: Option<string>,
    returncode: Option<int>,
    error: Option<string>,
    traceback: Option<string>)

  const TimeoutMessage := "Code execution timed out after 30 seconds"

  /** The dictionary `_execute_code` returns for an outcome. */
  function ToResult(o: Outcome): ExecResult
  {
    match o
    case Exited(code, out, err) =>
      ExecResult(code == 0, Some(out), Some(err), Some(code), None, None)
    case TimedOut =>
      ExecResult(false, None, None, None, Some(TimeoutMessage), None)
    case Raised(msg, trace) =>
      ExecResult(false, None, None, None, Some(msg), Some(trace))
  }

  /** A result the agent can render: a successful one carries its output. */
  predicate WellFormed(r: ExecResult)
  {
    r.success ==> r.stdout.Some?
  }

  /** `result.get("error", result.get("stderr", "Unknown error"))`. */
  function ErrorMessage(r: ExecResult): string
  {
    match r.error
    case Some(e) => e
    case None =>
      match r.stderr
      case Some(e) => e
      case None => "Unknown error"
  }

  /** A run succeeds exactly when the process exited with return code 0, and
      then its captured standard output is in the result; every result of a
      run can be rendered. */
  lemma ToResultSuccess(o: Outcome)
    ensures ToResult(o).success <==> o.Exited? && o.returncode == 0
    ensures ToResult(o).success ==> ToResult(o).stdout == Some(o.stdout)
    ensures WellFormed(ToResult(o))
  {
  }

  /** The error text reported for a failed run: the captured standard error
      of a process that exited with a non-zero code, the time-limit message,
      or the text of the exception. The "Unknown error" fallback is never
      taken for the result of a run. */
  lemma ErrorMessageOfRun(o: Outcome)
    requires !ToResult(o).success
    ensures o.Exited? ==> ErrorMessage(ToResult(o)) == o.stderr
    ensures o.TimedOut? ==> ErrorMessage(ToResult(o)) == TimeoutMessage
    ensures o.Raised? ==> ErrorMessage(ToResult(o)) == o.message
    ensures ToResult(o).error.Some? || ToResult(o).stderr.Some?
  {
  }
}
