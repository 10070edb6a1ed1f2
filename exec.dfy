/** What the handlers of main.js get back from running an `adb` command, and
    the record each handler returns to the renderer. */
module AdbExec {

  datatype Option<T> = None | Some(value: T)

  /** The outcome of `execPromise(command)`: the standard output of a command
      that exited with status zero, or the message of the error it raised. */
  datatype ExecResult = Ok(stdout: string) | Err(message: string)

  /** The record a handler resolves to: `{success: true, ...}` with its
      payload, or `{success: false, error}`. */
  datatype Reply<T> = Success(value: T) | Failure(error: string)

  /** Running a command: the outside world, given to every handler as a
      parameter so that the command it runs is part of its contract. */
  type Runner = string -> ExecResult
}
