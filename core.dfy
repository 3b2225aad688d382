/** Small value types shared by every part of the command-line driver model. */
module Core {

  /** An optional value; `None` stands for a Java `null`. */
  datatype Option<+T> = None | Some(value: T)

  /**
   * What running a piece of input leads to: either a response code handed back
   * to the caller, or the end of the whole process through `System.exit`.
   */
  datatype Outcome = Returned(code: int) | Exited(status: int)

  /**
   * What one command does, as far as the driver itself is concerned: how it
   * ends, and the lines the driver prints on the session's output and error
   * streams (one element per `println`).
   */
  datatype Response = Response(outcome: Outcome, out: seq<string>, err: seq<string>)
}
