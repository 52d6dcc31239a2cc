/** The `error` values and validity verdicts produced by the server core. */
module Errors {

  /** One variant per distinct cause the Go code reports as an `error`. */
  datatype Error =
    | ShortRead                      // binary.Read hit the end of the stream (io.EOF / io.ErrUnexpectedEOF)
    | InvalidCommand                 // getCommand: the opcode is neither Get nor Set
    | InvalidRequest(reason: string) // handleCommand: IsValid rejected the decoded command
    | CasMismatch                    // dataStore.set: the supplied cas differs from the item's
    | KeyDoesNotExist                // dataStore.set: a non-zero cas for a key that is not stored

  /** The `(bool, string)` pair returned by IsValid: Accept is `(true, "")`. */
  datatype Verdict = Accept | Reject(reason: string)
}
