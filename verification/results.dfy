/** Outcome types shared by the model of the interview agent.

    The agent reports failures by raising Python exceptions; here each
    exception of the core that the model keeps becomes one `Error` constructor, and an
    operation that may raise returns a `Result`.
 */
module Results {

  /** A value that may be absent, such as the result of a lookup that found nothing. */
  datatype Option<+T> = None | Some(value: T)

  /** The failures the core can raise. */
  datatype Error =
    /** Unpacking the identity split into two names failed: the identity has no separator. */
    | MalformedIdentity(identity: string)
    /** No interview document has the requested id. */
    | NotFound(interviewId: string)
    /** A document lacks a field the code indexes (a Python KeyError). */
    | MissingField(field: string)
    /** The document store raised a driver error, which the code logs and re-raises. */
    | StorageFailure
    /** Encoding the document failed because an integer does not fit in a
        signed 64-bit BSON integer (an OverflowError, which is not caught). */
    | IntegerOverflow

  /** Either a value or the error that was raised instead. */
  datatype Result<+T> = Ok(value: T) | Failure(error: Error)

  /** The state of the connection to the document store for one call.  The
      driver's behaviour is not part of the model: `Down` stands for any
      driver error, which strikes at the first access of the call. */
  datatype Link = Up | Down
}
