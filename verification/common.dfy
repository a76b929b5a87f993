/** Shared vocabulary of the model: Java's nullable references, bytes,
    java.time.Duration and the ways a client operation can fail. */
module Common {

  /** A nullable Java reference: `None` is `null`. */
  datatype Option<+T> = None | Some(value: T)

  /** One octet of a binary-safe string. */
  newtype byte = x: int | 0 <= x < 256

  type Bytes = seq<byte>

  /** A java.time.Duration, kept as its total length in nanoseconds. */
  datatype Duration = Duration(nanos: int)

  const NANOS_PER_MILLI: int := 1_000_000

  /** Duration.toMillis: the whole milliseconds, truncated toward zero
      (so both 0.5ms and -0.5ms give 0). */
  function ToMillis(d: Duration): (millis: int)
    ensures d.nanos >= 0 ==> 0 <= millis * NANOS_PER_MILLI <= d.nanos < (millis + 1) * NANOS_PER_MILLI
    ensures d.nanos < 0 ==> (millis - 1) * NANOS_PER_MILLI < d.nanos <= millis * NANOS_PER_MILLI <= 0
  {
    if d.nanos >= 0 then d.nanos / NANOS_PER_MILLI else -((-d.nanos) / NANOS_PER_MILLI)
  }

  /** Why an operation of the client did not produce a value. The kinds
      are kept apart because the caller's retry policy differs per kind. */
  datatype Failure =
    | CallerError(message: string)   // java.lang.Error thrown on invalid arguments, before any I/O
    | IOFailure                      // IOException from the connection: the pooled item is marked broken
    | ServerError(message: string)   // an error reply ("-ERR ..."): the stream is still in step
    | UnexpectedReply                // a reply of a shape the caller cannot cast (a runtime exception)

  datatype Result<+T> = Ok(value: T) | Fail(failure: Failure)

  /** True exactly on the `catch (IOException e)` path of the client. */
  predicate IsIOFailure<T>(r: Result<T>) {
    r.Fail? && r.failure.IOFailure?
  }

  /** Concatenation regroups; the one fact about it the proofs spell out. */
  lemma Assoc<T>(a: seq<T>, b: seq<T>, c: seq<T>)
    ensures (a + b) + c == a + (b + c)
  {
  }
}
