/** Outcomes of the codec's operations.

    The Java code reports failure by throwing. The model returns a `Result`
    whose `Err` case names the exception that would have been thrown.
 */
module Results {

  /** An optional value: `None` where the Java code holds `null` or a
      collaborator throws. */
  datatype Option<+T> = None | Some(value: T)

  /** The collaborator whose exception `Exceptions.uncheck` rethrows. */
  datatype Cause = SignerFailed | CryptoFailed | ValueSerializerFailed | QueryDecoderFailed

  /** The exceptions that can escape the codec. */
  datatype Error =
    | NegativeArraySize          // an array allocated with a negative length
    | ArrayTooLarge              // an array longer than the VM will allocate
    | StringTooLong              // a string longer than Integer.MAX_VALUE characters
    | StringIndexOutOfBounds     // String.substring with bad bounds
    | IllegalBase64              // Base64.Decoder.decode rejects its input
    | Unchecked(cause: Cause)    // a collaborator's exception, rethrown unchecked

  /** Either a value or the exception that replaced it. */
  datatype Result<+T> = Ok(value: T) | Err(error: Error) {

    predicate IsFailure() {
      Err?
    }

    function PropagateFailure<U>(): Result<U>
      requires Err?
    {
      Err(error)
    }

    function Extract(): T
      requires Ok?
    {
      value
    }
  }
}
