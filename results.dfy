/** Failure values for the converter: every point at which the Go code panics becomes an Error. */
module Results {

  /** A failure-compatible result: `:-` hands the first failure up unchanged. */
  datatype Result<+T> = Success(value: T) | Failure(error: Error) {
    predicate IsFailure() { Failure? }

    function PropagateFailure<U>(): Result<U>
      requires Failure?
    {
      Failure(error)
    }

    function Extract(): T
      requires Success?
    {
      value
    }
  }

  datatype Option<+T> = None | Some(value: T)

  /** The converter's panics, one constructor per failing Go operation. */
  datatype Error =
    | NoHeaderRow                                          // rows[0] of an empty table
    | BracketsReversed(segment: string)                    // str[i+1:j] with "]" before "["
    | NotAnArray(key: string)                              // internal[key].([]interface{})
    | NotAnObject(key: string)                             // .(map[string]interface{})
    | IndexOutOfRange(key: string, index: int, length: nat) // internalArray[arrayIndex]
}
