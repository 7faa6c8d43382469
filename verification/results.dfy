/** Outcomes of the codec: the error kinds the Go code can produce, plus the
    Result and Option wrappers used in place of Go's `(value, error)` pairs. */
module Results {

  /** Why a decode, an envelope step or a coercion did not produce a value. */
  datatype Error =
    | Truncated                   // the byte cursor could not supply the bytes asked for
    | InvalidTag(id: int)         // a framed tag's id byte names no kind (nbt.go)
    | InvalidListType(kind: int)  // a list's element kind names no kind (tag.go List.Read)
    | NotEnough                   // a list element's payload could not be read
    | Panic                       // the Go code panics (negative make, write into a nil slice, ...)
    | InvalidLength               // a negative count, under the intended behaviour only
    | CannotCast                  // a coercion the tag kind does not support
    | NotFound                    // a Compound accessor asked for a name that is absent
    | CompressionFailure          // the gzip/zlib library reported an error

  datatype Option<+T> = None | Some(value: T)

  datatype Result<+T> = Ok(value: T) | Err(error: Error) {

    predicate IsFailure() {
      Err?
    }

    function PropagateFailure<U>(): Result<U>
      requires Err?
    {
      Err(error)
    }

    function Extract(): T
      requires Ok?
    {
      value
    }
  }
}
