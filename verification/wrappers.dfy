/** Failure-compatible result types shared by every decoder of the model.

    The decoders of the extractor read big-endian fields through bounds-checked
    accessors and throw on malformed input; here every such failure becomes an
    `Err` value that the caller propagates with `:-`.
 */
module Wrappers {

  /** An optional value: a lookup that may miss. */
  datatype Option<+T> = None | Some(value: T)

  /** Why a decoder could not produce its value. */
  datatype Error =
    /** a read needed the buffer to hold at least `needed` bytes */
    | OutOfRange(needed: nat)
    /** a record's format byte has no layout (PolygonType1) */
    | UnknownFormat(format: nat)
    /** the source throws a "TODO" error for this case */
    | Unsupported(what: string)
    /** the source dereferences a declaration that does not exist */
    | MissingDeclaration(offset: nat)
    /** the source indexes element 0 of an empty list */
    | EmptyList

  /** Either the decoded value or the reason decoding stopped. */
  datatype Result<+T> = Ok(value: T) | Err(error: Error) {

    predicate IsFailure() {
      Err?
    }

    function PropagateFailure<U>(): Result<U>
      requires Err?
    {
      Err(error)
    }

    function Extract(): T
      requires Ok?
    {
      value
    }
  }
}
