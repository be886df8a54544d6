/** Failure-carrying datatypes: the Rust source's `Option`, and the panics of
    `expect`/`unwrap`/indexing turned into explicit error results. */
module Wrappers {

  datatype Option<+T> = None | Some(value: T)

  datatype Result<+T, +E> = Ok(value: T) | Err(error: E) {
    predicate IsFailure() {
      Err?
    }

    function PropagateFailure<U>(): Result<U, E>
      requires Err?
    {
      Err(error)
    }

    function Extract(): T
      requires Ok?
    {
      value
    }
  }

  /** Result of an operation that returns `()` in the source but may panic. */
  datatype Outcome<+E> = Pass | Fail(error: E)

  /** Every way the graph library fails. The source panics in each case;
      the model returns the kind instead. */
  datatype GraphError =
    | NotFound          // get_vertex_value / remove_edge on a missing vertex or edge
    | IndexOutOfBounds  // Vec::remove past the end inside remove_vertex
    | CorruptData       // TGF text without a "#" line
    | MalformedLine     // a TGF line with too few whitespace-separated tokens
    | QuoteSlice        // delete_quotes on the one-character token "\"" (slice 1..0)
    | ParseError        // FromStr failed on a field
}
