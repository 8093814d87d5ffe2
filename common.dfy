/** Small shared vocabulary: optional values and byte strings. */
module Common {

  /** A value that may be absent (JavaScript's `undefined` / `null`). */
  datatype Option<T> = None | Some(value: T)

  /** The content of a stored file. */
  type Bytes = seq<bv8>
}
