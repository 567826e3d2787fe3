/** Small shared vocabulary: optional values and bytes. */
module Common {

  /** A value that may be absent; `None` also stands for a nil pointer or slice. */
  datatype Option<T> = None | Some(value: T)

  /** An octet, as Go's `byte`. */
  newtype byte = x: int | 0 <= x < 256

  /** A byte slice, and also a Go `string`, which is a sequence of bytes. */
  type Bytes = seq<byte>
}
