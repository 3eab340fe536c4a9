/** Small value types shared by every module of the model: bytes, optional
    values, results that carry an error, and Go-style `error` outcomes of
    side effects that return nothing else.

    A Go `string` is a byte sequence. It is written here as a `string`
    (`seq<char>`) that holds one char per byte, so non-ASCII text appears as
    its UTF-8 bytes, and `|s|` is Go's `len(s)`. */
module Prelude {

  /** One octet, as in Go's `byte`. */
  type byte = x: int | 0 <= x < 256

  datatype Option<+T> = None | Some(value: T)

  /** A computation that yields a value or fails with an error value. */
  datatype Result<+T, +E> = Ok(value: T) | Err(error: E)

  /** The Go `error` returned by an operation that has no other result:
      `Pass` is a nil error, `Fail` carries the error's text. */
  datatype Outcome = Pass | Fail(cause: string)
}
