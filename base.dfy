/** Basic types shared by the whole model: bytes, Go strings, and the
    Option/Result wrappers used for Go's `(value, error)` returns. */
module Base {

  /** A Go `byte`. */
  type byte = b: int | 0 <= b < 256

  /** One byte of a Go string; written as a character so that literals read naturally. */
  type Octet = c: char | c as int < 256 witness '0'

  /** A Go `string` is a sequence of bytes: `len` counts bytes and `s[i:j]` slices bytes. */
  type GoString = seq<Octet>

  datatype Option<+T> = None | Some(value: T)

  datatype Result<+T, +E> = Ok(value: T) | Err(error: E)
}
