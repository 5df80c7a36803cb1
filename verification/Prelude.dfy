/** Types shared by every module: bytes, optional values and the outcomes of calls that can throw. */
module Prelude {

  type byte = b: int | 0 <= b < 256

  const NEWLINE: byte := 10
  const RETURN: byte := 13
  const QUOTE: byte := 34
  const BACKSLASH: byte := 92

  datatype Option<+T> = None | Some(value: T)

  /** What the program's exceptions carry, as far as a caller can tell them apart. */
  datatype Error =
    | DataError          // ZlibError(Z_DATA_ERROR)
    | ConstraintError    // a row with an existing primary key
    | LineTooLong        // "Line too long!"
    | CrossesMember      // "Tried to cross a gzip stream boundary"

  datatype Result<+T> = Ok(value: T) | Err(error: Error)

  function Min(a: int, b: int): int {
    if a <= b then a else b
  }
}
