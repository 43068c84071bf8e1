/** Small shared vocabulary: nullable values, outcomes, bytes and integer helpers. */
module Common {

  /** A value that JavaScript would hold as `null`/`undefined` or as a real value. */
  datatype Option<+T> = None | Some(value: T) {
    function GetOr(default: T): T {
      match this
      case Some(v) => v
      case None => default
    }
  }

  /** The outcome of an ORM call: the value, or the error it throws. */
  datatype Result<+R, +E> = Success(value: R) | Failure(error: E)

  /** One octet of an uploaded file (a Node.js `Buffer` is a sequence of these). */
  newtype byte = x: int | 0 <= x < 256

  /** The contents of an uploaded file. */
  type Blob = seq<byte>

  function Min(a: int, b: int): int { if a <= b then a else b }

  function Max(a: int, b: int): int { if a <= b then b else a }
}
