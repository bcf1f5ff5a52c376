/** Small failure-carrying datatypes shared by every module of the model. */
module Common {

  /** A value that may be missing (JavaScript `undefined`/`null`). */
  datatype Option<+T> = None | Some(value: T) {
    function GetOr(default: T): T {
      match this
      case Some(v) => v
      case None => default
    }
  }

  /** The outcome of an operation that either yields a value or throws an error. */
  datatype Result<+R, +E> = Success(value: R) | Failure(error: E)

  /** A byte as read from a file: an integer in [0, 256). */
  type Byte = x: int | 0 <= x < 256

  /** The fields of a browser `File` the application reads: `name`, `type` and `size` (in bytes). */
  datatype FileRef = FileRef(name: string, mimeType: string, size: nat)

  /** The MIME type of PDF files, `file.type === 'application/pdf'`. */
  const PdfType: string := "application/pdf"

  function Min(a: int, b: int): int
  {
    if a <= b then a else b
  }
}
