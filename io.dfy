/// The `std::io` vocabulary the reader uses: error kinds, errors with their
/// messages, results, and `read_exact` over an in-memory archive image.
module Io {
  import opened Bytes

  datatype ErrorKind = NotFound | InvalidData | UnexpectedEof | Other

  datatype Error = Error(kind: ErrorKind, message: string)

  datatype Result<T> = Ok(value: T) | Err(error: Error)

  datatype Option<T> = None | Some(value: T)

  /// The error `read_exact` reports when the stream ends before the buffer is full.
  const EofError := Error(UnexpectedEof, "failed to fill whole buffer")

  /// A read of `n` bytes at `pos` can be satisfied. Seeking past the end is
  /// allowed, so an empty read always succeeds.
  predicate Fits(image: seq<uint8>, pos: nat, n: nat)
  {
    n == 0 || pos + n <= |image|
  }

  /// Seek to `pos` and fill a buffer of `n` bytes; reading past the end of
  /// the image fails.
  function ReadExact(image: seq<uint8>, pos: nat, n: nat): (r: Result<seq<uint8>>)
    ensures r.Ok? <==> Fits(image, pos, n)
    ensures r.Ok? ==> |r.value| == n && (n > 0 ==> r.value == image[pos..pos + n])
    ensures r.Err? ==> r.error == EofError
  {
    if n == 0 then Ok([])
    else if pos + n <= |image| then Ok(image[pos..pos + n])
    else Err(EofError)
  }
}
