/** Values shared by the whole codec: errors, results, and the library
    calls the codec makes but does not implement. */
module Wire {
  import opened Bytes

  datatype Option<T> = None | Some(value: T)

  /** The error kinds the codec returns to its caller. */
  datatype Error =
    | Truncated                       // scroll could not read a fixed-size field: too few bytes
    | DecompressFailed                // the zlib or Brotli stream could not be read to its end
    | InvalidUtf8                     // `std::str::from_utf8` rejected a message
    | UnsupportProto(version: string) // a version tag outside {0, 1}, printed in decimal

  datatype Result<T> = Ok(value: T) | Err(error: Error)

  /** How a call into the codec ends: it returns a result, it panics (a slice
      out of range or a u32 subtraction below zero), or it never returns. */
  datatype Outcome<T> = Returns(result: Result<T>) | Panics | Diverges

  /** A decoded message: the UTF-8 bytes of a Rust `String`. */
  type Msg = seq<byte>

  /** The libraries the codec calls: zlib inflation (flate2's `ZlibDecoder`),
      Brotli decompression (`brotli::Decompressor`), both read to the end of
      the stream, and UTF-8 validation. `None` is a stream that fails. */
  datatype Libraries = Libraries(
    inflate: seq<byte> -> Option<seq<byte>>,
    unbrotli: seq<byte> -> Option<seq<byte>>,
    validUtf8: seq<byte> -> bool)
}
