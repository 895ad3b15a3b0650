/** Vocabulary shared by every stage of the Huffman compressor. */
module Common {

  /** One byte of a file, as an element of a Python `bytes` object. */
  type Byte = x: int | 0 <= x < 256

  /** A string of '0'/'1' characters: `false` stands for '0', `true` for '1'. */
  type Bits = seq<bool>

  datatype Option<T> = None | Some(value: T)

  /** The ways compression or decompression ends without a result. */
  datatype Error =
    | EmptyInput      // compression of a zero-length file is refused
    | CountOverflow   // a count does not fit its 4-byte header field
    | InvalidData     // the stored counts rebuild no tree
    | MissingChild    // the decoder stepped below a leaf

  datatype Result<T> = Ok(value: T) | Err(error: Error)

  function Min(a: int, b: int): int
  {
    if a < b then a else b
  }
}
