/** Bytes as the sources see them. A C string is modelled by its bytes without the final zero. */
module Bytes {

  newtype Byte = b: int | 0 <= b < 256

  type ByteString = seq<Byte>

  /** The bytes of an ASCII literal. */
  function Ascii(text: string): (bytes: ByteString)
    ensures |bytes| == |text|
    ensures forall i | 0 <= i < |text| :: bytes[i] as int == text[i] as int % 256
  {
    seq(|text|, i requires 0 <= i < |text| => (text[i] as int % 256) as Byte)
  }
}

/** The shape of an optional value and of a C status with its value. */
module Wrappers {

  datatype Option<+T> = None | Some(value: T)

  datatype Result<+T, +E> = Ok(value: T) | Err(error: E)
}
