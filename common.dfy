/** Types shared by every part of the archive model. */
module Common {

  /** A value or nothing; stands for the source's nullable references. */
  datatype Option<+T> = None | Some(value: T)

  /** The closed set of outcomes an archive operation reports (the source's `Result`). */
  datatype Status = OK | NotImplemented | MalformedFile | InvalidArgument | FileNotFound | FileWriteError

  /** One octet of a file image. */
  type byte = x: int | 0 <= x < 256

  /** 2^32: every `uint` quantity of the format is taken modulo this. */
  const U32Limit: nat := 0x1_0000_0000

  /** 2^64: the modulus of the `ulong` arithmetic of the decoder. */
  const U64Limit: nat := 0x1_0000_0000_0000_0000

  /** `int.MaxValue`; also the largest length of a .NET byte array. */
  const IntMax: nat := 0x7FFF_FFFF
}
