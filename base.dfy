/** Machine-level value types shared by the converter: bytes, signed 32-bit
    integers, 4-byte IPv4 addresses, and the two failure-carrying wrappers. */
module Base {

  /** A Go `byte`. */
  type Byte = b: int | 0 <= b < 0x100

  /** A Go `int32`: the range `strconv.ParseInt(_, 10, 32)` accepts. */
  type Int32 = i: int | -0x8000_0000 <= i < 0x8000_0000

  /** An IPv4 address as its 4 bytes in network order (byte 0 is `a` in `a.b.c.d`). */
  type Quad = q: seq<Byte> | |q| == 4 witness [0, 0, 0, 0]

  /** A value that may be missing, as a nil `net.IP`. */
  datatype Option<+T> = None | Some(value: T)

  /** A result or an error, as a Go `(value, error)` pair. */
  datatype Result<+T, +E> = Ok(value: T) | Err(error: E)
}
