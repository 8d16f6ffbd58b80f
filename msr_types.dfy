/** The fixed-width integer types of MSRAccess.h and the C conversions between them. */
module MsrTypes {

  const U8_LIMIT: int := 0x100
  const U32_LIMIT: int := 0x1_0000_0000
  const I32_LIMIT: int := 0x8000_0000

  /** uint8_t */
  type uint8 = x: int | 0 <= x < 0x100
  /** uint32_t and DWORD */
  type uint32 = x: int | 0 <= x < 0x1_0000_0000
  /** uint64_t */
  type uint64 = x: int | 0 <= x < 0x1_0000_0000_0000_0000
  /** int on the target (32 bits, two's complement) */
  type int32 = x: int | -0x8000_0000 <= x < 0x8000_0000

  /** A C conversion to uint8_t: the value modulo 2^8 (Dafny's % is never negative). */
  function ToUint8(x: int): uint8 {
    x % U8_LIMIT
  }

  /** A C conversion to uint32_t, and 32-bit unsigned arithmetic: the value modulo 2^32. */
  function ToUint32(x: int): uint32 {
    x % U32_LIMIT
  }

  /** A value that fits is unchanged by the conversion. */
  lemma ToUint32InRange(x: int)
    requires 0 <= x < U32_LIMIT
    ensures ToUint32(x) == x
  {
  }

  /** A conversion to a 32-bit int, wrapping in two's complement as the target compiler does. */
  function ToInt32(x: int): int32 {
    var w := x % U32_LIMIT;
    if w < I32_LIMIT then w else w - U32_LIMIT
  }

  datatype Option<T> = None | Some(value: T)
}
