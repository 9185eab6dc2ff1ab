/**
  Shared vocabulary of the SMB front door: fixed-width unsigned integers, an
  Option type, the errno values the validator returns negated, and the two
  protocol signatures.
 */
module SmbTypes {

  type u8 = x: int | 0 <= x < 0x100
  type u16 = x: int | 0 <= x < 0x1_0000
  type u32 = x: int | 0 <= x < 0x1_0000_0000

  /** 2^32: an `int` that is converted to `unsigned int` is reduced modulo this. */
  const TWO_TO_32: int := 0x1_0000_0000

  datatype Option<+T> = None | Some(value: T)

  /** Linux errno values; the C code returns them negated. */
  const EINVAL: int := 22
  const EOPNOTSUPP: int := 95

  /**
    The first four bytes of an SMB message read as a little-endian 32-bit
    value: 0xFF 'S' 'M' 'B' for SMB1 ([MS-CIFS] section 2.2.3.1) and
    0xFE 'S' 'M' 'B' for SMB2 ([MS-SMB2] section 2.2.1).
   */
  const SMB1_PROTO_NUMBER: u32 := 0x424D_53FF
  const SMB2_PROTO_NUMBER: u32 := 0x424D_53FE
}
