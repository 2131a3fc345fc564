/** Value types shared by every module of the model: optional values and bytes. */
module Base {

  /** The model's counterpart of Rust's `Option`. */
  datatype Option<+T> = None | Some(value: T) {

    /** Returns the carried value, or `default` when there is none (`unwrap_or`). */
    function GetOr(default: T): T {
      match this
      case Some(v) => v
      case None => default
    }
  }

  /** A Rust `u8`. Bit-vectors give XOR directly. */
  type Byte = bv8

  /** The byte holding a number below 256 (`n as u8`). */
  function ToByte(n: nat): (b: Byte)
    requires n < 256
    ensures b as int == n
  {
    if n == 0 then 0 else ToByte(n - 1) + 1
  }

  /** Big-endian value of two bytes (`u16::from_be_bytes`). */
  function BigEndian16(hi: Byte, lo: Byte): (r: nat)
    ensures r < 0x1_0000
    ensures r / 256 == hi as int && r % 256 == lo as int
  {
    hi as int * 256 + lo as int
  }
}
