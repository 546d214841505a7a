/** Fixed-width integers, explicit wrap-around and the pointer values the
    firmware passes around. */
module Types {

  type u8 = x: int | 0 <= x < 0x100
  type u16 = x: int | 0 <= x < 0x1_0000
  type u32 = x: int | 0 <= x < 0x1_0000_0000
  type u64 = x: int | 0 <= x < 0x1_0000_0000_0000_0000
  type i16 = x: int | -0x8000 <= x < 0x8000

  datatype Option<T> = None | Some(value: T)

  /** Unsigned 32-bit arithmetic: the value a `uint32_t` holds after an
      assignment of the mathematical result `x`. */
  function Wrap32(x: int): (r: u32)
    ensures (x - r) % 0x1_0000_0000 == 0
  {
    x % 0x1_0000_0000
  }

  /** Truncation of a wider unsigned value to `uint8_t`. */
  function Narrow8(x: nat): (r: u8)
    ensures x < 0x100 ==> r == x
    ensures (x - r) % 0x100 == 0
  {
    x % 0x100
  }

  /** Truncation of a wider unsigned value to `uint16_t`. */
  function Narrow16(x: nat): (r: u16)
    ensures x < 0x1_0000 ==> r == x
    ensures (x - r) % 0x1_0000 == 0
  {
    x % 0x1_0000
  }

  /** Two's-complement narrowing of a `uint16_t` stored into an `int16_t`. */
  function ToInt16(v: u16): (r: i16)
    ensures (v - r) % 0x1_0000 == 0
    ensures r < 0 <==> v >= 0x8000
  {
    if v < 0x8000 then v else v - 0x1_0000
  }

  /** A pointer as the firmware uses it: null, a caller's buffer at some
      offset, the flash driver's receive scratch buffer, or the address of
      a one-byte local variable (which is all the model needs to know about
      it: the byte it holds). */
  datatype Ptr =
    | Null
    | Mem(base: nat, offset: nat)
    | RxScratch
    | StackByte(value: u8)

  /** `p + n` for a pointer into a caller's buffer; any other pointer is
      never advanced by the firmware. */
  function Advance(p: Ptr, n: nat): (q: Ptr)
    ensures p.Mem? ==> q.Mem? && q.base == p.base && q.offset == p.offset + n
    ensures !p.Mem? ==> q == p
  {
    match p
    case Mem(b, o) => Mem(b, o + n)
    case _ => p
  }
}
