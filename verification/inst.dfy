/** The W25Qxx instruction set: one constructor per named instruction and
    the opcode the flash expects for it. */
module Inst {

  datatype Inst =
    | NONE
    | WRITE_ENABLE
    | WRITE_ENABLE_FOR_SR
    | WRITE_DISABLE
    | READ_SR1 | READ_SR2 | READ_SR3
    | WRITE_SR1 | WRITE_SR2 | WRITE_SR3
    | READ_DATA
    | FAST_READ
    | FAST_READ_DUAL_OUTPUT
    | FAST_READ_QUAD_OUTPUT
    | FAST_READ_DUAL_IO
    | FAST_READ_QUAD_IO
    | SET_BURST_WITH_WRAP
    | PAGE_PROGRAM
    | QUAD_INPUT_PAGE_PROGRAM
    | SECTOR_ERASE
    | BLOCK_ERASE_32KB
    | BLOCK_ERASE_64KB
    | CHIP_ERASE
    | CHIP_ERASE_BKP
    | ERASE_PROGRAM_SUSPEND
    | ERASE_PROGRAM_RESUME
    | POWER_DOWN
    | RELEASE_POWER_DOWN
    | DEVICE_ID
    | READ_MANUFACTURER_DEVICE_ID
    | READ_MANUFACTURER_DEVICE_ID_DUAL_IO
    | READ_MANUFACTURER_DEVICE_ID_QUAD_IO
    | READ_UNIQUE_ID
    | READ_JEDEC_ID
    | READ_SFDP_REGISTER
    | ERASE_SECURITY_REGISTER
    | PROGRAM_SECURITY_REGISTER
    | READ_SECURITY_REGISTER
    | INDIVIDUAL_BLOCK_SECTOR_LOCK
    | INDIVIDUAL_BLOCK_SECTOR_UNLOCK
    | READ_BLOCK_SECTOR_LOCK
    | GLOBAL_BLOCK_SECTOR_LOCK
    | GLOBAL_BLOCK_SECTOR_UNLOCK
    | ENABLE_RESET
    | RESET_DEVICE

  /** The enumerator's value. Every opcode fits in one byte, so the
      narrowing to `uint8_t` done when an instruction element is built
      never changes it. */
  function Opcode(i: Inst): (code: int)
    ensures 0 <= code < 0x100
    ensures code == 0 <==> i == NONE
  {
    match i
    case NONE => 0x00
    case WRITE_ENABLE => 0x06
    case WRITE_ENABLE_FOR_SR => 0x50
    case WRITE_DISABLE => 0x04
    case READ_SR1 => 0x05
    case READ_SR2 => 0x35
    case READ_SR3 => 0x15
    case WRITE_SR1 => 0x01
    case WRITE_SR2 => 0x31
    case WRITE_SR3 => 0x11
    case READ_DATA => 0x03
    case FAST_READ => 0x0B
    case FAST_READ_DUAL_OUTPUT => 0x3B
    case FAST_READ_QUAD_OUTPUT => 0x6B
    case FAST_READ_DUAL_IO => 0xBB
    case FAST_READ_QUAD_IO => 0xEB
    case SET_BURST_WITH_WRAP => 0x77
    case PAGE_PROGRAM => 0x02
    case QUAD_INPUT_PAGE_PROGRAM => 0x32
    case SECTOR_ERASE => 0x20
    case BLOCK_ERASE_32KB => 0x52
    case BLOCK_ERASE_64KB => 0xD8
    case CHIP_ERASE => 0xC7
    case CHIP_ERASE_BKP => 0x60
    case ERASE_PROGRAM_SUSPEND => 0x75
    case ERASE_PROGRAM_RESUME => 0x7A
    case POWER_DOWN => 0xB9
    case RELEASE_POWER_DOWN => 0xAB
    case DEVICE_ID => 0xAB
    case READ_MANUFACTURER_DEVICE_ID => 0x90
    case READ_MANUFACTURER_DEVICE_ID_DUAL_IO => 0x92
    case READ_MANUFACTURER_DEVICE_ID_QUAD_IO => 0x94
    case READ_UNIQUE_ID => 0x4B
    case READ_JEDEC_ID => 0x9F
    case READ_SFDP_REGISTER => 0x5A
    case ERASE_SECURITY_REGISTER => 0x44
    case PROGRAM_SECURITY_REGISTER => 0x42
    case READ_SECURITY_REGISTER => 0x48
    case INDIVIDUAL_BLOCK_SECTOR_LOCK => 0x36
    case INDIVIDUAL_BLOCK_SECTOR_UNLOCK => 0x39
    case READ_BLOCK_SECTOR_LOCK => 0x3D
    case GLOBAL_BLOCK_SECTOR_LOCK => 0x7E
    case GLOBAL_BLOCK_SECTOR_UNLOCK => 0x98
    case ENABLE_RESET => 0x66
    case RESET_DEVICE => 0x99
  }

  /** The instruction an opcode byte stands for on the wire. The shared
      value 0xAB is read as RELEASE_POWER_DOWN; bytes that are no opcode
      decode as NONE. The table is split by opcode range. */
  function InstOf(code: int): Inst
  {
    if code < 0x10 then InstOf0(code)
    else if code < 0x40 then InstOf1(code)
    else if code < 0x60 then InstOf2(code)
    else if code < 0x90 then InstOf3(code)
    else if code < 0xB0 then InstOf4(code)
    else InstOf5(code)
  }

  /** Opcodes from 0x00 to 0x0F. */
  function InstOf0(code: int): Inst
  {
    match code
    case 0x00 => NONE
    case 0x01 => WRITE_SR1
    case 0x02 => PAGE_PROGRAM
    case 0x03 => READ_DATA
    case 0x04 => WRITE_DISABLE
    case 0x05 => READ_SR1
    case 0x06 => WRITE_ENABLE
    case 0x0B => FAST_READ
    case _ => NONE
  }

  /** Opcodes from 0x10 to 0x3F. */
  function InstOf1(code: int): Inst
  {
    match code
    case 0x11 => WRITE_SR3
    case 0x15 => READ_SR3
    case 0x20 => SECTOR_ERASE
    case 0x31 => WRITE_SR2
    case 0x32 => QUAD_INPUT_PAGE_PROGRAM
    case 0x35 => READ_SR2
    case 0x36 => INDIVIDUAL_BLOCK_SECTOR_LOCK
    case 0x39 => INDIVIDUAL_BLOCK_SECTOR_UNLOCK
    case 0x3B => FAST_READ_DUAL_OUTPUT
    case 0x3D => READ_BLOCK_SECTOR_LOCK
    case _ => NONE
  }

  /** Opcodes from 0x40 to 0x5F. */
  function InstOf2(code: int): Inst
  {
    match code
    case 0x42 => PROGRAM_SECURITY_REGISTER
    case 0x44 => ERASE_SECURITY_REGISTER
    case 0x48 => READ_SECURITY_REGISTER
    case 0x4B => READ_UNIQUE_ID
    case 0x50 => WRITE_ENABLE_FOR_SR
    case 0x52 => BLOCK_ERASE_32KB
    case 0x5A => READ_SFDP_REGISTER
    case _ => NONE
  }

  /** Opcodes from 0x60 to 0x8F. */
  function InstOf3(code: int): Inst
  {
    match code
    case 0x60 => CHIP_ERASE_BKP
    case 0x66 => ENABLE_RESET
    case 0x6B => FAST_READ_QUAD_OUTPUT
    case 0x75 => ERASE_PROGRAM_SUSPEND
    case 0x77 => SET_BURST_WITH_WRAP
    case 0x7A => ERASE_PROGRAM_RESUME
    case 0x7E => GLOBAL_BLOCK_SECTOR_LOCK
    case _ => NONE
  }

  /** Opcodes from 0x90 to 0xAF. */
  function InstOf4(code: int): Inst
  {
    match code
    case 0x90 => READ_MANUFACTURER_DEVICE_ID
    case 0x92 => READ_MANUFACTURER_DEVICE_ID_DUAL_IO
    case 0x94 => READ_MANUFACTURER_DEVICE_ID_QUAD_IO
    case 0x98 => GLOBAL_BLOCK_SECTOR_UNLOCK
    case 0x99 => RESET_DEVICE
    case 0x9F => READ_JEDEC_ID
    case 0xAB => RELEASE_POWER_DOWN
    case _ => NONE
  }

  /** Opcodes from 0xB0 to 0xFF. */
  function InstOf5(code: int): Inst
  {
    match code
    case 0xB9 => POWER_DOWN
    case 0xBB => FAST_READ_DUAL_IO
    case 0xC7 => CHIP_ERASE
    case 0xD8 => BLOCK_ERASE_64KB
    case 0xEB => FAST_READ_QUAD_IO
    case _ => NONE
  }

  /** An instruction with the alias DEVICE_ID folded onto RELEASE_POWER_DOWN. */
  function Canon(i: Inst): Inst
  {
    if i == DEVICE_ID then RELEASE_POWER_DOWN else i
  }

  /** Decoding an instruction's opcode gives the instruction back, up to
      the one alias. */
  lemma DecodeOpcode(i: Inst)
    ensures InstOf(Opcode(i)) == Canon(i)
  {
    match i
    case NONE =>
    case WRITE_ENABLE =>
    case WRITE_ENABLE_FOR_SR =>
    case WRITE_DISABLE =>
    case READ_SR1 =>
    case READ_SR2 =>
    case READ_SR3 =>
    case WRITE_SR1 =>
    case WRITE_SR2 =>
    case WRITE_SR3 =>
    case READ_DATA =>
    case FAST_READ =>
    case FAST_READ_DUAL_OUTPUT =>
    case FAST_READ_QUAD_OUTPUT =>
    case FAST_READ_DUAL_IO =>
    case FAST_READ_QUAD_IO =>
    case SET_BURST_WITH_WRAP =>
    case PAGE_PROGRAM =>
    case QUAD_INPUT_PAGE_PROGRAM =>
    case SECTOR_ERASE =>
    case BLOCK_ERASE_32KB =>
    case BLOCK_ERASE_64KB =>
    case CHIP_ERASE =>
    case CHIP_ERASE_BKP =>
    case ERASE_PROGRAM_SUSPEND =>
    case ERASE_PROGRAM_RESUME =>
    case POWER_DOWN =>
    case RELEASE_POWER_DOWN =>
    case DEVICE_ID =>
    case READ_MANUFACTURER_DEVICE_ID =>
    case READ_MANUFACTURER_DEVICE_ID_DUAL_IO =>
    case READ_MANUFACTURER_DEVICE_ID_QUAD_IO =>
    case READ_UNIQUE_ID =>
    case READ_JEDEC_ID =>
    case READ_SFDP_REGISTER =>
    case ERASE_SECURITY_REGISTER =>
    case PROGRAM_SECURITY_REGISTER =>
    case READ_SECURITY_REGISTER =>
    case INDIVIDUAL_BLOCK_SECTOR_LOCK =>
    case INDIVIDUAL_BLOCK_SECTOR_UNLOCK =>
    case READ_BLOCK_SECTOR_LOCK =>
    case GLOBAL_BLOCK_SECTOR_LOCK =>
    case GLOBAL_BLOCK_SECTOR_UNLOCK =>
    case ENABLE_RESET =>
    case RESET_DEVICE =>
  }

  /** Two enumerators share a value: releasing power-down and reading the
      8-bit device id are the same instruction on the wire; every other pair
      of distinct instructions has distinct opcodes. */
  lemma OpcodeAliases(a: Inst, b: Inst)
    requires a != b
    ensures Opcode(a) == Opcode(b) <==>
      {a, b} == {RELEASE_POWER_DOWN, DEVICE_ID}
  {
    DecodeOpcode(a);
    DecodeOpcode(b);
  }
}
