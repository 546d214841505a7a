/** The driver's enumerations and the typed phase element from which every
    flash transaction is assembled (Drivers/Devices/w25qxx.h). */
module Elements {
  import opened Types
  import opened Inst

  /** W25QxxErr: the satisfaction code every driver operation returns.
      `Unset` is the enumerator NONE, the value a result variable starts with. */
  datatype Err = Unset | Busy | Timeout | Invalid | Success

  /** W25QxxCommModeEnum: how many data lines a phase uses. */
  datatype CommMode = ModeNone | StandardSpi | Dspi | Qspi | Ospi

  /** MsgTypeEnum: which phase of a transaction an element describes. */
  datatype MsgType = TypeNone | Instruction | Address | AlternateByte | DummyCycle | Data

  /** W25QxxRegisterEnum. */
  datatype Register = Sr1 | Sr2 | Sr3 | Sec1 | Sec2 | Sec3

  /** W25QxxWrapLenEnum. */
  datatype WrapLen = WrapNone | Wrap8Bytes | Wrap16Bytes | Wrap32Bytes | Wrap64Bytes

  /** W25QxxStateEnum. */
  datatype DeviceState = StateNone | Free | DeviceBusy | Suspended

  /** getLines: the line count is the enumerator's ordinal. */
  function Lines(m: CommMode): (n: u8)
    ensures n <= 4
    ensures n == 0 <==> m == ModeNone
    ensures m == StandardSpi ==> n == 1
    ensures m == Dspi ==> n == 2
    ensures m == Qspi ==> n == 3
    ensures m == Ospi ==> n == 4
  {
    match m
    case ModeNone => 0
    case StandardSpi => 1
    case Dspi => 2
    case Qspi => 3
    case Ospi => 4
  }

  /** W25QxxMsgElement. Fields a constructor leaves uninitialised are 0 (or
      null) here; the encoder never reads them for a well-typed element. */
  datatype Element = Element(typ: MsgType, mode: CommMode, num: u16, byte: u32, pData: Ptr)

  /** The value constructor (address, alternate bytes): a DATA or
      INSTRUCTION type is not accepted and becomes NONE. */
  function ValueElement(typ: MsgType, byte: u32, num: u16, mode: CommMode): (e: Element)
    ensures e.typ == TypeNone <==> typ in {TypeNone, Data, Instruction}
    ensures e.typ != TypeNone ==> e.typ == typ
    ensures e.byte == byte && e.num == num && e.mode == mode && e.pData == Null
  {
    var t := if typ == Data || typ == Instruction then TypeNone else typ;
    Element(t, mode, num, byte, Null)
  }

  /** The pointer constructor: only DATA is accepted; pointer and length are
      stored as given. */
  function DataElement(typ: MsgType, pData: Ptr, num: u16, mode: CommMode): (e: Element)
    ensures e.typ == Data <==> typ == Data
    ensures e.typ != Data ==> e.typ == TypeNone
    ensures e.pData == pData && e.num == num && e.mode == mode
  {
    var t := if typ != Data then TypeNone else typ;
    Element(t, mode, num, 0, pData)
  }

  /** The instruction constructor: always one byte on one line, the byte
      being the opcode narrowed to `uint8_t`; only INSTRUCTION is accepted. */
  function InstElement(typ: MsgType, inst: Inst): (e: Element)
    ensures e.typ == Instruction <==> typ == Instruction
    ensures e.typ != Instruction ==> e.typ == TypeNone
    ensures e.mode == StandardSpi && e.num == 1 && e.byte == Opcode(inst)
  {
    var t := if typ != Instruction then TypeNone else typ;
    Element(t, StandardSpi, 1, Opcode(inst) % 0x100, Null)
  }

  /** The dummy-cycle constructor: accepted only for DUMMY_CYCLE with at
      most 31 cycles. */
  function DummyElement(typ: MsgType, num: u16): (e: Element)
    ensures e.typ == DummyCycle <==> typ == DummyCycle && num <= 31
    ensures e.typ != DummyCycle ==> e.typ == TypeNone
    ensures e.num == num
  {
    var t := if typ != DummyCycle || num > 31 then TypeNone else typ;
    Element(t, ModeNone, num, 0, Null)
  }
}
