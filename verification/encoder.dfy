/** The communication layer (Drivers/Devices/w25qxx-comm-adpter.cpp): the
    fold of a list of phase elements into one OSPI command descriptor, and
    transmit / receive / auto-polling, whose hardware calls are recorded in
    a trace of issued transactions. */
module Encoder {
  import opened Types
  import opened Inst
  import opened Elements

  /** The fields of OSPI_RegularCmdTypeDef the fold writes, in the HAL's own
      encoding (mode and size values already shifted into place). */
  datatype Descriptor = Descriptor(
    instruction: u32, instructionMode: u32, instructionSize: u32,
    address: u32, addressMode: u32, addressSize: u32,
    alternateBytes: u32, alternateBytesMode: u32, alternateBytesSize: u32,
    dummyCycles: u32,
    dataMode: u32, nbData: u32)

  /** `OSPI_RegularCmdTypeDef sCommand = {}`. */
  const EmptyCmd := Descriptor(0, 0, 0, 0, 0, 0, 0, 0, 0, 0, 0, 0)

  /** HAL_OSPI_INSTRUCTION_1_LINE: the instruction-mode field for one line. */
  const INSTRUCTION_1_LINE: u32 := 1

  /** The size field `(n - 1) << shift` of an element with `n` bytes, where
      `unit` is `1 << shift`; the int result is stored into a `uint32_t`. */
  function SizeField(n: u16, unit: nat): u32
  {
    Wrap32((n - 1) * unit)
  }

  /** The descriptor fields owned by each element kind. */
  function Group(d: Descriptor, k: MsgType): seq<int>
  {
    match k
    case Instruction => [d.instruction, d.instructionMode, d.instructionSize]
    case Address => [d.address, d.addressMode, d.addressSize]
    case AlternateByte => [d.alternateBytes, d.alternateBytesMode, d.alternateBytesSize]
    case DummyCycle => [d.dummyCycles]
    case Data => [d.dataMode, d.nbData]
    case TypeNone => []
  }

  /** What an element of a given kind writes into its own fields: the opcode
      on one line with size (num-1)<<4; the address with mode lines<<8 and
      size (num-1)<<12; the alternate bytes with lines<<16 and (num-1)<<20;
      the dummy-cycle count; the data lines<<24 and the byte count. */
  function Encoding(e: Element): seq<int>
  {
    match e.typ
    case Instruction => [e.byte, INSTRUCTION_1_LINE, SizeField(e.num, 0x10)]
    case Address => [e.byte, Lines(e.mode) * 0x100, SizeField(e.num, 0x1000)]
    case AlternateByte => [e.byte, Lines(e.mode) * 0x1_0000, SizeField(e.num, 0x10_0000)]
    case DummyCycle => [e.num]
    case Data => [Lines(e.mode) * 0x100_0000, e.num]
    case TypeNone => []
  }

  /** One step of the fold for an element of a known kind. */
  function Apply(d: Descriptor, e: Element): Descriptor
  {
    match e.typ
    case Instruction =>
      d.(instruction := e.byte, instructionMode := INSTRUCTION_1_LINE,
         instructionSize := SizeField(e.num, 0x10))
    case Address =>
      d.(address := e.byte, addressMode := Lines(e.mode) * 0x100,
         addressSize := SizeField(e.num, 0x1000))
    case AlternateByte =>
      d.(alternateBytes := e.byte, alternateBytesMode := Lines(e.mode) * 0x1_0000,
         alternateBytesSize := SizeField(e.num, 0x10_0000))
    case DummyCycle => d.(dummyCycles := e.num)
    case Data => d.(dataMode := Lines(e.mode) * 0x100_0000, nbData := e.num)
    case TypeNone => d
  }

  /** The outcome of cmdConfig: its return code and the final contents of
      the two out-parameters. */
  datatype Configured = Configured(err: Err, cmd: Descriptor, pData: Ptr)

  /** Specification of cmdConfig: elements are processed in order; a NONE
      element stops the fold with INVALID. */
  function Config(msg: seq<Element>, cmd: Descriptor, pData: Ptr): Configured
    decreases |msg|
  {
    if msg == [] then Configured(Success, cmd, pData)
    else if msg[0].typ == TypeNone then Configured(Invalid, cmd, pData)
    else Config(msg[1..], Apply(cmd, msg[0]), if msg[0].typ == Data then msg[0].pData else pData)
  }

  /** cmdConfig itself: the loop writes the descriptor and the data pointer
      in place. */
  method CmdConfig(msg: seq<Element>, cmd0: Descriptor, pData0: Ptr)
    returns (ret: Err, cmd: Descriptor, pData: Ptr)
    ensures ret == Success || ret == Invalid
    ensures Configured(ret, cmd, pData) == Config(msg, cmd0, pData0)
  {
    cmd, pData := cmd0, pData0;
    var i := 0;
    while i < |msg|
      invariant 0 <= i <= |msg|
      invariant Config(msg[i..], cmd, pData) == Config(msg, cmd0, pData0)
    {
      var e := msg[i];
      assert msg[i..][0] == e && msg[i..][1..] == msg[i + 1..];
      match e.typ {
        case Instruction =>
          cmd := cmd.(instruction := e.byte, instructionMode := INSTRUCTION_1_LINE,
                      instructionSize := SizeField(e.num, 0x10));
        case Address =>
          cmd := cmd.(address := e.byte, addressMode := Lines(e.mode) * 0x100,
                      addressSize := SizeField(e.num, 0x1000));
        case AlternateByte =>
          cmd := cmd.(alternateBytes := e.byte, alternateBytesMode := Lines(e.mode) * 0x1_0000,
                      alternateBytesSize := SizeField(e.num, 0x10_0000));
        case DummyCycle =>
          cmd := cmd.(dummyCycles := e.num);
        case Data =>
          cmd := cmd.(dataMode := Lines(e.mode) * 0x100_0000, nbData := e.num);
          pData := e.pData;
        case TypeNone =>
          return Invalid, cmd, pData;
      }
      i := i + 1;
    }
    ret := Success;
  }

  // ---------------------------------------------------------------------
  // Properties of the fold

  predicate HasNone(msg: seq<Element>)
  {
    exists i :: 0 <= i < |msg| && msg[i].typ == TypeNone
  }

  lemma NoNoneTail(msg: seq<Element>)
    requires !HasNone(msg) && msg != []
    ensures msg[0].typ != TypeNone && !HasNone(msg[1..])
  {
    forall i | 0 <= i < |msg[1..]| ensures msg[1..][i].typ != TypeNone {
      assert msg[1..][i] == msg[i + 1];
    }
  }

  /** The last element of kind `k` in the list, if any. */
  function LastOfKind(msg: seq<Element>, k: MsgType): Option<Element>
    decreases |msg|
  {
    if msg == [] then None
    else match LastOfKind(msg[1..], k)
      case Some(e) => Some(e)
      case None => if msg[0].typ == k then Some(msg[0]) else None
  }

  /** Each element writes its own kind's fields and leaves every other
      kind's fields as they were. */
  lemma ApplyFrame(d: Descriptor, e: Element, k: MsgType)
    requires e.typ != TypeNone
    ensures Group(Apply(d, e), k) == if k == e.typ then Encoding(e) else Group(d, k)
  {
  }

  /** The fold fails exactly when some element is NONE, and then with
      INVALID; otherwise it succeeds. */
  lemma {:induction false} ConfigOutcome(msg: seq<Element>, cmd: Descriptor, pData: Ptr)
    ensures Config(msg, cmd, pData).err == (if HasNone(msg) then Invalid else Success)
    decreases |msg|
  {
    if msg != [] && msg[0].typ != TypeNone {
      var c := Apply(cmd, msg[0]);
      var p := if msg[0].typ == Data then msg[0].pData else pData;
      ConfigOutcome(msg[1..], c, p);
      if HasNone(msg[1..]) {
        var i :| 0 <= i < |msg[1..]| && msg[1..][i].typ == TypeNone;
        assert msg[i + 1].typ == TypeNone;
      }
      if HasNone(msg) {
        var i :| 0 <= i < |msg| && msg[i].typ == TypeNone;
        assert msg[1..][i - 1].typ == TypeNone;
      }
    }
  }

  /** Later elements overwrite earlier ones: when no element is NONE, the
      fields of kind `k` are those written by the last element of kind `k`,
      or keep their initial values if the kind does not occur. */
  lemma {:induction false} ConfigLastWriterWins(msg: seq<Element>, cmd: Descriptor, pData: Ptr, k: MsgType)
    requires !HasNone(msg) && k != TypeNone
    ensures Group(Config(msg, cmd, pData).cmd, k) ==
      match LastOfKind(msg, k)
      case Some(e) => Encoding(e)
      case None => Group(cmd, k)
    decreases |msg|
  {
    if msg != [] {
      NoNoneTail(msg);
      var c := Apply(cmd, msg[0]);
      var p := if msg[0].typ == Data then msg[0].pData else pData;
      ConfigLastWriterWins(msg[1..], c, p, k);
      ApplyFrame(cmd, msg[0], k);
    }
  }

  /** The data-pointer out-parameter is the pointer of the last DATA
      element, or keeps its initial value (null in every caller) when there
      is none. */
  lemma {:induction false} ConfigDataPointer(msg: seq<Element>, cmd: Descriptor, pData: Ptr)
    requires !HasNone(msg)
    ensures Config(msg, cmd, pData).pData ==
      match LastOfKind(msg, Data)
      case Some(e) => e.pData
      case None => pData
    decreases |msg|
  {
    if msg != [] {
      NoNoneTail(msg);
      var c := Apply(cmd, msg[0]);
      var p := if msg[0].typ == Data then msg[0].pData else pData;
      ConfigDataPointer(msg[1..], c, p);
    }
  }

  /** Every kind occurs at most once. */
  predicate KindsDistinct(msg: seq<Element>)
  {
    forall i, j :: 0 <= i < j < |msg| ==> msg[i].typ != msg[j].typ
  }

  /** With each kind at most once, the last element of a kind is simply the
      element of that kind. */
  lemma {:induction false} LastOfKindUnique(msg: seq<Element>, k: MsgType)
    requires KindsDistinct(msg)
    ensures forall e :: LastOfKind(msg, k) == Some(e) <==> e in msg && e.typ == k
    decreases |msg|
  {
    if msg != [] {
      assert KindsDistinct(msg[1..]) by {
        forall i, j | 0 <= i < j < |msg[1..]| ensures msg[1..][i].typ != msg[1..][j].typ {
          assert msg[1..][i] == msg[i + 1] && msg[1..][j] == msg[j + 1];
        }
      }
      LastOfKindUnique(msg[1..], k);
      forall e ensures e in msg <==> e == msg[0] || e in msg[1..] {
        assert msg == [msg[0]] + msg[1..];
      }
      if msg[0].typ == k {
        forall e | e in msg[1..] ensures e.typ != k {
          var j :| 0 <= j < |msg[1..]| && msg[1..][j] == e;
          assert msg[j + 1] == e;
        }
      }
    }
  }

  lemma DescriptorGroups(d: Descriptor, d': Descriptor)
    requires forall k :: Group(d, k) == Group(d', k)
    ensures d == d'
  {
    assert Group(d, Instruction) == Group(d', Instruction);
    assert Group(d, Address) == Group(d', Address);
    assert Group(d, AlternateByte) == Group(d', AlternateByte);
    assert Group(d, DummyCycle) == Group(d', DummyCycle);
    assert Group(d, Data) == Group(d', Data);
  }

  /** When every kind appears at most once, the order of the list does not
      matter: two lists holding the same elements fold to the same result. */
  lemma ConfigOrderIndependent(msg: seq<Element>, msg': seq<Element>, cmd: Descriptor, pData: Ptr)
    requires !HasNone(msg) && KindsDistinct(msg) && KindsDistinct(msg')
    requires forall e :: e in msg <==> e in msg'
    ensures Config(msg, cmd, pData) == Config(msg', cmd, pData)
  {
    forall i | 0 <= i < |msg'| ensures msg'[i].typ != TypeNone {
      assert msg'[i] in msg;
      var j :| 0 <= j < |msg| && msg[j] == msg'[i];
    }
    forall k ensures LastOfKind(msg, k) == LastOfKind(msg', k) {
      LastOfKindUnique(msg, k);
      LastOfKindUnique(msg', k);
    }
    forall k ensures Group(Config(msg, cmd, pData).cmd, k) == Group(Config(msg', cmd, pData).cmd, k) {
      if k != TypeNone {
        ConfigLastWriterWins(msg, cmd, pData, k);
        ConfigLastWriterWins(msg', cmd, pData, k);
      }
    }
    DescriptorGroups(Config(msg, cmd, pData).cmd, Config(msg', cmd, pData).cmd);
    ConfigOutcome(msg, cmd, pData);
    ConfigOutcome(msg', cmd, pData);
    ConfigDataPointer(msg, cmd, pData);
    ConfigDataPointer(msg', cmd, pData);
  }

  // ---------------------------------------------------------------------
  // The SPI layer

  /** OSPI_AutoPollingTypeDef as autoPolling fills it: the masked status
      byte is compared with AND match mode, and polling stops by itself on a
      match. */
  datatype PollConfig = PollConfig(matchValue: u32, mask: u32, interval: u8,
                                   andMatchMode: bool, automaticStop: bool)

  /** How a transaction was handed to the HAL. A transmit without a data
      phase goes out as an interrupt-driven command (its completion is the
      command-complete signal); with a data phase it is a blocking command
      followed by a DMA transmit (completion: transmit-complete). */
  datatype TxKind = Outbound(commandOnly: bool) | Inbound | Polling(cfg: PollConfig)

  datatype Transaction = Transaction(kind: TxKind, cmd: Descriptor, data: Ptr)

  /** W25QxxSpiComm, with the hardware it drives replaced by the trace of
      transactions handed to it. */
  class SpiComm {
    ghost var trace: seq<Transaction>

    constructor ()
      ensures trace == []
    {
      trace := [];
    }

    /** Encode, and on success issue the transaction (the HAL's own results
        are ignored by the source). */
    method Transmit(msg: seq<Element>) returns (ret: Err)
      modifies this
      ensures var c := Config(msg, EmptyCmd, Null);
        ret == c.err &&
        trace == old(trace) +
          if c.err == Success then [Transaction(Outbound(c.cmd.dataMode == 0), c.cmd, c.pData)] else []
    {
      var cmd, pData;
      ret, cmd, pData := CmdConfig(msg, EmptyCmd, Null);
      if ret != Success {
        return;
      }
      trace := trace + [Transaction(Outbound(cmd.dataMode == 0), cmd, pData)];
      ret := Success;
    }

    method Receive(msg: seq<Element>) returns (ret: Err)
      modifies this
      ensures var c := Config(msg, EmptyCmd, Null);
        ret == c.err &&
        trace == old(trace) + if c.err == Success then [Transaction(Inbound, c.cmd, c.pData)] else []
    {
      var cmd, pData;
      ret, cmd, pData := CmdConfig(msg, EmptyCmd, Null);
      if ret != Success {
        return;
      }
      trace := trace + [Transaction(Inbound, cmd, pData)];
      ret := Success;
    }

    method AutoPolling(msg: seq<Element>, target: u32, mask: u32, interval: u8) returns (ret: Err)
      modifies this
      ensures var c := Config(msg, EmptyCmd, Null);
        ret == c.err &&
        trace == old(trace) +
          if c.err == Success
          then [Transaction(Polling(PollConfig(target, mask, interval, true, true)), c.cmd, c.pData)]
          else []
    {
      var cmd, pData;
      ret, cmd, pData := CmdConfig(msg, EmptyCmd, Null);
      if ret != Success {
        return;
      }
      var cfg := PollConfig(target, mask, interval, true, true);
      trace := trace + [Transaction(Polling(cfg), cmd, pData)];
    }
  }
}
