/** The LittleFS block-device adapter (Adapters/adapter-lfs.h,
    Adapters/adapter-lfs.cpp): LittleFS's read / program / erase / sync
    callbacks turned into W25Qxx operations, each followed by a wait on a
    completion semaphore. A semaphore take is not modelled; whether it
    returned pdTRUE within its timeout is a parameter of the operation. */
module LfsAdapter {
  import opened Types
  import opened Inst
  import opened Elements
  import opened Encoder
  import opened Device

  // ---------------------------------------------------------------------
  // Geometry (adapter-lfs.h)

  const BLOCK_SIZE: nat := 4096
  const BLOCK_COUNT: nat := 2048
  const PROG_SIZE: nat := 256
  const READ_SIZE: nat := 64
  const CACHE_SIZE: nat := 256
  const LOOKAHEAD_SIZE: nat := 256
  const BLOCK_CYCLES: nat := 500

  /** LittleFS's LFS_ERR_IO. */
  const ERR_IO: int := -5

  /** The geometry is consistent: a block is a whole number of program
      pages, and the cache and read sizes divide them as LittleFS demands. */
  lemma GeometryConsistent()
    ensures BLOCK_SIZE % PROG_SIZE == 0 && PROG_SIZE % READ_SIZE == 0
    ensures CACHE_SIZE % PROG_SIZE == 0 && BLOCK_SIZE % CACHE_SIZE == 0
    ensures BLOCK_COUNT * BLOCK_SIZE == 0x80_0000
  {
  }

  /** `block * LFS_BLOCK_SIZE + off` computed in `uint32_t`. */
  function BlockAddress(block: u32, off: u32): (a: u32)
    ensures block < BLOCK_COUNT && off < BLOCK_SIZE ==>
      a == block * BLOCK_SIZE + off && a < BLOCK_COUNT * BLOCK_SIZE
  {
    Wrap32(block * BLOCK_SIZE + off)
  }

  /** `addr & (LFS_PROG_SIZE - 1)` on a `uint32_t`: LFS_PROG_SIZE is a power
      of two, so the mask is the remainder (stated on the 32-bit vector the
      firmware computes with). */
  lemma PageMaskIsRemainder(addr: bv32)
    ensures addr & 0xFF == addr % 0x100
  {
  }

  /** The offset of `addr` inside its program page. */
  function PageOffset(addr: u32): (o: nat)
    ensures o < PROG_SIZE
  {
    addr % PROG_SIZE
  }

  /** The length of the next program chunk: up to the end of the page, but
      no more than what is left. */
  function ChunkLen(addr: u32, remain: nat): (c: nat)
    requires remain > 0
    ensures 0 < c <= remain && c <= PROG_SIZE
    ensures addr % PROG_SIZE + c <= PROG_SIZE
    ensures c == remain || addr % PROG_SIZE + c == PROG_SIZE
  {
    if PROG_SIZE - PageOffset(addr) > remain then remain else PROG_SIZE - PageOffset(addr)
  }

  datatype Chunk = Chunk(address: u32, len: nat)

  /** The chunks `program` writes, in order. */
  function Chunks(addr: u32, remain: nat): seq<Chunk>
    decreases remain
  {
    if remain == 0 then []
    else
      var c := ChunkLen(addr, remain);
      [Chunk(addr, c)] + Chunks(Wrap32(addr + c), remain - c)
  }

  function SumLen(cs: seq<Chunk>): nat
  {
    if cs == [] then 0 else cs[0].len + SumLen(cs[1..])
  }

  /** The chunks cover exactly the bytes asked for. */
  lemma {:induction false} ChunksCover(addr: u32, remain: nat)
    ensures SumLen(Chunks(addr, remain)) == remain
    decreases remain
  {
    if remain > 0 {
      var c := ChunkLen(addr, remain);
      var cs := Chunks(addr, remain);
      ChunksCover(Wrap32(addr + c), remain - c);
      assert cs[1..] == Chunks(Wrap32(addr + c), remain - c);
    }
  }

  /** No chunk is empty and no chunk crosses a program-page boundary. */
  lemma {:induction false} ChunksWithinPage(addr: u32, remain: nat)
    ensures forall c :: c in Chunks(addr, remain) ==> 0 < c.len && c.address % PROG_SIZE + c.len <= PROG_SIZE
    decreases remain
  {
    if remain > 0 {
      var c := ChunkLen(addr, remain);
      ChunksWithinPage(Wrap32(addr + c), remain - c);
    }
  }

  /** The first chunk starts at `addr`. */
  lemma ChunksStart(addr: u32, remain: nat)
    requires remain > 0
    ensures Chunks(addr, remain)[0] == Chunk(addr, ChunkLen(addr, remain))
  {
  }

  /** Every chunk after the first starts where the previous one ended (in
      `uint32_t`), at the start of a page. */
  lemma {:induction false} ChunksConsecutive(addr: u32, remain: nat, i: nat)
    requires 0 < i < |Chunks(addr, remain)|
    ensures var cs := Chunks(addr, remain);
      cs[i].address == Wrap32(cs[i - 1].address + cs[i - 1].len) && cs[i].address % PROG_SIZE == 0
    decreases remain
  {
    var c := ChunkLen(addr, remain);
    var next := Wrap32(addr + c);
    var rest := Chunks(next, remain - c);
    assert Chunks(addr, remain) == [Chunk(addr, c)] + rest;
    if i == 1 {
      assert remain - c > 0;
      assert rest[0].address == next;
      PageEnd(addr, c);
    } else {
      ChunksConsecutive(next, remain - c, i - 1);
    }
  }

  /** Advancing to the end of a page lands on a page start, also when the
      32-bit address wraps. */
  lemma PageEnd(addr: u32, c: nat)
    requires addr % PROG_SIZE + c == PROG_SIZE
    ensures Wrap32(addr + c) % PROG_SIZE == 0
  {
    var x := addr + c;
    var q := addr / PROG_SIZE;
    assert addr == q * PROG_SIZE + addr % PROG_SIZE;
    assert x == (q + 1) * PROG_SIZE;
    var k := x / 0x1_0000_0000;
    assert x == k * 0x1_0000_0000 + Wrap32(x);
    assert Wrap32(x) == (q + 1 - k * 0x100_0000) * PROG_SIZE;
  }

  // ---------------------------------------------------------------------
  // The transactions the adapter causes

  function WriteEnableTx(): Transaction
  {
    Transaction(Outbound(true), PhaseCmd(SimpleCommandInst(WriteEnable), NoPhase, NoPhase, 0, NoData), Null)
  }

  function PageProgramTx(addr: u32, buffer: Ptr, len: u16): Transaction
  {
    Transaction(Outbound(false),
      PhaseCmd(ProgramInst(QuadInputPageProgram), Phase(addr, 3, StandardSpi), NoPhase, 0,
               DataPhase(len, ProgramDataMode(QuadInputPageProgram))), buffer)
  }

  function FreePollTx(): Transaction
  {
    Transaction(Polling(PollConfig(0, 1, 2, true, true)),
      PhaseCmd(READ_SR1, NoPhase, NoPhase, 0, DataPhase(1, StandardSpi)), RxScratch)
  }

  function SectorEraseTx(addr: u32): Transaction
  {
    Transaction(Outbound(true),
      PhaseCmd(AddressCommandInst(SectorErase), Phase(addr, 3, StandardSpi), NoPhase, 0, NoData), Null)
  }

  /** The value an adapter callback returns to LittleFS and the
      transactions it caused. */
  datatype Outcome = Outcome(result: int, trace: seq<Transaction>)

  /** read: one quad-output read of `size` bytes (narrowed to the driver's
      `uint16_t` length), then a wait for receive-complete. */
  function ReadOutcome(block: u32, off: u32, buffer: Ptr, size: u32, rxTaken: bool): (o: Outcome)
    ensures o.result == 0 || o.result == ERR_IO
    ensures o.result == 0 <==> buffer != Null && size % 0x1_0000 != 0 && rxTaken
    ensures |o.trace| <= 1
  {
    var len := Narrow16(size);
    if buffer == Null || len == 0 then Outcome(ERR_IO, [])
    else
      var tx := [Transaction(Inbound, ReadCmd(FastReadQuadOutput, BlockAddress(block, off), len), buffer)];
      Outcome(if rxTaken then 0 else ERR_IO, tx)
  }

  /** A read of a whole aligned range inside the flash reads exactly that
      range into the caller's buffer. */
  lemma ReadInRange(block: u32, off: u32, buffer: Ptr, size: u32)
    requires block < BLOCK_COUNT && off + size <= BLOCK_SIZE && size > 0 && buffer != Null
    ensures ReadOutcome(block, off, buffer, size, true)
      == Outcome(0, [Transaction(Inbound, ReadCmd(FastReadQuadOutput, block * BLOCK_SIZE + off, size), buffer)])
  {
  }

  /** A 64 KiB read cannot be expressed in the driver's 16-bit length: it
      becomes a zero-length read, which the driver refuses. */
  lemma Read64KiBRefused(block: u32, off: u32, buffer: Ptr, rxTaken: bool)
    ensures ReadOutcome(block, off, buffer, 0x1_0000, rxTaken) == Outcome(ERR_IO, [])
  {
  }

  /** The transactions of one pass of program's loop for a chunk of `c`
      bytes at `addr`: the write-enable; with a buffer, the page program;
      if the transmit wait then succeeds, the FREE poll. */
  function PageTrace(addr: u32, buffer: Ptr, c: nat, txOk: bool): (t: seq<Transaction>)
    requires c <= PROG_SIZE
    ensures 1 <= |t| <= 3 && t[0] == WriteEnableTx()
    ensures |t| == 3 <==> buffer != Null && txOk
  {
    if buffer == Null then [WriteEnableTx()]
    else if !txOk then [WriteEnableTx(), PageProgramTx(addr, buffer, c)]
    else [WriteEnableTx(), PageProgramTx(addr, buffer, c), FreePollTx()]
  }

  /** program, from address `addr` with `remain` bytes left and chunk number
      `k` next: per chunk, write-enable, quad page program, wait for
      transmit-complete, FREE poll, wait for the flag; the first failing step
      ends it with LFS_ERR_IO. Every chunk is sent from the start of the
      caller's buffer. */
  function ProgramOutcome(addr: u32, buffer: Ptr, remain: nat, k: nat,
                          txTaken: nat -> bool, flagTaken: nat -> bool): (o: Outcome)
    ensures o.result == 0 || o.result == ERR_IO
    decreases remain
  {
    if remain == 0 then Outcome(0, [])
    else
      var c := ChunkLen(addr, remain);
      var page := PageTrace(addr, buffer, c, txTaken(k));
      if buffer == Null || !txTaken(k) || !flagTaken(k) then Outcome(ERR_IO, page)
      else
        var rest := ProgramOutcome(Wrap32(addr + c), buffer, remain - c, k + 1, txTaken, flagTaken);
        Outcome(rest.result, page + rest.trace)
  }

  /** The transactions of chunks all of whose waits succeed. */
  function ChunkTrace(cs: seq<Chunk>, buffer: Ptr): seq<Transaction>
  {
    if cs == [] then []
    else
      [WriteEnableTx(), PageProgramTx(cs[0].address, buffer, Narrow16(cs[0].len)), FreePollTx()]
        + ChunkTrace(cs[1..], buffer)
  }

  /** When every wait succeeds, program returns 0 after programming exactly
      the chunks of Chunks, each from the unadvanced buffer. */
  lemma {:induction false} ProgramAllTaken(addr: u32, buffer: Ptr, remain: nat, k: nat,
                                           txTaken: nat -> bool, flagTaken: nat -> bool)
    requires buffer != Null
    requires forall j :: k <= j ==> txTaken(j) && flagTaken(j)
    ensures ProgramOutcome(addr, buffer, remain, k, txTaken, flagTaken)
      == Outcome(0, ChunkTrace(Chunks(addr, remain), buffer))
    decreases remain
  {
    if remain > 0 {
      var c := ChunkLen(addr, remain);
      var next := Wrap32(addr + c);
      ProgramAllTaken(next, buffer, remain - c, k + 1, txTaken, flagTaken);
      ChunksUnfold(addr, remain, c);
      assert txTaken(k) && flagTaken(k);
      assert Narrow16(c) == c;
    }
  }

  /** The loop of program keeps "transactions sent so far, followed by
      what the rest of program sends, is everything program sends" across
      one chunk: program ends after the chunk's transactions if one of its
      steps fails, and otherwise carries on from the next address. */
  lemma ProgramPass(start: seq<Transaction>, goal: Outcome, before: seq<Transaction>,
                    addr: u32, buffer: Ptr, remain: nat, k: nat, c: nat,
                    txTaken: nat -> bool, flagTaken: nat -> bool,
                    addr': u32, remain': nat, k': nat) returns (rest: Outcome)
    requires remain > 0 && c == ChunkLen(addr, remain)
    requires before + ProgramOutcome(addr, buffer, remain, k, txTaken, flagTaken).trace == start + goal.trace
    requires ProgramOutcome(addr, buffer, remain, k, txTaken, flagTaken).result == goal.result
    requires addr' == Wrap32(addr + c) && remain' == remain - c && k' == k + 1
    ensures buffer == Null || !txTaken(k) || !flagTaken(k) ==>
      before + PageTrace(addr, buffer, c, txTaken(k)) == start + goal.trace && goal.result == ERR_IO
    ensures rest == ProgramOutcome(addr', buffer, remain', k', txTaken, flagTaken)
    ensures buffer != Null && txTaken(k) && flagTaken(k) ==>
      (before + PageTrace(addr, buffer, c, txTaken(k))) + rest.trace == start + goal.trace
      && rest.result == goal.result
  {
    rest := ProgramOutcome(addr', buffer, remain', k', txTaken, flagTaken);
    assert (before + PageTrace(addr, buffer, c, txTaken(k))) + rest.trace
      == before + (PageTrace(addr, buffer, c, txTaken(k)) + rest.trace);
  }

  /** Conversely, program returns 0 only when the buffer is non-null (or
      there is nothing to write) and the waits of every chunk succeeded;
      otherwise it returns LFS_ERR_IO. */
  lemma {:induction false} ProgramZeroOnlyIfAllTaken(addr: u32, buffer: Ptr, remain: nat, k: nat,
                                                     txTaken: nat -> bool, flagTaken: nat -> bool)
    ensures ProgramOutcome(addr, buffer, remain, k, txTaken, flagTaken).result == 0 ==>
      (remain == 0 || buffer != Null) &&
      forall j :: k <= j < k + |Chunks(addr, remain)| ==> txTaken(j) && flagTaken(j)
    decreases remain
  {
    if remain > 0 && buffer != Null && txTaken(k) && flagTaken(k) {
      var c := ChunkLen(addr, remain);
      var next := Wrap32(addr + c);
      ProgramZeroOnlyIfAllTaken(next, buffer, remain - c, k + 1, txTaken, flagTaken);
      ChunksUnfold(addr, remain, c);
    }
  }

  /** Chunks, unfolded once: the first chunk, then the chunks from the
      next address. */
  lemma ChunksUnfold(addr: u32, remain: nat, c: nat)
    requires remain > 0 && c == ChunkLen(addr, remain)
    ensures Chunks(addr, remain)[0] == Chunk(addr, c)
    ensures Chunks(addr, remain)[1..] == Chunks(Wrap32(addr + c), remain - c)
    ensures |Chunks(addr, remain)| == 1 + |Chunks(Wrap32(addr + c), remain - c)|
  {
    var rest := Chunks(Wrap32(addr + c), remain - c);
    assert Chunks(addr, remain) == [Chunk(addr, c)] + rest;
  }

  /** `block * LFS_BLOCK_SIZE` in `uint32_t` is always a multiple of the block
      size, since 2^32 is: erase's alignment check can never fail. */
  lemma EraseAddressAligned(block: u32)
    ensures Wrap32(block * BLOCK_SIZE) % BLOCK_SIZE == 0
  {
    var x := block * BLOCK_SIZE;
    var k := x / 0x1_0000_0000;
    assert x == k * 0x1_0000_0000 + Wrap32(x);
    assert Wrap32(x) == (block - k * 0x10_0000) * BLOCK_SIZE;
  }

  /** erase: write-enable, wait for the command, sector erase of the
      block's first sector, wait for the command, FREE poll, wait for the
      flag; the first failing wait ends it with LFS_ERR_IO. */
  function EraseOutcome(block: u32, cmdTaken1: bool, cmdTaken2: bool, flagTaken: bool): (o: Outcome)
    ensures o.result == 0 <==> cmdTaken1 && cmdTaken2 && flagTaken
    ensures o.result == 0 || o.result == ERR_IO
    ensures o.trace != [] && o.trace[0] == WriteEnableTx()
  {
    var addr := Wrap32(block * BLOCK_SIZE);
    if !cmdTaken1 then Outcome(ERR_IO, [WriteEnableTx()])
    else if !cmdTaken2 then Outcome(ERR_IO, [WriteEnableTx(), SectorEraseTx(addr)])
    else Outcome(if flagTaken then 0 else ERR_IO, [WriteEnableTx(), SectorEraseTx(addr), FreePollTx()])
  }

  /** Erasing a block of the flash erases the 4 KiB sector at its start. */
  lemma EraseInRange(block: u32)
    requires block < BLOCK_COUNT
    ensures EraseOutcome(block, true, true, true)
      == Outcome(0, [WriteEnableTx(), SectorEraseTx(block * BLOCK_SIZE), FreePollTx()])
  {
  }

  /** A counting-semaphore handle as the adapter stores it. */
  datatype Semaphore = NoSemaphore | Semaphore(id: nat)

  /** LfsAdapter: its static members, gathered in one object. */
  class Adapter {
    var w25qxx: W25Qxx?
    var waitForFlag: Semaphore
    var waitForTxCplt: Semaphore
    var waitForCmd: Semaphore
    var waitForRxCplt: Semaphore

    /** The static initialisers: everything null. */
    constructor ()
      ensures w25qxx == null && waitForFlag == NoSemaphore && waitForTxCplt == NoSemaphore
      ensures waitForCmd == NoSemaphore && waitForRxCplt == NoSemaphore
    {
      w25qxx := null;
      waitForFlag, waitForTxCplt, waitForCmd, waitForRxCplt := NoSemaphore, NoSemaphore, NoSemaphore, NoSemaphore;
    }

    /** queueCheck asserts the flag, transmit and command semaphores; every
        callback also dereferences the driver pointer. The receive semaphore
        is not checked. */
    predicate QueueCheck()
      reads this
    {
      w25qxx != null && waitForFlag != NoSemaphore && waitForTxCplt != NoSemaphore && waitForCmd != NoSemaphore
    }

    method Config(w: W25Qxx?, flg: Semaphore, tx: Semaphore, cmd: Semaphore, rx: Semaphore)
      modifies this
      ensures w25qxx == w && waitForFlag == flg && waitForTxCplt == tx
      ensures waitForCmd == cmd && waitForRxCplt == rx
      ensures QueueCheck() <==> w != null && flg != NoSemaphore && tx != NoSemaphore && cmd != NoSemaphore
    {
      w25qxx := w;
      waitForFlag := flg;
      waitForTxCplt := tx;
      waitForCmd := cmd;
      waitForRxCplt := rx;
    }

    method Read(block: u32, off: u32, buffer: Ptr, size: u32, rxTaken: bool) returns (r: int)
      requires QueueCheck()
      modifies w25qxx.spi
      ensures var o := ReadOutcome(block, off, buffer, size, rxTaken);
        r == o.result && w25qxx.spi.trace == old(w25qxx.spi.trace) + o.trace
    {
      var addr := BlockAddress(block, off);
      var ret := w25qxx.Read(FastReadQuadOutput, addr, buffer, Narrow16(size));
      if ret != Success {
        return ERR_IO;
      }
      if !rxTaken {
        return ERR_IO;
      }
      return 0;
    }

    /** One pass of program's loop body for a chunk of `c` bytes at
        `addr`, `txOk` and `flagOk` saying whether its two waits succeed:
        false when program is to return LFS_ERR_IO. */
    method ProgramPage(addr: u32, buffer: Ptr, c: nat, txOk: bool, flagOk: bool) returns (ok: bool)
      requires w25qxx != null && 0 < c <= PROG_SIZE
      modifies w25qxx.spi
      ensures ok <==> buffer != Null && txOk && flagOk
      ensures w25qxx.spi.trace == old(w25qxx.spi.trace) + PageTrace(addr, buffer, c, txOk)
    {
      ghost var before := w25qxx.spi.trace;
      var ret := w25qxx.Command(WriteEnable);
      ret := w25qxx.Program(QuadInputPageProgram, addr, buffer, c);
      if ret != Success {
        return false;
      }
      assert (before + [WriteEnableTx()]) + [PageProgramTx(addr, buffer, c)]
        == before + [WriteEnableTx(), PageProgramTx(addr, buffer, c)];
      if !txOk {
        return false;
      }
      ret := w25qxx.AsyncWaitForFlag(Free);
      assert ((before + [WriteEnableTx()]) + [PageProgramTx(addr, buffer, c)]) + [FreePollTx()]
        == before + [WriteEnableTx(), PageProgramTx(addr, buffer, c), FreePollTx()];
      return flagOk;
    }

    /** program: the page-chunking loop. `txTaken(k)` and `flagTaken(k)`
        say whether the waits of chunk `k` succeeded. */
    method Program(block: u32, off: u32, buffer: Ptr, size: u32,
                   txTaken: nat -> bool, flagTaken: nat -> bool) returns (r: int)
      requires QueueCheck()
      modifies w25qxx.spi
      ensures r == ProgramOutcome(BlockAddress(block, off), buffer, size, 0, txTaken, flagTaken).result
      ensures w25qxx.spi.trace
        == old(w25qxx.spi.trace) + ProgramOutcome(BlockAddress(block, off), buffer, size, 0, txTaken, flagTaken).trace
    {
      ghost var start := w25qxx.spi.trace;
      var addr: u32 := BlockAddress(block, off);
      ghost var goal := ProgramOutcome(addr, buffer, size, 0, txTaken, flagTaken);
      var p := buffer;
      var remain: nat := size;
      var k: nat := 0;
      ghost var rest := goal;
      while remain > 0
        invariant rest == ProgramOutcome(addr, buffer, remain, k, txTaken, flagTaken)
        invariant w25qxx.spi.trace + rest.trace == start + goal.trace && rest.result == goal.result
        decreases remain
      {
        var chunk := PROG_SIZE - PageOffset(addr);
        if chunk > remain {
          chunk := remain;
        }
        assert chunk == ChunkLen(addr, remain);
        ghost var (before, addr0, remain0, k0) := (w25qxx.spi.trace, addr, remain, k);
        var ok := ProgramPage(addr, buffer, chunk, txTaken(k), flagTaken(k));
        addr := Wrap32(addr + chunk);
        p := Advance(p, chunk);
        remain := remain - chunk;
        k := k + 1;
        rest := ProgramPass(start, goal, before, addr0, buffer, remain0, k0, chunk, txTaken, flagTaken,
                            addr, remain, k);
        if !ok {
          return ERR_IO;
        }
      }
      assert rest == Outcome(0, []);
      assert w25qxx.spi.trace + [] == w25qxx.spi.trace;
      return 0;
    }

    method Erase(block: u32, cmdTaken1: bool, cmdTaken2: bool, flagTaken: bool) returns (r: int)
      requires QueueCheck()
      modifies w25qxx.spi
      ensures var o := EraseOutcome(block, cmdTaken1, cmdTaken2, flagTaken);
        r == o.result && w25qxx.spi.trace == old(w25qxx.spi.trace) + o.trace
    {
      var addr := Wrap32(block * BLOCK_SIZE);
      EraseAddressAligned(block);
      if addr % BLOCK_SIZE != 0 {
        return ERR_IO;
      }
      var ret := w25qxx.Command(WriteEnable);
      if ret != Success {
        return ERR_IO;
      }
      if !cmdTaken1 {
        return ERR_IO;
      }
      ret := w25qxx.AddressCommand(SectorErase, addr);
      if ret != Success {
        return ERR_IO;
      }
      if !cmdTaken2 {
        return ERR_IO;
      }
      ret := w25qxx.AsyncWaitForFlag(Free);
      if !flagTaken {
        return ERR_IO;
      }
      return 0;
    }

    method Sync(flagTaken: bool) returns (r: int)
      requires QueueCheck()
      modifies w25qxx.spi
      ensures r == (if flagTaken then 0 else ERR_IO)
      ensures w25qxx.spi.trace == old(w25qxx.spi.trace) + [FreePollTx()]
    {
      var ret := w25qxx.AsyncWaitForFlag(Free);
      if ret != Success {
        return ERR_IO;
      }
      if !flagTaken {
        return ERR_IO;
      }
      return 0;
    }
  }
}
