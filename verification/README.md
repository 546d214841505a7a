# W25Qxx storage stack — a Dafny model

This project models the storage path of an STM32 firmware that keeps a
LittleFS file system on a Winbond W25Qxx NOR flash over OSPI, together
with two helpers of its application layer:

- **Encoder** (`encoder.dfy`, `elements.dfy`, `inst.dfy`): the typed phase
  elements (instruction, address, alternate byte, dummy cycles, data), the
  opcode table, and `cmdConfig`, which folds an element list into one OSPI
  command descriptor plus a data pointer. `transmit`, `receive` and
  `autoPolling` are that fold followed by hardware calls. Here the
  hardware calls become a ghost trace of issued transactions.
- **Device** (`device.dfy`): the `W25Qxx` driver. Every operation builds an
  element list and hands it to the SPI layer, so each one is specified by
  the transaction it appends to the trace. The asynchronous enquiries also
  queue `{field, length}` assignments. `asyncRxCallback` then serves them
  in order, copying byte-reversed slices of the 128-byte receive buffer
  into the ID and status fields. The fields are held as a byte image, so
  the callback really is `memcpy_reverse_order` into their bytes.
- **LfsAdapter** (`adapter.dfy`): the LittleFS block-device callbacks.
  `read`, `program` (a loop that splits the write into 256-byte-page
  chunks), `erase` and `sync` become driver operations and semaphore
  waits. Whether each wait succeeded is a parameter.
- **Ring** (`ring_buffer.dfy`): the byte ring of `Applications/Utils`.
  Its `head`, `tail` and `size` counters are updated in place over a
  caller-supplied array. A queue of `BufferMsg` descriptors records where
  each pushed message starts.
- **FsRequest** (`fs_msg.dfy`): the file-system request message `FsMsg`
  and its request-kind enumeration.
- **Types** (`types.dfy`): fixed-width integers with explicit truncation
  and wrap-around, and the pointer values the firmware passes around.

Behaviour of the code that the model keeps as written, with a lemma for
each:

- The wrap byte of `setBurstWithWrap` swaps the 16- and 32-byte settings
  of the documented table (`Device.WrapByteAgainstDoc`).
- `program` sends every chunk from the start of the caller's buffer, not
  from the advanced pointer (`LfsAdapter.ProgramAllTaken`).
- The alignment check of `erase` can never fail
  (`LfsAdapter.EraseAddressAligned`).
- A 64 KiB read is narrowed to a zero length and refused
  (`LfsAdapter.Read64KiBRefused`).
- The ring buffer's `pop` reads a message without wrapping, so a message
  that crossed the end of the storage comes back wrong
  (`Ring.PopMissesWrapped`).
- Every enquiry receives at the start of the scratch buffer, but the
  callback reads each queued assignment after the bytes of the earlier
  ones, so two enquiries queued before one callback are misread
  (`Device.QueuedEnquiriesMisread`).
- `pushFromISR` queues an uninitialised offset (`Ring.RingBuffer.PushFromIsr`).
- `FsMsg` takes the *last* zero byte of the first 255 as the path length
  (`FsRequest.PathLenNotFirstZero`).

## Model

| member | source | states |
|---|---|---|
| Types.Wrap32 | Adapters/adapter-lfs.cpp:65 | the `uint32_t` result differs from the mathematical value by a multiple of 2^32 |
| Types.Narrow8 | Drivers/Devices/w25qxx.cpp:936 | truncation to `uint8_t` keeps values below 256 and is congruent mod 256 |
| Types.Narrow16 | Applications/Utils/ringBuffer.h:70-71 | truncation to `uint16_t` keeps values below 65536 and is congruent mod 65536 |
| Types.ToInt16 | Applications/app-file.h:109 | storing a `uint16_t` in an `int16_t` is congruent mod 65536 and is negative exactly when bit 15 is set |
| Types.Advance | Adapters/adapter-lfs.cpp:126 | `p + n` moves a buffer pointer `n` bytes forward within the same buffer and leaves other pointers alone |
| Inst.Opcode | Drivers/Devices/w25qxx-inst.h:36-294 | every opcode fits in one byte, so the `uint8_t` narrowing changes nothing; only NONE is 0 |
| Inst.DecodeOpcode | Drivers/Devices/w25qxx-inst.h:36-294 | decoding an instruction's opcode gives the instruction back, with DEVICE_ID read as RELEASE_POWER_DOWN |
| Inst.OpcodeAliases | Drivers/Devices/w25qxx-inst.h:188-193 | two distinct instructions share an opcode iff they are RELEASE_POWER_DOWN and DEVICE_ID (both 0xAB) |
| Elements.Lines | Drivers/Devices/w25qxx.h:48-54 | the line count is the mode's ordinal: standard 1, dual 2, quad 3, octal 4, none 0 |
| Elements.ValueElement | Drivers/Devices/w25qxx.h:102-107 | the value constructor turns DATA and INSTRUCTION (and NONE) into NONE, keeps the other kinds, and stores value, count and mode with a null pointer |
| Elements.DataElement | Drivers/Devices/w25qxx.h:116-121 | the pointer constructor keeps only DATA, any other kind becomes NONE; pointer, count and mode are stored unchanged |
| Elements.InstElement | Drivers/Devices/w25qxx.h:128-133 | the instruction constructor gives one byte on one line holding the opcode; any kind but INSTRUCTION becomes NONE |
| Elements.DummyElement | Drivers/Devices/w25qxx.h:135-139 | the dummy constructor keeps DUMMY_CYCLE only with at most 31 cycles, otherwise NONE |
| Encoder.CmdConfig | Drivers/Devices/w25qxx-comm-adpter.cpp:120-169 | the loop leaves the return code, descriptor and data pointer of the in-order fold `Config`, and returns only SUCCESS or INVALID |
| Encoder.NoNoneTail | Drivers/Devices/w25qxx-comm-adpter.cpp:128-166 | a list with no NONE element has a non-NONE head and a tail with no NONE element |
| Encoder.ApplyFrame | Drivers/Devices/w25qxx-comm-adpter.cpp:131-161 | each element writes exactly its own kind's descriptor fields, with the HAL encoding, and leaves every other kind's fields alone |
| Encoder.ConfigOutcome | Drivers/Devices/w25qxx-comm-adpter.cpp:163-168 | the fold returns INVALID iff some element is NONE, otherwise SUCCESS |
| Encoder.ConfigLastWriterWins | Drivers/Devices/w25qxx-comm-adpter.cpp:128-166 | without NONE elements, each kind's fields hold the encoding of the last element of that kind, or the initial fields if there is none |
| Encoder.ConfigDataPointer | Drivers/Devices/w25qxx-comm-adpter.cpp:157-162 | the data-pointer out-parameter is the pointer of the last DATA element, or stays as it was if there is none |
| Encoder.LastOfKindUnique | Drivers/Devices/w25qxx-comm-adpter.cpp:128-166 | with each kind at most once, the last element of a kind is the element of that kind in the list |
| Encoder.DescriptorGroups | Drivers/Devices/w25qxx-comm-adpter.cpp:131-161 | the kinds' field groups together cover the whole descriptor |
| Encoder.ConfigOrderIndependent | Drivers/Devices/w25qxx-comm-adpter.cpp:128-166 | with every kind at most once, reordering the list does not change the fold's result |
| Encoder.SpiComm.constructor | Drivers/Devices/w25qxx-comm-adpter.cpp:45-66 | a new SPI layer has issued nothing |
| Encoder.SpiComm.Transmit | Drivers/Devices/w25qxx-comm-adpter.cpp:45-66 | returns the fold's error unchanged and issues nothing on failure; on success issues one outbound transaction, command-only exactly when there is no data phase |
| Encoder.SpiComm.Receive | Drivers/Devices/w25qxx-comm-adpter.cpp:68-84 | returns the fold's error unchanged and issues nothing on failure; on success issues one inbound transaction with the fold's descriptor and pointer |
| Encoder.SpiComm.AutoPolling | Drivers/Devices/w25qxx-comm-adpter.cpp:86-118 | returns the fold's error unchanged; on success issues one polling transaction with match = target, mask, interval, AND match mode and automatic stop |
| Device.Width | Drivers/Devices/w25qxx.h:389-392 | every ID and status field is 1 to 8 bytes wide |
| Device.Offset | Drivers/Devices/w25qxx.h:389-392 | every field lies inside the byte image of the fields |
| Device.FieldsDisjoint | Drivers/Devices/w25qxx.h:389-392 | distinct fields occupy disjoint bytes |
| Device.SpanFits | Drivers/Devices/w25qxx.cpp:933-937 | an assignment's bytes start after those of the earlier ones and end within the total the queue takes |
| Device.OthersMiss | Drivers/Devices/w25qxx.cpp:933-937 | later assignments, which target other fields, do not write a byte of an earlier assignment's field |
| Device.AboveUntouched | Drivers/Devices/w25qxx.cpp:933-937 | no assignment writes the bytes of a field above the length assigned to it |
| Device.Reverse | Drivers/Devices/w25qxx.cpp:971-978 | reversal keeps the length |
| Device.LittleEndianOfReverse | Drivers/Devices/w25qxx.cpp:971-978 | bytes received most significant first and copied in reverse order give a little-endian field the same number |
| Device.LittleEndianAppend | Drivers/Devices/w25qxx.h:389-392 | the little-endian value of concatenated bytes is the low part plus 256^n times the high part |
| Device.LittleEndianBound | Drivers/Devices/w25qxx.h:389-392 | an n-byte little-endian value is below 256^n |
| Device.Store | Drivers/Devices/w25qxx.cpp:935 | copying bytes into a field keeps the size of the byte image |
| Device.StoreReadsBack | Drivers/Devices/w25qxx.cpp:935 | after a copy the field's first bytes are the copied bytes |
| Device.StoreElsewhere | Drivers/Devices/w25qxx.cpp:935 | a copy changes no byte outside the copied range |
| Device.ResolveFrom | Drivers/Devices/w25qxx.cpp:931-941 | serving assignments in order keeps the size of the byte image |
| Device.Resolve | Drivers/Devices/w25qxx.cpp:931-941 | serving all assignments from the start of the scratch buffer keeps the size of the byte image |
| Device.ResolveFrame | Drivers/Devices/w25qxx.cpp:931-941 | bytes no pending assignment writes keep their values |
| Device.ResolveOwn | Drivers/Devices/w25qxx.cpp:931-941 | the first pending assignment's field ends up holding the next bytes of the scratch buffer, reversed |
| Device.ResolveWrites | Drivers/Devices/w25qxx.cpp:931-941 | each assignment's field holds, reversed, the scratch slice that starts at the sum of the earlier lengths |
| Device.ResolveLater | Drivers/Devices/w25qxx.cpp:931-941 | serving one assignment first moves the reading position past its bytes and leaves the later assignments' results as they were |
| Device.ResolveAbove | Drivers/Devices/w25qxx.cpp:931-941 | the bytes of an assigned field above its length keep their values |
| Device.FieldFromParts | Drivers/Devices/w25qxx.cpp:931-941 | a field filled with reversed received bytes below its old upper bytes holds the big-endian number received over those upper bytes |
| Device.ResolveField | Drivers/Devices/w25qxx.cpp:931-941 | after the callback, an assigned field's getter returns the big-endian number received at its offset in the scratch buffer, over the field's old upper bytes |
| Device.UpperHalf | Drivers/Devices/w25qxx.h:382 | the upper 32 bits of the 64-bit unique id are the value of its upper four bytes |
| Device.UniqueIdResolved | Drivers/Devices/w25qxx.cpp:101-123 | after a unique-id enquiry made with nothing else pending is served, the low 32 bits of the id are the four bytes received, most significant first, and the upper 32 bits are unchanged |
| Device.BigEndianShort | Drivers/Devices/w25qxx.cpp:66-67 | the big-endian value of one or two bytes |
| Device.JedecIdResolved | Drivers/Devices/w25qxx.cpp:51-74 | after a JEDEC enquiry made with nothing else pending is served, the manufacturer id is the first byte received and the 16-bit device id the next two, most significant first |
| Device.QueuedEnquiriesMisread | Drivers/Devices/w25qxx.cpp:931-937 | an SR1 enquiry and a JEDEC enquiry queued before one callback are misread: both receive at index 0 but the callback reads from the running index, so SR1 gets the manufacturer id, the manufacturer id gets the device id's high byte, and the device id takes a stale buffer byte |
| Device.EnquiryAssignmentsFit | Drivers/Devices/w25qxx.cpp:619-719 | every enquiry assigns distinct fields, each within its width, no more bytes than its data phase receives, and at most 128 |
| Device.SecuritySelect | Drivers/Devices/w25qxx.cpp:721-735 | the select bits ORed in are 0x1000, 0x2000 and 0x3000 for security registers 1 to 3, none for the others |
| Device.SecurityAddress | Drivers/Devices/w25qxx.cpp:721-735 | a security register has address 0x1000, 0x2000 or 0x3000 and a status register has none |
| Device.SecurityByteAddress | Drivers/Devices/w25qxx.cpp:796-812 | ORing in the low byte of the address adds it to the register's address |
| Device.WrapByte | Drivers/Devices/w25qxx.cpp:415-438 | the alternate byte is 0x10 for no wrap, 0x00 for 8, 0x40 for 16, 0x20 for 32 and 0x60 for 64 bytes |
| Device.DocWrapLen | Drivers/Devices/w25qxx-inst.h:113-118 | under the documented table, a byte means "no wrap" exactly when bit 4 is set |
| Device.WrapByteInjective | Drivers/Devices/w25qxx.cpp:415-438 | different wrap lengths send different alternate bytes |
| Device.WrapByteAgainstDoc | Drivers/Devices/w25qxx-inst.h:113-118 | read through the documented table, the byte sent selects the requested length for none, 8 and 64 bytes, but 32 for a 16-byte request and 16 for a 32-byte request |
| Device.InstOnlyConfig | Drivers/Devices/w25qxx.cpp:550-617 | an instruction-only list encodes to a one-line opcode phase and nothing else |
| Device.WithAddressConfig | Drivers/Devices/w25qxx.cpp:505-548 | instruction plus address encodes to the opcode and a one-line 3-byte address |
| Device.AddressDataConfig | Drivers/Devices/w25qxx.cpp:455-503 | instruction, address and data encode to those three phases, with the data pointer passed on |
| Device.RegisterAccessConfig | Drivers/Devices/w25qxx.cpp:187-222 | instruction plus one data byte encodes to the opcode and a one-line one-byte data phase |
| Device.Fold1 | Drivers/Devices/w25qxx-comm-adpter.cpp:128-166 | the fold of a list starting with a non-NONE element is the fold of the rest after applying that element |
| Device.Fold2 | Drivers/Devices/w25qxx-comm-adpter.cpp:128-166 | a two-element list without NONE folds to its elements applied in order |
| Device.Fold3 | Drivers/Devices/w25qxx-comm-adpter.cpp:128-166 | a three-element list without NONE folds to its elements applied in order |
| Device.Fold4 | Drivers/Devices/w25qxx-comm-adpter.cpp:128-166 | a four-element list without NONE folds to its elements applied in order |
| Device.ReadRequestConfig | Drivers/Devices/w25qxx.cpp:254-411 | each read encodes to its phase table: address lines, dummy cycles and data lines 1/0/1, 1/8/1, 1/8/2, 1/8/4, 2/4/2 and 4/4/4, with a 3-byte address |
| Device.AddressedEnquiryConfig | Drivers/Devices/w25qxx.cpp:645-719 | instruction, data, zero address and dummy cycles encode to address and data on the same lines, even though the data element comes before the address |
| Device.EnquiryConfig | Drivers/Devices/w25qxx.cpp:619-719 | each enquiry's element list encodes to its phase table, received into the scratch buffer |
| Device.WrapRequestConfig | Drivers/Devices/w25qxx.cpp:413-453 | the wrap request encodes to the opcode, a 4-line one-byte alternate phase and 6 dummy cycles |
| Device.MemcpyReverseOrder | Drivers/Devices/w25qxx.cpp:971-978 | the destination range holds the source bytes in reverse order and every other destination byte is unchanged |
| Device.ReversedSplice | Drivers/Devices/w25qxx.cpp:971-978 | a buffer holding a piece backwards in a range, and the old bytes elsewhere, is the old buffer with that range replaced by the reversed piece |
| Device.W25Qxx.constructor | Drivers/Devices/w25qxx.h:389-401 | a new driver has every ID and status field 0, a zeroed 128-byte scratch buffer, no pending assignment and nothing issued |
| Device.W25Qxx.Get | Drivers/Devices/w25qxx.h:368-382 | a field's getter returns a value that fits the field's width |
| Device.W25Qxx.BusyBit | Drivers/Devices/w25qxx.h:358 | the busy bit is SR1 & 0x01 |
| Device.W25Qxx.WelBit | Drivers/Devices/w25qxx.h:360 | the write-enable-latch bit is SR1 & 0x02 |
| Device.W25Qxx.QeBit | Drivers/Devices/w25qxx.h:362 | the quad-enable bit is SR2 & 0x02 |
| Device.W25Qxx.WpsBit | Drivers/Devices/w25qxx.h:364 | the write-protect-selection bit is SR3 & 0x04 |
| Device.W25Qxx.SusBit | Drivers/Devices/w25qxx.h:366 | the suspend bit is SR2 & 0x80 |
| Device.W25Qxx.SetCommMode | Drivers/Devices/w25qxx.h:356 | sets the mode and leaves the pending assignments alone |
| Device.W25Qxx.Command | Drivers/Devices/w25qxx.cpp:550-617 | each single-instruction operation (also writeEnable, the volatile write enable, writeDisable, global lock and unlock, reset enable and reset) succeeds and issues its opcode as a command-only transaction |
| Device.W25Qxx.AddressCommand | Drivers/Devices/w25qxx.cpp:505-548 | sector and block erases (and lock or unlock of a block) do no validation and issue the opcode with a one-line 3-byte address |
| Device.W25Qxx.EnquireBlockOrSectorLock | Drivers/Devices/w25qxx.cpp:859-873 | issues a receive with no data phase and never writes the caller's flag |
| Device.W25Qxx.Read | Drivers/Devices/w25qxx.cpp:254-411 | a null buffer or zero length returns INVALID with nothing issued; otherwise the read's phase table is received into the caller's buffer |
| Device.W25Qxx.Program | Drivers/Devices/w25qxx.cpp:455-503 | a null buffer or zero length returns INVALID with nothing issued; otherwise the data goes out on one line (page program) or four (quad input page program) |
| Device.W25Qxx.SetBurstWithWrap | Drivers/Devices/w25qxx.cpp:413-453 | sends the wrap byte as a 4-line alternate byte followed by 6 dummy cycles |
| Device.W25Qxx.WriteRegister | Drivers/Devices/w25qxx.cpp:187-222 | only SR1 to SR3 are accepted, anything else is INVALID with nothing issued; the byte goes out from a local copy |
| Device.W25Qxx.ReceiveIntoScratch | Drivers/Devices/w25qxx.cpp:155 | the bytes of a receive into `_pRxBuff` overwrite the start of the scratch buffer and leave the rest as it was |
| Device.W25Qxx.EnquireStatusRegisterAsync | Drivers/Devices/w25qxx.cpp:125-170 | only SR1 to SR3 are accepted, anything else is INVALID with no transaction, no assignment and the scratch buffer unchanged; otherwise the byte the flash sends overwrites the start of the scratch buffer and a one-byte assignment to that register is queued |
| Device.W25Qxx.EnquireAsync | Drivers/Devices/w25qxx.cpp:51-123 | each ID enquiry receives its phase table into the scratch buffer, whose first bytes become the bytes the flash sends, and then queues its assignments (JEDEC 1 and 2, device id 1, unique id 4, manufacturer/device 1 and 1, SFDP 2) |
| Device.W25Qxx.EraseSecurityRegister | Drivers/Devices/w25qxx.cpp:721-749 | only security registers are accepted; the erase goes to the register's address |
| Device.W25Qxx.ProgramSecurityRegister | Drivers/Devices/w25qxx.cpp:751-787 | the length must be exactly 0xFF, the buffer non-null and the register a security register; otherwise INVALID with nothing issued |
| Device.W25Qxx.ReadSecurityRegister | Drivers/Devices/w25qxx.cpp:789-825 | a null buffer or a status register is INVALID; the address is the register's address ORed with the byte offset, any length is accepted |
| Device.W25Qxx.AsyncWaitForFlag | Drivers/Devices/w25qxx.cpp:943-969 | only FREE is accepted; it polls SR1 with target 0, mask 1 and interval 2 |
| Device.W25Qxx.AsyncRxCallback | Drivers/Devices/w25qxx.cpp:931-941 | the fields end as the in-order resolution of the queued assignments against the scratch buffer, the queue is emptied and SUCCESS returned |
| Device.CallbackStep | Drivers/Devices/w25qxx.cpp:933-937 | one round of the callback loop leaves the resolution of the remaining assignments equal to the whole resolution |
| Device.ZeroBytes | Drivers/Devices/w25qxx.h:389-392 | all-zero bytes are the number 0 |
| Device.OneByte | Drivers/Devices/w25qxx.h:358-366 | a one-byte field's value is its byte |
| LfsAdapter.GeometryConsistent | Adapters/adapter-lfs.h:41-47 | a block is a whole number of program pages, the cache and read sizes divide them, and the flash holds 8 MiB |
| LfsAdapter.BlockAddress | Adapters/adapter-lfs.cpp:65 | for a block and offset inside the geometry, the `uint32_t` address does not wrap and lies inside the flash, so it fits the 3-byte address phase |
| LfsAdapter.PageMaskIsRemainder | Adapters/adapter-lfs.cpp:96 | masking with `LFS_PROG_SIZE - 1` is the remainder modulo 256 |
| LfsAdapter.PageOffset | Adapters/adapter-lfs.cpp:96 | the page offset is below 256 |
| LfsAdapter.ChunkLen | Adapters/adapter-lfs.cpp:96-101 | a chunk is non-empty, at most what is left and at most a page, ends within its page, and either takes all that is left or reaches the page end |
| LfsAdapter.ChunksCover | Adapters/adapter-lfs.cpp:95-128 | the chunk lengths sum to the size asked for |
| LfsAdapter.ChunksWithinPage | Adapters/adapter-lfs.cpp:95-128 | no chunk is empty and no chunk crosses a 256-byte page boundary |
| LfsAdapter.ChunksStart | Adapters/adapter-lfs.cpp:95-101 | the first chunk starts at the requested address |
| LfsAdapter.ChunksConsecutive | Adapters/adapter-lfs.cpp:95-128 | every later chunk starts where the previous one ended, at a page start |
| LfsAdapter.PageEnd | Adapters/adapter-lfs.cpp:125 | advancing to the end of a page lands on a page start, also when the address wraps |
| LfsAdapter.ReadOutcome | Adapters/adapter-lfs.cpp:60-77 | read returns 0 or LFS_ERR_IO, and 0 exactly when the buffer is non-null, the size truncated to 16 bits is non-zero and the receive wait succeeds |
| LfsAdapter.ReadInRange | Adapters/adapter-lfs.cpp:60-77 | a read inside one block issues one quad-output read of exactly that range into the buffer |
| LfsAdapter.Read64KiBRefused | Adapters/adapter-lfs.cpp:66 | a 64 KiB read becomes a zero-length read that the driver refuses: LFS_ERR_IO with nothing issued |
| LfsAdapter.PageTrace | Adapters/adapter-lfs.cpp:104-123 | one pass starts with a write enable and reaches the FREE poll exactly when the buffer is non-null and the transmit wait succeeds |
| LfsAdapter.ProgramOutcome | Adapters/adapter-lfs.cpp:78-131 | program returns 0 or LFS_ERR_IO |
| LfsAdapter.ProgramAllTaken | Adapters/adapter-lfs.cpp:95-131 | when every wait succeeds, program returns 0 after write enable, quad page program and FREE poll for each chunk, every chunk sent from the start of the caller's buffer |
| LfsAdapter.ProgramPass | Adapters/adapter-lfs.cpp:95-128 | one pass of the loop either ends program with LFS_ERR_IO after that chunk's transactions, or carries on from the next address with the rest of the trace |
| LfsAdapter.ProgramZeroOnlyIfAllTaken | Adapters/adapter-lfs.cpp:104-123 | program returns 0 only if the buffer is non-null (or nothing is written) and both waits of every chunk succeeded |
| LfsAdapter.ChunksUnfold | Adapters/adapter-lfs.cpp:95-128 | the chunks are the first chunk followed by the chunks from the next address |
| LfsAdapter.EraseAddressAligned | Adapters/adapter-lfs.cpp:138-142 | `block * 4096` in `uint32_t` is always a multiple of 4096, so the alignment check never fires |
| LfsAdapter.EraseOutcome | Adapters/adapter-lfs.cpp:133-168 | erase starts with a write enable and returns 0 exactly when both command waits and the flag wait succeed, otherwise LFS_ERR_IO |
| LfsAdapter.EraseInRange | Adapters/adapter-lfs.cpp:133-168 | erasing a block of the flash erases the 4 KiB sector at its start |
| LfsAdapter.Adapter.constructor | Adapters/adapter-lfs.cpp:47-51 | the static handles start null |
| LfsAdapter.Adapter.Config | Adapters/adapter-lfs.cpp:190-197 | stores the driver and the four semaphore handles; the handles queueCheck asserts are then set exactly when the arguments are non-null |
| LfsAdapter.Adapter.Read | Adapters/adapter-lfs.cpp:60-77 | returns and issues what ReadOutcome says |
| LfsAdapter.Adapter.ProgramPage | Adapters/adapter-lfs.cpp:104-123 | one loop pass issues PageTrace and succeeds exactly when the buffer is non-null and both waits succeed |
| LfsAdapter.Adapter.Program | Adapters/adapter-lfs.cpp:78-131 | the chunking loop returns and issues what ProgramOutcome says (size 0: returns 0 with nothing issued) |
| LfsAdapter.Adapter.Erase | Adapters/adapter-lfs.cpp:133-168 | returns and issues what EraseOutcome says |
| LfsAdapter.Adapter.Sync | Adapters/adapter-lfs.cpp:170-182 | issues the FREE poll and returns 0 exactly when the flag wait succeeds |
| Ring.RingWrite | Applications/Utils/ringBuffer.cpp:91-95 | writing round the ring keeps the storage size |
| Ring.RingRead | Applications/Utils/ringBuffer.cpp:161-164 | reading `len` bytes from a position round the ring gives `len` bytes |
| Ring.RingWriteStep | Applications/Utils/ringBuffer.cpp:91-95 | one more pass of the write loop writes the next byte at the next slot round the ring |
| Ring.RingWriteReadsBack | Applications/Utils/ringBuffer.cpp:91-95 | bytes written round the ring from the head read back, round the ring, as written |
| Ring.RingWriteOnlyWindow | Applications/Utils/ringBuffer.cpp:91-95 | a push changes only the `len` storage positions from the old head onwards, round the ring |
| Ring.PushAppendsUnread | Applications/Utils/ringBuffer.cpp:89-95 | writing at the end of the unread bytes appends the data to them when it fits |
| Ring.DropFront | Applications/Utils/ringBuffer.cpp:168-170 | advancing the tail by `k` drops the first `k` unread bytes and keeps the rest |
| Ring.HeadAfterPush | Applications/Utils/ringBuffer.cpp:93-94 | head == (tail + size) mod capacity still holds after head and size advance by `len` |
| Ring.HeadAfterConsume | Applications/Utils/ringBuffer.cpp:169-170 | head == (tail + size) mod capacity still holds after tail advances and size shrinks by `k` |
| Ring.PushKeepsConsistent | Applications/Utils/ringBuffer.cpp:89-95 | a push keeps the head at the end of the unread bytes and appends its data to them |
| Ring.ConsumeKeepsConsistent | Applications/Utils/ringBuffer.cpp:168-170 | consuming `k` unread bytes keeps the head at the end of the rest, which are the old unread bytes after the first `k` |
| Ring.PopRead | Applications/Utils/ringBuffer.cpp:149-154 | pop copies exactly `len` bytes |
| Ring.PopReadsBackPushed | Applications/Utils/ringBuffer.cpp:149-154 | a message that ends before the end of the storage is read back by pop exactly as push wrote it |
| Ring.PopMissesWrapped | Applications/Utils/ringBuffer.cpp:149-154 | a message that ran past the end of the storage is not: push put byte `capacity - offset` at position 0, but pop reads it from the memory just past the storage |
| Ring.RingBuffer.constructor | Applications/Utils/ringBuffer.cpp:49-55 | storage and capacity as given, head, tail and size 0, an empty queue, and the unread bytes consistent |
| Ring.RingBuffer.WriteAtHead | Applications/Utils/ringBuffer.cpp:91-95 | the storage is the ring write at the old head, head advances by `len` mod capacity, size by `len`, and the unread bytes gain the data |
| Ring.RingBuffer.Push | Applications/Utils/ringBuffer.cpp:57-103 | succeeds exactly when the mutex is taken and both the bytes and one more message fit; then the data is written at the old head, appended to the unread bytes, and a message with the old head and the length queued; otherwise nothing is written |
| Ring.RingBuffer.PushFromIsr | Applications/Utils/ringBuffer.cpp:105-136 | returns false with nothing written when the bytes do not fit; otherwise writes as push does, and queues a message with an unspecified offset if the queue has room |
| Ring.RingBuffer.Pop | Applications/Utils/ringBuffer.cpp:138-159 | succeeds exactly when the mutex is taken and a message is queued; then removes it, copies its bytes without wrap, advances the tail and shrinks the size by its length, sets `len` to its length minus one, and signals the writers |
| Ring.RingBuffer.CopyOut | Applications/Utils/ringBuffer.cpp:149-154 | the copy loop fills the first `msg.len` bytes of the destination with what pop reads, leaves the rest, advances tail and size per byte, and leaves `len` as the last index copied |
| Ring.RingBuffer.GetData | Applications/Utils/ringBuffer.cpp:161-166 | returns the byte at the tail, which is the oldest unread byte, and drops it from the unread bytes |
| Ring.RingBuffer.TailIncrease | Applications/Utils/ringBuffer.cpp:168-172 | advances the tail by `num` mod capacity, shrinks the size by `num` in `size_t`, drops `num` unread bytes and signals the writers |
| Ring.RingBuffer.GetSize | Applications/Utils/ringBuffer.h:70 | the size narrowed to `uint16_t` |
| Ring.RingBuffer.GetCapacity | Applications/Utils/ringBuffer.h:71 | the capacity narrowed to `uint16_t` |
| Ring.RingBuffer.GetBase | Applications/Utils/ringBuffer.h:72 | the storage given at construction |
| FsRequest.Ordinal | Applications/app-file.h:49-61 | each request kind's value is its place in the declaration |
| FsRequest.OrdinalOfDeclared | Applications/app-file.h:49-61 | the declaration lists every kind exactly once |
| FsRequest.LastZero | Applications/app-file.h:73-77 | the path length is below the bytes scanned, is the index of a zero byte when there is one, has no zero byte after it, and is 0 when there is none |
| FsRequest.PathLenNotFirstZero | Applications/app-file.h:73-77 | with two zero bytes in the first 255, the path length is at or after the second, so it is not the first terminator |
| FsRequest.ScanPathLen | Applications/app-file.h:73-77 | the constructor loop leaves the last zero index in the first 255 bytes, always below 255 |
| FsRequest.FromInt16 | Applications/app-file.h:109 | the `uint16_t` a caller passes for a signed code is congruent to it mod 65536 |
| FsRequest.ReturnCodeRoundTrip | Applications/app-file.h:109-110 | every signed return code survives setReturn and getReturn |
| FsRequest.ReturnCodeFromBits | Applications/app-file.h:109-110 | every `uint16_t` is the conversion of the code it is stored as |
| FsRequest.FsMsg.constructor | Applications/app-file.h:67-80 | opt, path, buffer and length stored as given, the path length as the scan computes it, return code 0 |
| FsRequest.FsMsg.WithoutBuffer | Applications/app-file.h:82-93 | opt and path stored as given, buffer null and length 0, the path length as the scan computes it, return code 0 |
| FsRequest.FsMsg.SetReturn | Applications/app-file.h:109 | the field holds the two's-complement narrowing of the argument; nothing else changes |

## Left out

- Hardware: the OSPI HAL calls (command, DMA transfer, auto-polling start) are recorded as a ghost trace of transactions, and their own results are not modelled, as the source ignores them. The busy-spin on `HAL_OSPI_STATE_BUSY_TX` in `autoPolling` (Drivers/Devices/w25qxx-comm-adpter.cpp:100-103) is a hang on hardware state and is not modelled.
- Device.W25Qxx.EnquireAsync and Device.W25Qxx.EnquireStatusRegisterAsync: the bytes the flash sends are a parameter `received`, written at the start of the scratch buffer when the receive is issued rather than when its transfer completes. Receives into caller buffers (`read`, `readSecurityRegister`) are recorded by their pointer only; the bytes they bring are not modelled.
- FreeRTOS: every semaphore take is a boolean parameter saying whether it succeeded within its timeout. Gives, task creation and the timeouts themselves are not modelled. The ring buffer's receive semaphore is a boolean field.
- Concurrency: the mutex of the ring buffer and interrupts pre-empting tasks are not modelled. Each operation runs to completion on its own.
- Ring.RingBuffer.Push: the wait loop for room is modelled for a single thread. Nothing else can free room while it waits, so it ends in failure after consuming a pending receive signal, and the mutex re-take after the loop cannot be reached. `xQueueSend` with `portMAX_DELAY` is taken to succeed once there is room.
- Ring.RingBuffer.Push: requires `size + len < 2^32`, so the `size_t` wrap of `_size + len` in the room check is not modelled.
- Ring.RingBuffer.PushFromIsr: requires `size + len < 2^32`, for the same reason.
- Ring.RingBuffer.constructor: requires nothing of the queue it is given, and starts it empty. `getMutex`, `getBinary` and the creation of the mutex and semaphore are not modelled.
- Ring.RingBuffer.Pop: requires the destination to hold the queued message, since the source writes past the caller's array otherwise. It also requires the destination not to be the ring's own storage. Memory past the end of the storage is an arbitrary function `beyond`.
- LfsAdapter.Adapter: the static members are gathered in one object. `queueCheck`'s `configASSERT`s, and the driver pointer every callback dereferences, become a precondition. So the `_waitForFlag == nullptr` check in `program` (Adapters/adapter-lfs.cpp:83-85) is dead in the model. The receive handle is not asserted and is not required.
- LfsAdapter.Adapter.Program: the `writeEnable` result checks (Adapters/adapter-lfs.cpp:105-107, 145-147) cannot fail, since a single-instruction command always succeeds. The pointer `p` is advanced but never read, as in the source. The `lfs_config` argument is unused and left out.
- LfsAdapter.Adapter.Read: a null receive semaphore handle is not modelled; whether the take succeeds is a parameter.
- Device.W25Qxx: the ID and status fields are a byte image, with the multi-byte fields little-endian as on the target. `getCommMode` and the communication handle are not modelled. The 8-bit device id is one byte wide, although its getter returns `uint16_t`.
- Device.W25Qxx.AsyncRxCallback: requires the queued lengths to total at most 128, the scratch buffer size. Every enquiry queues at most as many bytes as it receives (Device.EnquiryAssignmentsFit), but the queue is only cleared by the callback. The `uint8_t` running index therefore never wraps in the model.
- FsRequest.FsMsg.constructor: requires the 255 bytes at `path` to be readable, as the scan reads them whatever the string's length. They are passed as `bytes`.
- FsRequest.FsMsg.WithoutBuffer: requires the same 255 readable bytes.
- FsRequest.FsMsg: `waitForReply`, `finishReply`, the destructor and the reply semaphore `_cb` are FreeRTOS calls and are not modelled. The getters have no contract beyond returning their fields.
- `W25QxxRxOpt` is the datatype `Device.RxOpt`, whose fields are its getters. It names a field of the driver rather than holding a raw pointer.
- The file-system actor (`FileApp`), LittleFS itself, the console, shell and shell commands, the GPIO drivers and the CDC and OSPI transport files are not part of this model. Applications/app-file.cpp is not part of this model either.
