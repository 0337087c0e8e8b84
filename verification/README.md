# Verification of mcprog and mcremote

mcprog programs the flash memory of boards with Elvees Multicore processors, and mcremote
lets GDB debug them; both reach the processor through its JTAG port.  This project models
the code between GDB's socket, the firmware file and the configuration file on one side and
the pins of the JTAG port on the other, and proves that it does what it is for.

Neither the silicon nor the firmware of the adapters is part of the repository.  Each is a
small abstract machine here, and the C code is proved against it:

- `Serial`, `Jtag`: a device clocked bit by bit, and the TAP controller of section 6.1 of
  IEEE Std 1149.1-2001 with its register path;
- `Ftdi`: the serial engine of the FT2232, sections 3.4 and 3.5 of FTDI AN_108;
- `Chip`: a MIPS32 core (the instructions used are those of the MIPS32 Architecture For
  Programmers, Volume II, chapter 3), its memory, and the OnCD debug unit;
- `Flash`: a chip with the AMD command set, on a 32-bit bus or, behind the lane register, on
  an 8-bit one.

On top of them:

- `Scan`, `Decode`, `Mpsse`, `OncdPort`, `MpsseOncd`, `MpsseBlock` model adapter-mpsse.c: the
  compilation of a scan to engine commands, the decoding of what comes back, the output
  queue, OnCD transactions and block transfers;
- `Bitbang`, `BitbangOncd` model adapter-bitbang.c, which performs the same scans another way,
  and `BothAdapters` proves that they are the same; `Wire` gives the bytes that either sends;
- `Target`, `Debugger`, `Registers` model register and memory access to a stopped MC12 core, in which GP,
  FP and word 0 of CRAM are scratch (target.c);
- `Bus`, `TargetBlock`, `MpsseTarget`, `ElveesMem` are block transfers and byte access over a memory that is
  reached a word at a time (target.c, remote-elvees.c);
- `TargetFlash`, `FlashVerify` program, verify and repair flash (target.c, mcprog.c);
- `GdbHex`, `GdbMemory`, `GdbPacket`, `GdbFrames`, `GdbEscape`, `GdbAccepted`, `GdbBinary`,
  `GdbOverrun` are the packets of the GDB Remote Serial Protocol (sections E.1 and E.2 of
  "Debugging with GDB"), from the socket to the call of write_mem (gdbproxy.c);
  `GdbToMemory` takes a write on to the target's memory;
- `ImageFile`, `Crc`, `Breaks` are the SREC and Intel HEX readers, the CRC of
  remote-skeleton.c, and the two hardware breakpoints;
- `Conf` is the configuration parser, `ConfText`, `ConfSpaces`, `ConfReturns` and `ConfFaults` are
  what the files it reads mean.

`Words`, `Bits` and `Bytes` are the arithmetic of C on machine words.

State that the C code updates in place is state of a class here, with its loops and buffers;
each method is proved against a function on values, and the properties are lemmas about those
functions.  The main results are `Mpsse.Mpsse.Exchange` with `Scan.PacketRuns` and
`Decode.FixInverts` (a scan is compiled, run and decoded correctly),
`BothAdapters.AdaptersAgree` (the two adapters are interchangeable), `MpsseBlock.ReadBlock`
(the batched read refines the word loop), `Debugger.Debugger.Session` (debugging is
transparent), `ElveesMem.WriteMem`, `Flash.BlockProgrammed` with
`TargetFlash.ProgramBlock32`, `FlashVerify.Board.VerifyBlock`,
`GdbAccepted.AcceptedIsVouched`, `GdbBinary.BinaryBecomesHexExactly` and
`GdbOverrun.OverrunsExactly`,
`GdbToMemory.WriteThrough`, `ImageFile.FormatsAgree`, `ConfText.FileReads` with
`ConfReturns.CrlfFile`, `Crc.Checksum.Crc32` and `Breaks.Perform`.

Where the code departs from what its comments or the protocol promise, the model follows the
code, and a theorem says exactly when the promise is kept:

- target.c:558 says that PC, FP and GP are not written to the device at once; the code at
  target.c:563-567 writes GP and FP at once, and caches whatever is written to register 0.
  `Debugger.Debugger.WriteRegister`: the write is right if and only if it is `Honoured`.
- A debugger's write to word 0 of CRAM is overwritten on resuming (target.c:360):
  `Debugger.Debugger.PokeWord`.  A read of it shows what was last passed through the mailbox,
  after stopping FP (target.c:342, 721-725): `Debugger.Debugger.PeekWord`,
  `Debugger.MailboxMisread`.
- bitbang_send_recv counts the two status bytes of each USB packet as data
  (adapter-bitbang.c:219): `Bitbang.Bitbang.SendRecv` completes if and only if each time a
  single packet brings everything that is asked for (`Bitbang.WholeExactly`,
  `Bitbang.ShortPacketLoses`).
- rp_getpkt starts over on a `$` even behind an escape, and keeps that `$` as the first
  character (gdbproxy.c:1696-1763): `GdbBinary.BinaryBecomesHexExactly` and
  `GdbBinary.EscapedFourIsLost`.  A sequence id is part of a packet only when the third
  character is `:`, and that `:` is not in the checksum (gdbproxy.c:1770-1780):
  `GdbFrames.PlainRoundTripExactly`, `GdbAccepted.AcceptedIsVouched`.  So a frame that breaks off
  spoils the next one as well: `GdbFrames.InterruptedFrameSpoilsNext`.
- rp_getpkt checks the length of a packet in two of its states only (gdbproxy.c:1819, 1842):
  `GdbOverrun.OverrunsExactly`, `GdbOverrun.LongHeaderOverruns`.
- A base address of zero means "not chosen yet" (mcprog.c:183-186, 297-300):
  `ImageFile.BaseIsFirst`, `ImageFile.BaseIsSecond`.  The checksums of S records, for which the
  repository's README recommends the format, are ignored: `ImageFile.SrecLoads` holds for any checksums.
- read_hex lets the last digit of a checksum be missing, and takes the line end for it
  (mcprog.c:259): `ImageFile.NewlineAsDigit`, `ImageFile.ShortHexWrong`.
- Addresses from 0xc0000000 up are mapped by the core, but not by the debugger
  (target.c:629-632, 690-693): `Registers.PhysIsTranslate`.
- The word loop of target.c translates addresses that the adapters' block functions take as
  they are: `TargetBlock.SameWrites`.  A request that crosses a segment boundary is a run of
  virtual but not of physical addresses: `ElveesMem.SegmentsAreRuns`.
- Adding a second breakpoint, or moving one up, drops OBCR_ANY (target.c:1902-1903,
  1936-1937): `Breaks.TwoNeedBoth`.
- The fourth rewrite of a flash word is made but never counts (mcprog.c:423):
  `FlashVerify.Board.Mend`.
- Names are normalised and values trimmed, except around a continuation.  A continued value may
  keep whitespace at its end (conf.c:152): `ConfSpaces.TrailingSpaceExactly`,
  `ConfSpaces.EndKept`.  It may start with whitespace, because that behind the sign is skipped up
  to a continuation only (conf.c:129): `ConfSpaces.LeadingSpaceExactly`, `ConfSpaces.FrontKept`.
  So may a section name that is continued right behind its bracket (conf.c:204-221):
  `ConfText.HeadSpaceExactly`, `ConfSpaces.SectionFrontKept`.

Methods that model a step of a queue or of a device take the abstract device as a ghost
argument and return what it has become; nothing executable depends on it.

`dafny verify dfyconfig.toml` checks the whole project.

## Model

| member | source | states |
|---|---|---|
| Ftdi.ParseSerialized | adapter-mpsse.c:239-316 | the engine recovers exactly the commands that were compiled from their bytes, whatever the commands |
| Scan.PacketSize | adapter-mpsse.c:233-327 | a compiled scan takes at most 23 bytes, for every prolog, bit count and direction |
| Scan.PacketRuns | adapter-mpsse.c:218-327 | for every prolog of at most 11 bits and 1 to 64 data bits, on any device: the engine clocks the prolog, 1, 0, 0, the data bits low bit first with TMS low, the last one with TMS high and one more TMS high; a read returns every data bit in the places `Returns` names, a write returns nothing |
| Scan.PrologOnly | adapter-mpsse.c:239-253 | a scan without data of up to 14 TMS bits gives exactly its own clocks |
| Scan.WholeRuns | adapter-mpsse.c:271-284 | whole bytes clock their bits in order and return what was read in the same packing, by induction over any number of bytes |
| Scan.TailRuns | adapter-mpsse.c:285-296 | a partial byte of k bits comes back in the top k bits of a byte, over arbitrary stale ones |
| Decode.FixInverts | adapter-mpsse.c:329-348 | for every scan of 1 to 57 bits, every reply the engine can give for it and any bytes behind that reply, the decoded number is the bits read, zero above them |
| Mpsse.Mpsse.Send | adapter-mpsse.c:218-327 | the stream of bytes ever queued grows by exactly this packet, the engine ahead of the queue behaves as if the packet had been delivered, the 4096-byte buffer is never exceeded, and the decode masks and the count of awaited bytes become those of this scan |
| Mpsse.Mpsse.PutPacket | adapter-mpsse.c:238-327 | the byte-by-byte loops store exactly the serialised commands of the scan |
| Mpsse.Mpsse.NoteMasks | adapter-mpsse.c:260-319 | masks and bytes per word are those of the scan: a read sets all of them, a write that ends in a partial byte moves the byte mask and nothing else |
| Mpsse.Mpsse.MakeRoom | adapter-mpsse.c:233-236 | the queue is flushed exactly when 23 more bytes might not fit |
| Mpsse.Mpsse.Flush | adapter-mpsse.c:168-216 | what has been delivered is then all that was ever queued, in order, and the input buffer starts with every byte the engine returned, in however many USB packets they came |
| Mpsse.Mpsse.Collect | adapter-mpsse.c:181-215 | the reading loop ends with exactly the awaited bytes, status bytes removed |
| Mpsse.Mpsse.BulkRead | adapter-mpsse.c:184-206 | one USB packet brings a nonempty piece of the bytes pending, and the rest stay pending in order |
| Mpsse.Mpsse.Recv | adapter-mpsse.c:350-360 | the first eight bytes behind a flush, decoded by the current masks |
| Mpsse.Mpsse.Exchange | adapter-mpsse.c:218-360 | compile, deliver and decode together: the device sees the clocks of the scan and the number returned is the bits it answered on the data clocks |
| Mpsse.PacketReply | adapter-mpsse.c:262-315 | the engine returns exactly as many bytes for a scan as the host waits for |
| Jtag.ScanRuns | adapter-bitbang.c:244-306 | from Run-Test/Idle, Update-DR or Update-IR, any clocks of the shape entry, data, leave perform exactly one register scan and park the controller again |
| Jtag.ScanReads | adapter-bitbang.c:244-306 | the data clocks of that sequence read exactly the bits the selected register shifts out |
| Jtag.ToShiftDR | adapter-bitbang.c:285-287 | 1, 0, 0 leads from every parking state to Shift-DR with an empty path |
| Jtag.ToShiftIR | adapter-bitbang.c:248-251 | 1, 1, 0, 0 leads from every parking state to Shift-IR with an empty path |
| Jtag.ResetReachesIdle | adapter-bitbang.c:316-322 | five clocks with TMS high and one with TMS low reach Run-Test/Idle from each of the 16 states |
| Jtag.ResetSelectsIdcode | adapter-mpsse.c:421-432 | the same clocks leave the identification register selected, whatever was being shifted |
| Jtag.TapColumns | adapter-bitbang.c:244-306 | the two columns of figure 6-1 of the standard, pauses included |
| OncdPort.DataPacket | adapter-mpsse.c:218-327 | the clocks of an FT2232 packet are one data scan, so that both adapters perform the same operation |
| OncdPort.InstructionPacket | adapter-mpsse.c:437-445 | with one more TMS high in front they are one instruction scan |
| OncdPort.IdcodePacket | adapter-mpsse.c:421-432 | with the reset in front they read the identification register from any state of the port |
| OncdPort.TransactionBits | adapter-mpsse.c:472-498 | the number sent, register or-ed with the value shifted left by nine, holds the nine command bits first and the data bits behind them |
| OncdPort.CommandWrites | adapter-mpsse.c:472-498 | a scan of those bits is one OnCD write of that value to that register |
| OncdPort.CommandReads | adapter-mpsse.c:450-467 | after nine command bits a read scan yields the named register, least significant bit first |
| Wire.TransactionBytes | adapter-mpsse.c:218-327 | the 14 bytes of every 41-bit transaction, in numbers: the commands, and `reg | value << 9` low byte first |
| Wire.KnownTransactions | adapter-mpsse.c:450-498 | two of them: an address to OMAR, and OSCR read |
| Wire.IdcodeBytes | adapter-mpsse.c:421-432 | the bytes that reset the port and read 31 of the bits of its identification |
| Wire.SampleByte | adapter-bitbang.c:42-58 | the bits of a sample; neither reset is ever active |
| Wire.LevelByte | adapter-bitbang.c:42-58 | the bit of an answer |
| MpsseOncd.DataPacketRuns | adapter-mpsse.c:218-327 | what the engine does with a packet, seen by the target: one data scan, and the bits it reads |
| MpsseOncd.TransactionRuns | adapter-mpsse.c:450-498 | what the engine does with a transaction, seen by the target: one OnCD write, for reads and for writes |
| MpsseOncd.GetIdcode | adapter-mpsse.c:421-432 | from any state of the port the low 32 bits of its identification code are returned and the port is parked |
| MpsseOncd.CpuStopped | adapter-mpsse.c:437-445 | selects the debug unit, changes nothing in the core, and answers status bit 2 |
| MpsseOncd.OncdWrite | adapter-mpsse.c:472-498 | the target performs exactly this write; a transfer of whole bytes leaves the decode masks alone |
| MpsseOncd.OncdRead | adapter-mpsse.c:450-467 | the value is the low reglen bits of the register as it was |
| MpsseOncd.QueueRead | adapter-mpsse.c:450-467 | a read queued behind others: its answer is appended to those awaited |
| MpsseOncd.Deliver | adapter-mpsse.c:168-216 | after a flush the input buffer starts with all the answers awaited |
| MpsseOncd.Recv | adapter-mpsse.c:350-360 | the one answer awaited is decoded to the register it came from |
| MpsseOncd.AnswerDecodes | adapter-mpsse.c:329-360 | an answer decodes to its register at whatever offset it lies in the buffer and whatever follows it |
| MpsseBlock.Allow | adapter-mpsse.c:533-538 | OSCR is written only when needed, and afterwards memory cycles go in the wanted direction |
| MpsseBlock.FetchNext | adapter-mpsse.c:546-548 | one word of a batch: the memory cycle takes place and its answer is appended |
| MpsseBlock.QueueBatch | adapter-mpsse.c:541-549 | a batch of at most 10 words fits the output buffer and the 64-byte input buffer, nothing is flushed inside it, and the masks stay those of the 41-bit read |
| MpsseBlock.DecodeBatch | adapter-mpsse.c:554-560 | answers six bytes apart are decoded to the words they came from |
| MpsseBlock.ReadBatch | adapter-mpsse.c:541-564 | a batch puts the words of memory in the caller's array and changes only the debug unit's own registers |
| MpsseBlock.ReadBlock | adapter-mpsse.c:527-565 | for every nwords and address the array receives the words a loop reading one word at a time returns, and no other element changes |
| MpsseBlock.StoreNext | adapter-mpsse.c:578-580 | one write cycle reaches memory and the bus; no answer is awaited that was not before |
| MpsseBlock.WriteBlock | adapter-mpsse.c:567-584 | the bus sees the words of the array at consecutive addresses, in order, and nothing else; no answer is awaited that was not before, so a read may follow |
| MpsseBlock.WriteNwords | adapter-mpsse.c:586-602 | the bus sees each word at the address given with it, in order; no answer is awaited that was not before |
| MpsseBlock.ProgramNextWord | adapter-mpsse.c:617-634 | the four writes that program one word, in order; no answer is awaited that was not before |
| MpsseBlock.ProgramBlock32 | adapter-mpsse.c:604-636 | the bus sees the programming sequence of every word of the block; no answer is awaited that was not before |
| MpsseTarget.ReadBlock | target.c:1487-1514 | target_read_block on the FT2232, down to the clocks: the array receives the words of memory from the translated address up, in however many chunks |
| MpsseTarget.WriteBlock | target.c:1516-1541 | target_write_block on the FT2232, down to the clocks: the bus sees exactly the words of the block |
| MpsseTarget.ProgramBlock32 | target.c:1591-1607 | target_program_block32 on the FT2232, down to the clocks: the bus sees exactly the programming sequence of the block |
| MpsseTarget.ProgramBlock8 | target.c:1543-1589 | target_program_block8 on the FT2232, down to the clocks: the bus sees exactly the writes of `Flash.Block8Programmed`, none of them translated |
| Bitbang.SamplesRun | adapter-bitbang.c:104-144 | two samples per clock run exactly the clocks they stand for, and every second answer is what that clock reads |
| Bitbang.ScanDriven | adapter-bitbang.c:244-306 | the samples of a scan behind any clocks already queued perform that scan, and the answers read back are its bits |
| Bitbang.Bitbang.Write | adapter-bitbang.c:104-119 | one sample is appended to the buffer |
| Bitbang.Bitbang.Step | adapter-bitbang.c:140-144 | one clock with TDI high is appended as two samples |
| Bitbang.Bitbang.Cycle | adapter-bitbang.c:299-300 | one clock of a scan is appended as two samples |
| Bitbang.Bitbang.Receive | adapter-bitbang.c:201-222 | gets everything that was asked for if and only if the next packet that brings anything brings it all, because the two status bytes are counted as data; what has come is in place and in order |
| Bitbang.Bitbang.SendRecv | adapter-bitbang.c:152-227 | for every sequence of packet sizes to come: completes if and only if, 62 answers at a time, a single packet brings everything asked for (otherwise the program waits forever, or exits when no more packets come); then every sample has been driven, the buffer holds the answer to each, and the packets used are gone |
| Bitbang.WholeExactly | adapter-bitbang.c:166-225 | without empty packets that means: packet i brings at least 62 answers, or all that are left behind the first 62*i |
| Bitbang.ShortPacketLoses | adapter-bitbang.c:211-225 | one short packet anywhere and the exchange never completes |
| Bitbang.FullPacketsSuffice | adapter-bitbang.c:166-225 | full packets, and enough of them, always complete it |
| Bitbang.Bitbang.ReadReplies | adapter-bitbang.c:199-224 | one round keeps the account of what has to come for the exchange to complete |
| Bitbang.Bitbang.ShiftBits | adapter-bitbang.c:289-301 | the mask-and-counter loop queues exactly the data bits, a new byte every eight, the last with TMS high |
| Bitbang.Bitbang.ShiftInstr | adapter-bitbang.c:253-261 | the same for an instruction |
| Bitbang.Bitbang.BitRead | adapter-bitbang.c:124-135 | the answers from a sample on replace the low bits of the data and leave the others |
| Bitbang.Bitbang.Finish | adapter-bitbang.c:302-306 | completes exactly when the packets for these samples are whole; then the port has performed the scan and the bits read are delivered |
| Bitbang.Bitbang.TapData | adapter-bitbang.c:279-306 | one data scan of n bits, the same operation on the port as the FT2232 packet; completes exactly when the packets for 2n+9 samples behind those queued are whole |
| Bitbang.Bitbang.TapInstr | adapter-bitbang.c:244-266 | one instruction scan of n bits, the same operation on the port, and the status bits returned; completes exactly when the packets for 2n+11 samples behind those queued are whole |
| BitbangOncd.OncdWrite | adapter-bitbang.c:390-416 | completes exactly when the packets for its samples are whole, and then the target has performed exactly this OnCD write, as through the FT2232 |
| BitbangOncd.OncdRead | adapter-bitbang.c:365-385 | completes exactly when the packets for its samples are whole, and then the value is the low reglen bits of the register, as through the FT2232 |
| BitbangOncd.GetIdcode | adapter-bitbang.c:311-328 | completes exactly when the packets for both scans are whole, and then returns the identification code from any state of the port |
| BitbangOncd.CpuStopped | adapter-bitbang.c:333-340 | completes exactly when the packets for its samples are whole, and then has selected the debug unit and answers status bit 2 |
| BothAdapters.EngineScans | adapter-mpsse.c:218-327 | any run of scans, as FT2232 commands: the port ends as if each scan were one operation, parked, and the reply carries what each of them read, one answer after the other |
| BothAdapters.PinsScan | adapter-bitbang.c:104-306 | any run of scans, as pin samples: the port ends as if each scan were one operation, and the bits bitbang_read extracts are what each of them read |
| BothAdapters.AdaptersAgree | adapter-bitbang.c:244-306 | for every run of instruction and data scans from a parking state, both adapters leave the target in the same state and bring back the same bits |
| Target.TripleLoads | target.c:215-225 | ADDI, SLL, ORI load any 32-bit value into any register, sign extension and hard-wired register 0 included |
| Target.Exec | target.c:152-162 | exactly one supplied instruction completes |
| Target.ReadStart | target.c:676-684 | memory cycles read from now on, and only OSCR has changed |
| Target.ReadNext | target.c:686-719 | the word at the translated address, with only the debug unit's registers changed |
| Target.ReadWord | target.c:721-725 | the same, whatever direction was selected before |
| Target.WriteNext | target.c:625-656 | one word written at the translated address, and one write on the bus |
| Target.WriteWord | target.c:658-671 | the same, whatever direction was selected before |
| Target.ReadReg | target.c:195-206 | the register is stored through GP and the answer is what the mailbox word then holds; no register changes |
| Target.WriteReg | target.c:211-225 | exactly that register changes |
| Target.ReadCp0 | target.c:230-240 | FP is overwritten, the mailbox receives the register, nothing else changes |
| Target.WriteCp0 | target.c:245-255 | FP and exactly that CP0 register change |
| Target.ReadFpu | target.c:397-408 | the mailbox receives the FPU register; no register of the core changes |
| Target.WriteFpu | target.c:413-423 | FP and exactly that FPU register change |
| Target.ReadFpuCtl | target.c:428-438 | FP is overwritten, the mailbox receives the control register |
| Target.WriteFpuCtl | target.c:443-453 | FP and exactly that control register change |
| Target.ReadHiLo | target.c:482-514 | FP is overwritten, the mailbox receives HI or LO |
| Target.WriteHiLo | target.c:573-596 | FP and exactly HI or LO change |
| Debugger.MailboxDelivers | target.c:195-206 | a base register carries every value to the mailbox and disturbs no other word if and only if it addresses word 0 of CRAM |
| Debugger.ScratchInvisible | target.c:325-344 | what the user sees does not depend on the hardware contents of GP and FP |
| Debugger.ScratchUse | target.c:230-255 | using FP as scratch and the mailbox word changes nothing the user sees |
| Debugger.MailboxInvisible | target.c:325-361 | putting the saved word back makes every use of the mailbox invisible |
| Debugger.Debugger.DrainPipeline | target.c:286-304 | the first exception among the instructions in flight is found, and the pipeline is empty afterwards |
| Debugger.Debugger.SaveState | target.c:260-345 | stopping establishes the invariant (every valid cached register equals the hardware, GP, FP and the mailbox word are saved), the machine shown is the machine that was stopped, and the mailbox now holds FP |
| Debugger.Debugger.RestoreState | target.c:350-392 | resuming puts exactly the machine shown back into the hardware: registers, HI/LO, CP0, FPU, all memory and the resume address |
| Debugger.Debugger.ReadRegister | target.c:468-553 | whatever was accessed before, a read returns the register of the machine shown and changes nothing in it |
| Debugger.Debugger.WriteRegister | target.c:560-620 | the invariant is kept and exactly that register changes if and only if the write is `Honoured`: a new GP must address the mailbox, register 0 may only be given 0, and a PC equal to the NO_EXCEPTION marker is taken for no write |
| Debugger.Debugger.PeekWord | target.c:721-725 | a memory read returns the word the hardware holds; that is the word of the machine shown if and only if it is not the mailbox word or the mailbox holds what was saved from it |
| Debugger.Debugger.PokeWord | target.c:658-671 | a memory write changes exactly that word; a write to the mailbox word is lost |
| Debugger.Debugger.Serve | target.c:468-725 | one request acts as on the machine shown, and answers as it does unless it reads the mailbox word |
| Debugger.Debugger.Session | target.c:260-725 | stop, any sequence of requests whose register writes are honoured, resume: every answer but those of the mailbox word is that of the stopped machine with the writes so far, and what resumes is the stopped machine with just the requested writes applied, those to the mailbox word lost |
| Debugger.MailboxMisread | target.c:342-344 | an input that misreads: stop a core whose FP is 1 and whose word at 0xb8000000 is 0, and read that word: the answer is 1 |
| Registers.ReadOverWrite | target.c:455-620 | a register written reads back what was written, and every other register as before; 0, 35, 71 and numbers above cannot be written |
| Registers.LowAndHigh | target.c:485-511 | registers 33 and 34 are what MTLO and MTHI write and MFLO and MFHI read |
| Registers.Coprocessor0 | target.c:478-525 | registers 32, 35 and 36 are registers 12, 8 and 13 of coprocessor 0, as MTC0 writes and MFC0 reads them |
| Registers.FloatingPoint | target.c:532-552 | registers 38 to 69 are those of the FPU, 70 and 71 its control registers 31 and 0 |
| Registers.General | target.c:471-476 | registers 0 to 31 are the general registers |
| Registers.JumpsTo | target.c:527-530 | register 37 is where the core goes on |
| Registers.ResumePoint | target.c:195-300 | that is the first exception pending, or else the instruction being decoded |
| Registers.AnswersAfter | target.c:455-776 | what a session answers to a read after a write of a register or a word |
| Registers.RunMeans | target.c:455-776 | requests are applied in order, and reads change nothing |
| Registers.ShownAlike | target.c:455-620 | what is shown to be the same machine has the same registers and memory |
| Registers.KnownMoves | mips.h:20-54 | machine words of MFLO, MFHI, MTLO and MTHI as an assembler gives them |
| Registers.KnownCp0Moves | mips.h:20-54 | and of MFC0 and MTC0 |
| Registers.KnownFpuMoves | mips.h:20-54 | and of CFC1, CTC1 and MTC1 |
| Registers.KnownStores | mips.h:20-54 | and of SW, SWC1 and LUI |
| Registers.KnownLoads | mips.h:20-54 | and of ADDI, SLL, ORI and JR |
| Registers.UnitWrites | oncd.h:31-49 | what a write to each register number of the debug unit does |
| Registers.UnitReads | oncd.h:31-49 | and what a read of each gives |
| Registers.MemoryCycles | oncd.h:52-67 | OSCR steers a memory cycle by its low two bits |
| Registers.PhysIsTranslate | target.c:625-633 | the debug unit and the core mean the same word by an address if and only if it is below 0xc0000000 |
| Registers.StoredIsFound | target.c:625-656 | a word that the core stores is found by the debugger at the same address, and no other has changed |
| Registers.MailboxAddresses | target.c:336-343 | three addresses, and no others, are word 0 of CRAM |
| Registers.PeekAfterStore | target.c:721-725 | reading a word gives what the core stored at that address |
| Chip.StoreCycle | target.c:637-639 | address, data and memory command in that order are one write cycle |
| Chip.FetchCycle | target.c:695-714 | address and memory command are one fetch, and the data register then holds the word |
| Bus.BlockLands | target.c:1516-1541 | of a block no longer than the address space every word lands at its address and no other word changes |
| Bus.BlockReadAt | target.c:1487-1514 | word i of a block read is the word at the address 4*i further on |
| Bus.BlockReadAppend | target.c:1487-1514 | cutting a block read into chunks changes nothing |
| Bus.BlockAppend | target.c:1516-1541 | cutting a block write into chunks changes nothing |
| Bus.ProgramAppend | target.c:1591-1617 | cutting a programming sequence into chunks changes nothing |
| TargetBlock.ReadBlock | target.c:1487-1514 | for any chunk size the array holds the words of memory from the translated address up; without block functions in the adapter each word comes from its address translated once more, which is the same below 0x80000000 |
| TargetBlock.WriteBlock | target.c:1516-1541 | the bus sees the words of the block, for any chunk size; without block functions in the adapter each address is translated once more, which is the same below 0x80000000, and a block of no words still writes one |
| ElveesMem.SegmentsAreRuns | remote-elvees.c:467-637 | consecutive addresses are consecutive in physical memory if and only if they lie in one segment |
| Bytes.BytesShifted | remote-elvees.c:462-637 | byte k of a word is the word shifted right by 8k: little-endian, as the host stores it |
| Words.AndBits | target.c:690-776 | the bitwise operations on words, bit by bit |
| Words.OrBits | target.c:558-620 | and `|` |
| Words.SingleBits | target.c:625-656 | and the test, setting and clearing of one bit |
| ElveesMem.ReadHead | remote-elvees.c:493-523 | the bytes before the first word boundary |
| ElveesMem.ReadWords | remote-elvees.c:524-533 | the bytes of whole words |
| ElveesMem.ReadTail | remote-elvees.c:534-537 | the bytes of a last partial word |
| ElveesMem.ReadAligned | remote-elvees.c:524-537 | the bytes from a word boundary on |
| ElveesMem.ReadMem | remote-elvees.c:467-538 | for all alignments and sizes in one segment the buffer holds exactly the requested bytes; past the last address the request is cut short, beyond it refused |
| ElveesMem.WriteHead | remote-elvees.c:579-620 | only the bytes before the word boundary change |
| ElveesMem.WriteWords | remote-elvees.c:621-630 | only the bytes of the whole words change |
| ElveesMem.WriteTail | remote-elvees.c:631-636 | only the bytes of the last partial word change |
| ElveesMem.WriteAligned | remote-elvees.c:621-636 | only the bytes from a word boundary on change |
| ElveesMem.Compose | remote-elvees.c:584-613 | a patched word has the new bytes where they belong and the old ones elsewhere |
| ElveesMem.WriteMem | remote-elvees.c:544-637 | for all alignments and sizes in one segment exactly the bytes from address on change, and every other byte of memory is as before; a request past the last address is refused and changes nothing |
| ElveesMem.ReadAfterWrite | remote-elvees.c:467-637 | reading back what was just written returns the buffer |
| Flash.WordProgrammed | target.c:1610-1614 | the four writes leave the chip in read mode with exactly that word replaced by old & new |
| Flash.BlockProgrammed | target.c:1591-1617 | a block leaves each addressed word as old & data, all others unchanged, and the chip back in read mode |
| Flash.ByteSeen | target.c:749-759 | through the lane register an 8-bit chip sees one write of the low byte to exactly that address |
| Flash.TwoSeen | target.c:761-776 | two such writes |
| Flash.Unlocks | target.c:1550-1552 | the unlock sequence of an 8-bit chip enters bypass mode and changes no byte |
| Flash.BytesProgrammed | target.c:1553-1563 | in bypass mode every addressed byte becomes old & data and no other changes |
| Flash.Block8Programmed | target.c:1543-1589 | a block on an 8-bit bus: byte i of the block becomes old & byte i%4 of word i/4, all others unchanged, and the chip is back in read mode |
| Flash.KnownProgramming | target.c:955-968 | the four writes for one word on two 16-bit chips, in numbers |
| Flash.KnownUnlock | target.c:1041-1057 | the six writes that unlock one 8-bit chip, in numbers |
| Flash.KnownByte | target.c:761-776 | and the four that program a byte |
| TargetBlock.SameWrites | target.c:625-656 | the word loop, which translates addresses, and the adapter's block function, which does not, issue the same writes if and only if all addresses are physical |
| TargetFlash.ReachIsPhysical | target.c:1591-1617 | when the command addresses and the block lie in physical memory none of the sequence is translated |
| TargetFlash.WriteNwords | target.c:727-747 | the bus sees the writes in order, as they are through an adapter with a function for them, and with addresses translated through the loop |
| TargetFlash.WriteByte | target.c:749-759 | the lane and the byte, in either of those ways, and nothing else |
| TargetFlash.Write2Bytes | target.c:761-776 | two lanes and two bytes, in order, in either of those ways |
| TargetFlash.ProgramBlock32 | target.c:1591-1617 | the bus writes of the programming sequence through the adapter and for any program_block_words, and the same with addresses translated through the word loop; the same writes either way when all lies in physical memory |
| TargetFlash.ProgramBlock8 | target.c:1543-1589 | the bus writes of `Flash.Block8Programmed` for every block: exactly those through an adapter with a function for them or when all lies in physical memory, otherwise with addresses translated |
| FlashVerify.AttemptMends | target.c:1452-1482 | a rewrite programs the lowest differing byte; one wrong byte less when it can be cleared, and no other byte touched |
| FlashVerify.WordIsBytes | target.c:1448-1468 | on an 8-bit bus a word of the core is four bytes, low byte first |
| FlashVerify.MendsByte | mcprog.c:409-428 | on an 8-bit bus the retry loop succeeds if and only if at most that many bytes differ and every one of them only needs bits cleared |
| FlashVerify.MendsWord | mcprog.c:409-428 | on a 32-bit bus the retry loop succeeds if and only if the whole word only needs bits cleared |
| FlashVerify.Board.BadByte | target.c:1453-1460 | the shifting loop finds the lowest differing byte and its value |
| FlashVerify.Board.ProgramByte | target.c:1463-1468 | exactly that byte becomes old & new and the chip answers reads again |
| FlashVerify.Board.Rewrite | target.c:1435-1485 | performs one attempt and touches nothing else; refuses, changing nothing, exactly on a 32-bit chip with a delay |
| FlashVerify.Board.Mend | mcprog.c:405-428 | succeeds exactly when three attempts suffice, then the word equals the file; at most four rewrites are spent, and on an 8-bit bus a success costs exactly one rewrite for every wrong byte |
| FlashVerify.Board.VerifyBlock | mcprog.c:392-430 | returns normally if and only if every word can be mended, then every word of the block equals the file image; the number of rewrites is bounded, and no byte outside the block changes |
| GdbHex.DecodeInvertsHex | gdbproxy.c:2015-2261 | decoding inverts encoding, for every data |
| GdbHex.HexDecodes | gdbproxy.c:2015-2055 | the same within the size of the buffer |
| GdbHex.DecodeData | gdbproxy.c:2015-2055 | the loop decodes exactly what `Decoded` says: pairs of digits, a last odd character dropped unless it is the only one, failure on anything else or when the buffer is too small |
| GdbHex.NumberReads | gdbproxy.c:2589-2620 | a run of digits followed by the terminator is read whole |
| GdbHex.DecodeUint | gdbproxy.c:2555-2620 | the shifting loop computes the value and the rest of the text, or fails, as `Number` says |
| GdbHex.NibbleIs | gdbproxy.c:2470-2486 | a character is a digit n if and only if it is that hexadecimal digit in either case |
| GdbHex.RenderReads | gdbproxy.c:2555-2620 | every number, written in hexadecimal, is read as that number |
| GdbHex.NumberMeans | gdbproxy.c:2555-2620 | whatever is read is a run of digits with that value, within its limit, and its terminator |
| GdbHex.TooManyDigits | gdbproxy.c:2555-2620 | more digits than allowed are refused |
| GdbHex.DecodedMeans | gdbproxy.c:2015-2055 | data are decoded if and only if all digits of whole pairs are digits and fit; byte k is digits 2k and 2k + 1 |
| GdbMemory.DecodeMem | gdbproxy.c:2079-2093 | address and length, each within its number of digits |
| GdbMemory.HexPacketWrites | gdbproxy.c:459-496 | every rendering of an address and of the length of the data as an M packet asks for exactly that write |
| GdbMemory.HexPacketIsString | gdbproxy.c:459-496 | such a packet holds no NUL, so the whole of it is the C string |
| GdbMemory.HandleWriteMemory | gdbproxy.c:459-496 | the call of write_mem that is made, or the error answer, for every packet, taken as a C string that ends at the first NUL |
| GdbMemory.RequestMeans | gdbproxy.c:459-496 | whatever asks for a write is of the form `Maddr,len:data`, with that address and data of that length |
| GdbMemory.RangeMeans | gdbproxy.c:2079-2093 | whatever is read as address and length is two runs of at most 16 and 8 digits with a comma between |
| GdbMemory.KnownRequest | gdbproxy.c:459-496 | `M1A,2:0fF0` asks for the bytes 0f and f0 at 26 |
| GdbPacket.GetPacket | gdbproxy.c:1654-1931 | the in-place receiver computes the outcome of the state machine on any input: the packet in the buffer, NUL-terminated, the acknowledgement with its sequence id, and the input left |
| GdbPacket.TextChar | gdbproxy.c:1751-1839 | one character in the text states; it is stored outside the buffer exactly when the state machine says so |
| GdbPacket.BinaryChar | gdbproxy.c:1840-1876 | one character of escaped data becomes two digits in the buffer |
| GdbPacket.CheckChar | gdbproxy.c:1877-1926 | one digit of the checksum, and the comparison after the second |
| GdbFrames.BuildFrame | gdbproxy.c:1576-1614 | the frame is `$`, the payload up to its first NUL, `#` and the two digits of the sum; a longer string than the buffer takes fails an assertion |
| GdbFrames.PlainRoundTrip | gdbproxy.c:1594-1931 | after any junk the receiver returns exactly the framed payload and leaves what follows |
| GdbFrames.PlainRoundTripExactly | gdbproxy.c:1654-1931 | a payload without `$` behind its first character and without `#` comes back if and only if its third character is not `:` and it is not an X packet of more than three characters |
| GdbFrames.LoneCharacters | gdbproxy.c:1721-1744 | `+`, `-` and character 3 outside a packet, behind any junk, are an acknowledgement, a refusal and an interrupt |
| GdbFrames.AcknowledgementArrives | gdbproxy.c:1891-1915 | what is sent for any packet is received as an acknowledgement |
| GdbFrames.FrameAcknowledged | gdbproxy.c:1576-1644 | a frame is answered by the receiver with what its sender takes for an acknowledgement |
| GdbFrames.DamagedFrameRecovers | gdbproxy.c:1877-1926 | a frame with wrong or no digits is dropped and the next frame is received |
| GdbFrames.InterruptedFrameSpoilsNext | gdbproxy.c:1696-1707 | a frame that breaks off spoils the next one, whose `$` is counted in, and the one after that is received |
| GdbFrames.TaggedRoundTrip | gdbproxy.c:1751-1787 | a frame with a sequence id comes back without it; the id counts in the sum and its `:` does not |
| GdbFrames.KnownFrame | gdbproxy.c:1576-1614 | `OK` goes out as `$OK#9a` |
| GdbAccepted.AcceptedIsVouched | gdbproxy.c:1654-1931 | no packet is returned unless the characters taken end in a frame: it begins behind the last `$` (or with it, when that came in the middle of another frame), then the sequence id and `:` if there is one, the text, what found no room, `#`, and the two digits of the sum of sequence id and text; and the packet is that text, with binary data shown in hexadecimal |
| GdbAccepted.OneFrameIsVouched | gdbproxy.c:1654-1931 | for an input with a single `$`: the characters behind it are exactly sequence id, text, `#` and digits, nothing has been dropped, and the text of a binary packet is a header and an escaping of the data that are returned |
| GdbAccepted.SoundStep | gdbproxy.c:1696-1927 | that tie between what the receiver holds and the characters it has taken is kept by every character in every state |
| GdbBinary.BinaryBecomesHex | gdbproxy.c:1788-1876 | an X packet whose escaped data holds no `$` arrives as the M packet of the same data |
| GdbBinary.BinaryBecomesHexExactly | gdbproxy.c:1696-1876 | for every escaping of `$`, `#` and `}` the M packet arrives if and only if no `$` is sent within the data: the original restarts on a `$` even behind an escape |
| GdbToMemory.HexPacketIsOrdinary | gdbproxy.c:1654-1931 | nothing in an M packet ends it, restarts it or makes it special |
| GdbToMemory.WriteArrives | gdbproxy.c:459-496 | a write as digits or as escaped data, behind any junk, is received as its M packet and asks for that address and that data |
| GdbToMemory.Serve | gdbproxy.c:1353-1412 | one turn of the main loop: what the packet asks for is done in memory, and anything else leaves the target alone |
| GdbToMemory.WriteThrough | remote-elvees.c:544-637 | what GDB sends as a write, as digits or escaped, is what memory then holds at that address, and nothing else has changed, when it lies in one segment; past the end of the address space it is refused |
| GdbToMemory.WriteToOk | gdbproxy.c:459-496 | a write to the number n, rendered in hexadecimal, means address n |
| GdbToMemory.WriteAt | remote-elvees.c:544-637 | so such a write changes the bytes from address n on |
| GdbBinary.BinaryWriteIsHexWrite | gdbproxy.c:459-496 | within the protocol's limits a binary write makes the same call of write_mem as the hexadecimal one: that address and that data |
| GdbEscape.StandardEscapingIsSafe | gdbproxy.c:1840-1876 | escaping only `#`, `$` and `}` never sends a `$`, so every block of data survives it |
| GdbEscape.KnownEscapes | gdbproxy.c:1840-1876 | 7d 03, 7d 04 and 7d 5d stand for `#`, `$` and `}` |
| GdbBinary.EscapedFourIsLost | gdbproxy.c:1696-1707 | an input that fails: byte 4 escaped as `}$` is an escaping the protocol allows, and its M packet does not arrive |
| GdbOverrun.OverrunsExactly | gdbproxy.c:1812-1848 | a frame without a further `$`, behind any junk, is stored outside the buffer if and only if it is an X packet whose header is longer than the buffer, or a plain packet that fills the buffer to the last byte and carries the right digits |
| GdbOverrun.LongHeaderOverruns | gdbproxy.c:1829-1839 | an input that does it: `$X` and as many digits as the buffer has bytes |
| GdbOverrun.NeverOverruns | gdbproxy.c:1654-1931 | any number of frames, good or bad, up to as many as the buffer has bytes and each shorter than the buffer, are never stored outside it |
| ImageFile.SrecLineReads | mcprog.c:150-182 | every S1, S2 and S3 rendering of a chunk is read as that chunk |
| ImageFile.HexDataReads | mcprog.c:237-295 | every data record of Intel HEX, checksum included, is read as its bytes at its address |
| ImageFile.HighReads | mcprog.c:280-289 | an extended linear address record sets the upper half |
| ImageFile.EveryRecordReads | mcprog.c:229-302 | what becomes of an Intel HEX record of any type, size, address and checksum: taken if its bytes add up to 0, refused otherwise |
| ImageFile.TakenAddsUp | mcprog.c:266-278 | any line at all that is taken for data or for an address adds up to 0 with its checksum |
| ImageFile.WrongSumRefused | mcprog.c:274-278 | a data record with any other checksum ends the reading |
| ImageFile.WrongSumExits | mcprog.c:274-278 | and the reader exits |
| ImageFile.KnownDamaged | mcprog.c:274-278 | an input: `:0400000001020305F2` |
| ImageFile.BrokenHex | mcprog.c:237-243 | a line without eight digits behind the colon is refused |
| ImageFile.ShortHexWrong | mcprog.c:259-263 | a line that lacks more than the last digit of its checksum is refused |
| ImageFile.NewlineAsDigit | mcprog.c:259-275 | when only that digit is missing the line end is taken for one |
| ImageFile.EveryKindReads | mcprog.c:147-190 | S7, S8 and S9 end the file, S1, S2 and S3 carry data, and the others are ignored |
| ImageFile.BrokenSrec | mcprog.c:141-158 | a line that does not start with S is no record, one without a count is refused |
| ImageFile.SrecTakes | mcprog.c:159-200 | a record takes as many of the bytes behind its address as it announces |
| ImageFile.SrecHolds | mcprog.c:159-200 | the data of a record are there if the line is long enough for them |
| ImageFile.TellsAll | mcprog.c:127-320 | what a reader that returns says of the outcome |
| ImageFile.ForeignEnds | mcprog.c:141-146 | a line that is no record ends an image of nothing and breaks one that has begun, in either format |
| ImageFile.DigitsAre | mcprog.c:145-146 | the hexadecimal digits, in either case |
| ImageFile.SrecLoads | mcprog.c:127-209 | reading a rendering of any list of chunks as S records loads exactly those chunks, in order |
| ImageFile.HexLoads | mcprog.c:214-320 | the same for Intel HEX |
| ImageFile.FormatsAgree | mcprog.c:127-320 | both formats of one image give the same memory, base and length, or the same refusal |
| ImageFile.LoadMeans | mcprog.c:183-203 | byte by byte: each offset holds what the last chunk covering it says, and the length is the furthest end |
| ImageFile.ImageLoads | mcprog.c:183-203 | a sparse image whose first chunk is lowest and not at zero is loaded from that address on |
| ImageFile.LoadsExactly | mcprog.c:183-203 | with a base chosen, reading ends well if and only if every chunk lies between the base and the end of memory |
| ImageFile.ImageLoadsExactly | mcprog.c:183-203 | the same for an image that starts at its first chunk |
| ImageFile.BaseChosen | mcprog.c:183-186 | a base of zero counts as none: the base is the first address that is not zero |
| ImageFile.BaseIsFirst | mcprog.c:183-186 | the image is counted from its first address if and only if that is not zero or no other is |
| ImageFile.BaseIsSecond | mcprog.c:183-186 | an input that is not: bytes at 0 and 4 end in an image of one byte counted from 4, the first lost |
| ImageFile.Memory.Place | mcprog.c:183-203 | a data record is stored, refused, or stored out of bounds, as `Placed` says |
| ImageFile.Memory.ReadSrec | mcprog.c:127-209 | the reader does what the records say, on any lines |
| ImageFile.Memory.ReadHex | mcprog.c:214-320 | the reader does what the records say, on any lines |
| Conf.StaysInValue | conf.c:47-56 | a search for a continuation never crosses the NUL in front of the value |
| ConfText.NameReads | conf.c:68-126 | a name is read with single spaces, however it was spaced and continued over lines |
| ConfText.HeadingReads | conf.c:173-230 | a section name, however it was spaced and continued over lines, the bracket included, is read with single spaces, behind one more where `HeadSpaceExactly` says so |
| ConfText.HeadSpaceExactly | conf.c:204-221 | a stored section name starts with whitespace if and only if whitespace stands between a continuation and its first word |
| ConfText.GapReads | conf.c:94-118 | whitespace and continued lines between the words of a name come to one space, and to nothing within a word |
| ConfText.NormalIsTidy | conf.c:114-118 | the only whitespace in a stored name are single spaces within it |
| ConfText.ValueReads | conf.c:128-168 | however a value is cut by backslashes and spread over lines with comments, its pieces are joined and the end is trimmed |
| ConfSpaces.OneLineTrimmed | conf.c:128-168 | a value on one line never ends in whitespace |
| ConfSpaces.TrailingSpaceExactly | conf.c:144-166 | a value of any number of pieces ends in whitespace if and only if nothing but whitespace follows the last continuation and what comes before it ends in whitespace |
| ConfSpaces.LeadingSpaceExactly | conf.c:128-152 | a value of any number of pieces starts with whitespace if and only if what comes before the last continuation does, or is empty and the last piece, not all whitespace, does |
| ConfSpaces.LeadingSpaceContinued | conf.c:128-129 | in a file that takes a continuation right behind the sign |
| ConfSpaces.FrontKept | conf.c:129-152 | an input that does: the lines `n=\` and ` v` give the value ` v` |
| ConfSpaces.SectionFrontKept | conf.c:204-221 | the lines `[\` and ` x]` make the section ` x`, which the calls that follow are given |
| ConfSpaces.EndKept | conf.c:147-155 | an input that keeps one at its end: the line `n=a \` and an empty line give the value `a` and a space |
| ConfText.FileReads | conf.c:235-286 | a file rendered from sections, settings, comments and blank lines, with names, section names and values continued over lines and carriage returns among the whitespace and in values, makes exactly the calls it was rendered from, in order |
| ConfFaults.NoSignIgnored | conf.c:89-101 | a line of words without a sign is ignored |
| ConfFaults.NoNameExits | conf.c:79-83 | a sign without a name ends the program |
| ConfFaults.UnfinishedExits | conf.c:107-112 | so does a file that ends within a name |
| ConfFaults.EmptyHeadingExits | conf.c:189-211 | so does a heading without a name, or not closed on its line |
| ConfFaults.UnfinishedHeading | conf.c:176-230 | a heading that the end of the file breaks off is ignored |
| ConfFaults.BogusBackslash | conf.c:268-270 | a backslash at the start of a line is skipped |
| ConfFaults.NulEndsFile | conf.c:20-29 | a NUL in a comment ends the file |
| ConfFaults.CommentsSkipped | conf.c:260-263 | `;` and `#` start comments |
| ConfReturns.CrlfNameScan | conf.c:68-126 | a name, from any state of its scan, is the same with CR LF line ends |
| ConfReturns.CrlfSectionScan | conf.c:173-230 | so is a section name |
| ConfReturns.CrlfValueScan | conf.c:128-168 | and so is a value |
| ConfReturns.CrlfFile | conf.c:235-286 | every text, well formed or not, makes the same calls, or the same exit, with CR LF line ends as with LF |
| Conf.Parser.Find | conf.c:47-56 | the backwards search, on the buffer |
| Conf.Parser.ParseName | conf.c:68-126 | the loop computes `NameScan`: the name in the buffer, an ignored line, or an exit |
| Conf.Parser.NameTurn | conf.c:114-124 | one turn of the loop follows the scan |
| Conf.Parser.ParseValue | conf.c:128-167 | the loop computes `ValueScan` and leaves the name in front of the value alone |
| Conf.Parser.ValueTurn | conf.c:139-164 | one turn of the loop follows the scan |
| Conf.Parser.ParseParameter | conf.c:62-168 | one call with the current section, the name and the value, or none |
| Conf.Parser.ParseSection | conf.c:173-230 | the section name becomes the current one |
| Conf.Parser.ConfParse | conf.c:235-286 | exactly the calls of `Lines`, on any input |
| Crc.CrcAppend | remote-skeleton.c:955-961 | feeding a buffer in chunks equals feeding it whole |
| Crc.CrcIsRemainder | remote-skeleton.c:1206-1229 | the checksum is the remainder of the long division of the message times x^32, with the start value added in front, by the polynomial 0x04c11db7 |
| Crc.StepsLinear | remote-skeleton.c:1217-1225 | shifting is linear over exclusive or, which is why a table works |
| Crc.TableFeeds | remote-skeleton.c:1223-1227 | one table lookup equals eight single steps |
| Crc.EntryOne | remote-skeleton.c:1208-1221 | entry 1 of a complete table is the polynomial, not zero, so the test on it tells a complete table from an empty one |
| Crc.KnownPolynomial | remote-skeleton.c:1198-1229 | the generator of CRC-32, by its exponents |
| Crc.Checksum.Fill | remote-skeleton.c:1211-1220 | the nested loop completes the table |
| Crc.Checksum.Crc32 | remote-skeleton.c:1206-1229 | for every buffer and start value the table-driven checksum is the bit-at-a-time one, and the table is complete whenever it is used |
| Breaks.PushedEncoded | target.c:1899-1916 | the shifts and masks move the first breakpoint to the second place and put the new one in front |
| Breaks.PulledEncoded | target.c:1935-1940 | the shifts and masks move the second breakpoint to the first place and drop OBCR_ANY |
| Breaks.DroppedEncoded | target.c:1947-1951 | the mask drops exactly the second breakpoint |
| Breaks.AddBreak | target.c:1895-1923 | the list of breakpoints gets a new front and keeps at most two |
| Breaks.RemoveBreak | target.c:1925-1965 | the first entry at that address is removed and the rest move up |
| Breaks.Perform | target.c:1895-1965 | over any sequence of operations from OBCR = 0 the registers hold the list; slot 1 is never occupied while slot 0 is free |
| Breaks.TwoNeedBoth | target.c:1902-1903 | over any sequence OBCR_ANY is set at most while exactly one breakpoint is |
| Breaks.KnownRegisters | oncd.h:71-92 | the values of OBCR for one breakpoint of each kind, and for two |

## Left out

What the models assume of hardware that the repository does not describe:

- Pipeline timing: every step completes exactly one instruction, so the padding NOPs and the
  NDS and NFEXP bits have no effect of their own.  `Debugger.Plausible` says what is assumed
  of a core that has just stopped: at most three instructions in flight, none when the exec
  stage is empty, and no exception vector equal to the address after BOOT_ADDR.
- CP0 and FPU registers are plain cells: reading and writing them has no side effects.
- Memory answers at once, so one poll for RDYm suffices; the timeouts and their exits do not
  occur.
- A flash chip finishes programming before the next command; there are no busy states and no
  erase commands.
- USB writes are delivered whole, in one piece or several.
- Shifts by the word width or more, undefined in C, give zero; they do not occur in what is
  proved about reads and writes of the debug unit.
- `|` of instruction fields that do not overlap is written `+`.

Weaker than the source in some respect:

- Mpsse.Mpsse.BulkRead: every USB packet brings at least one data byte, because the loop of
  the original has no bound on empty ones; USB errors, which end the program, do not occur.
- Bitbang.Bitbang.SendRecv: a run in which the original would wait forever, or exit because no
  more packets come, ends with `ok` false.
- Bitbang.Bitbang.Write: a full buffer, on which the original exits, is excluded.
- Mpsse.Mpsse.Send: the input buffer of 64 bytes must have room for the answer; the original
  does not check it, and every caller in the repository leaves room.
- TargetFlash.WriteNwords: at least one word in the loop, which reads the first without looking;
  the FT2232's own function is `MpsseBlock.WriteNwords`.
- Debugger.Debugger.Session: register writes that are not `Honoured` break the debugger's own
  state, so nothing is promised about what follows them; reads of the mailbox word are allowed
  and their answers described by `Debugger.Debugger.PeekWord`.
- Debugger.Debugger.Serve: the same.
- TargetBlock.AdapterReadBlock, and the other three functions of that kind: an adapter without a
  model of its own is described by what it does; for the FT2232 the same is proved in
  `MpsseTarget`.
- ElveesMem.ReadMem: what a request across a segment boundary reads is not described.
- ElveesMem.WriteMem: what a request across a segment boundary writes is not described.
- Breaks.AddBreak: the four types that remote-elvees.c asks for; the count register OMBC is not
  part of the debug unit modelled.
- FlashVerify.Board.VerifyBlock: for a block within one segment that lies in the flash; the
  table of flash regions is not modelled, the board has one.
- GdbToMemory.Serve: of the commands only memory writes, and the answer to them as a value, not as
  a packet; a write that crosses a segment boundary is performed as `ElveesMem.WriteMem` leaves open.
- GdbFrames.BuildFrame: the frame only, not the loop that sends it until it is acknowledged.
- GdbPacket.GetPacket: input ends with a closed socket, not with a timeout; a character that
  the original would store outside the buffer is an outcome of its own, at which the model
  stops; `GdbOverrun.OverrunsExactly` says when that is.
- ImageFile.Memory.ReadSrec: lines of any length, where the original reads at most 255
  characters at a time; where it uses characters left behind from longer lines the outcome is
  `Undefined`.
- ImageFile.Memory.ReadHex: as ReadSrec; a record of more than 16 bytes, which overruns the
  original's buffer, is `Undefined`.
- ImageFile.ImageLoads: records of at most 16 bytes, of even length and at word-aligned
  addresses are what both formats can carry.
- ConfText.FileReads: a name does not begin with a backslash, which the parser, modelled with it,
  skips.

Not modelled, mostly because it would only add easy members or hangs on things not shown:

- adapter-usb.c and adapter-lpt.c: what their commands mean is decided by adapter firmware and
  wiring that are not in the repository.
- regf_read and regf_write, the register access of processors other than MC12.
- Stopping and resetting the processor, the speed of the JTAG clock, delays, LEDs.
- Erasing, detection and identification of flash chips, the chips with 16-bit, 64-bit and
  page-programmed (Atmel, Micron) sequences, and the dispatch between them.
- The binary file reader, the command line, progress display, localisation, logging.
- The other GDB commands: registers, continue, step, threads, queries, and the retransmission
  and input flushing of rp_putpkt.
- remote-msp430.c and the rest of remote-skeleton.c.
- Failure of memory allocation.
