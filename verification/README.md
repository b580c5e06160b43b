# A model of the mdebug host tools and the m3debug probe

The repository drives a Cortex-M target over serial wire debug (SWD). A host library turns memory accesses into
transactions of 32-bit words; the probe's firmware runs each transaction against the target's debug port and sends
back a reply; GDB support, breakpoints and flash programming are built on top. The model follows that stack from
the wire upwards and proves that each layer keeps what the next one relies on.

| files | what they model |
|---|---|
| `Words`, `Rswdp` | machine words, and the message format: headers, payloads, and when a word stream is a list of messages |
| `SwdWire`, `SwdDrivers` | the bits on the wire: the mask trees, and the SPI and the bit-banging driver clock by clock |
| `Swd`, `MemAp` | accesses to a target, and the target: SELECT, CSW, TAR, the posted read, memory, and the 4 KB wrap |
| `Probe`, `ProbeRuns` | the interpreter in the probe, for every pattern of acknowledgements |
| `AhbCode`, `AhbSemantics` | the transaction compiler with its two caches, and what its output does to memory |
| `HostTxn`, `UsbFraming`, `Session` | the host's transaction buffer, the reply parser, the USB packets between the two, and one whole exchange |
| `BulkCode`, `BulkSemantics`, `Bulk`, `WordLoop`, `BatchSizes` | bulk transfers, the disabled word loop they refine, and how long both kinds of transaction are |
| `Ahb`, `WriteMemory` | single words, several accesses to a transaction, and unaligned byte writes |
| `NorFlash`, `SpifiAgent` | a NOR flash that may misbehave, and the SPIFI agent over it |
| `CoreCall`, `FlashHost`, `FlashTrust` | calling the agent through the core registers, the host's flash and erase commands, and when a success of theirs can be believed |
| `Stm32Agent` | the STM32 agent over its irregular sectors |
| `Connection` | the reader thread and the clients, as interleaved steps |
| `Breakpoints` | the FPB and DWT tables and the comparators they stand for |
| `GdbPacket`, `HexCodec` | GDB remote protocol packets and hexadecimal text |
| `Swo` | the SWV byte decoder |
| `UsbConsole` | the console ring |

Where the source updates state in place the model does so too: a class or an array method is proved equal to a
function of the old state, and the theorems are about that function. What becomes of an exchange, an acknowledgement,
a register write, a flash operation or an interrupt is chosen by an arbitrary function or list, so that a theorem
holds for every choice. The code does not look at the results of the register writes in `invoke` and in the
breakpoint functions, nor at any result in `write_memory`; there the theorems say which of them have to arrive.

Some statements that look true of the code are not. They are proved as exact conditions, next to an input that
breaks them:

- 0xffffffff marks an unknown cache, so when the first access of a transaction is to that address no TAR write is
  sent; a later one is harmless (`AhbSemantics.CorrectUnlessMark`).
- In auto-increment mode, which a bulk transfer that fails can leave on, an access to the same address as the one
  before it goes to the next word (`AhbSemantics.IncrementExactly`).
- A register write that `invoke` loses unseen can make it report a success that never was
  (`CoreCall.InvokeExactly`). Whether a success of the flash or erase command can be believed, on all targets, is an
  exact condition on the register writes and exchanges of the command (`FlashTrust.FlashExactly`,
  `FlashTrust.EraseExactly`): every call needs certain writes, fewer where the call before has left registers right,
  and the erase call none if its core is not resumed and no byte of the sectors has to be blank. Without the program
  counter's in the write call, flashing at address 0 succeeds and programs nothing (`FlashTrust.LostPc`); without
  r0's in the erase call, another range is erased (`FlashTrust.LostArgument`).
- A byte write whose read is lost reports no error and puts back what the variable happened to hold; the exchanges it
  needs are known exactly (`WriteMemory.WriteBytes`, `WriteMemory.LostRead`).
- A comparator write that is lost unseen leaves a breakpoint that does not break, or one that cannot be removed
  (`Breakpoints.LostWrites`, `Breakpoints.AgreesThroughoutExactly`).
- A packet to the GDB server whose payload is too long is not dropped whole: what stands behind its first 8192 bytes
  is read as if nothing had come before (`GdbPacket.OversizeRun`, `GdbPacket.OversizeDropped`,
  `GdbPacket.OversizeHarmless`), and may be taken for a packet (`GdbPacket.TailDelivered`). A frame of just the size
  announced to GDB is one byte too long (`GdbPacket.DeliveredWithinSize`).
- With swd_maxwords equal to 16 a write batch moves no words and the loop never ends, and a read batch asks for
  0xffff words; below 16 the unsigned difference wraps, and a batch is longer than the buffer
  (`BulkCode.SoundExactly`, `BulkCode.SmallBuffers`).
- A full chunk of the disabled word loop takes 515 words; the probe's buffer holds 512
  (`BatchSizes.SimpleBatchFits`, `BatchSizes.SimpleReadFits`). `include/protocol/rswdp.h` allows 1024 words; the
  firmware's buffer decides.
- Replies can be taken for one another as soon as two clients overlap (`Connection.OwnRepliesExactly`).
- A checksum that is not hexadecimal mostly counts as zero (`GdbPacket.WrongChecksRejected`), and a reply of 8187 to
  8191 bytes is not sent (`GdbPacket.SendsWholeOrNothing`).
- Resynchronisation counts zero bytes modulo 2^32 (`Swo.SynchronisesExactly`).
- Only four DWT comparators are ever programmed (`Breakpoints.DwtAgreesExactly`), and an address can be live in
  both tables, so that removing it leaves it live (`Breakpoints.RemoveKillsExactly`).
- A flash that ends at the top of the address space is refused altogether (`FlashHost.BoundsTestExactly`).
- Erasing no bytes on the STM32 erases a sector (`Stm32Agent.ErasesExactly`).
- The bit-banging driver sends its data even when the target does not acknowledge
  (`SwdDrivers.WritesAgreeExactly`).

## Model

| member | source | states |
|---|---|---|
| Rswdp.HeaderFields | include/protocol/rswdp.h:37-40 | packing three fields into a message word loses none of them |
| Rswdp.IdsDiffer | tools/rswdp.c:252-254 | the ids of any 0xffff transactions in a row differ from one another's and from that of asynchronous packets |
| Rswdp.ParseUnique | m3debug/main.c:106-190 | a word stream is the encoding of at most one list of messages: no data word can be taken for a header |
| Rswdp.EncodingParses | m3debug/main.c:106-190 | what the host encodes is read back message by message, at any offset |
| Probe.M3Debug.ProcessTxn | m3debug/main.c:97-208 | the interpreter's loops leave the target and the reply exactly as the run of the parsed messages says, within the reply buffer |
| Probe.ReplyEndsShort | m3debug/main.c:194-199 | no reply ends on a full packet |
| Probe.ReplyOnWire | m3debug/main.c:126-194 | a reply with one word is the id, a data header for one word, the word, and the status with the count of messages |
| ProbeRuns.RunIsPrefix | m3debug/main.c:117-147 | for every transaction and acknowledgement pattern the target is in the state of the accesses before the first refusal, the status says whether there was one, and on success the reply holds exactly the words read |
| ProbeRuns.StatusCounts | m3debug/main.c:107-194 | the count in the status is that of the messages run, the one that failed included |
| ProbeRuns.RefusedWords | m3debug/main.c:126-137 | a refused read sends back the words before it, all ones for itself, and fill for the rest of its block |
| HostTxn.ReplyReadsBack | m3debug/main.c:126-137 | every reply parses: each data header is followed by its declared number of words, fill included |
| HostTxn.Txn.QAhbWrite | tools/rswdp.c:404-410 | appends exactly the compiled write to the transaction and keeps the caches with it |
| HostTxn.Txn.QAhbRead | tools/rswdp.c:412-418 | appends exactly the compiled read, and one reply place |
| HostTxn.ProcessReply | tools/rswdp.c:186-231 | delivers a parsed reply to the caller's places, word for word up to the first status, and returns its code |
| HostTxn.DeliverBlocks | tools/rswdp.c:201-220 | data blocks that fit the places are scattered in order, so a reply to the words queued for cannot overrun |
| HostTxn.DeliverOnlyAt | tools/rswdp.c:201-211 | no reply, complete or not, can change anything but the words asked for |
| AhbSemantics.CompileCorrect | tools/rswdp.c:368-418 | whatever the registers of the MEM-AP hold, in either transfer mode, and whatever part of them is cached, the compiled words do to memory and read back exactly what the accesses in Meant say, where an access to the cached address goes where TAR points; without auto-increment each cache stays unknown or equal to its register |
| AhbSemantics.PlainLanding | tools/rswdp.c:368-418 | without auto-increment, and with a cache that is right, those are the accesses of the list, but for first ones to the unknown mark |
| AhbSemantics.CorrectUnlessMark | tools/rswdp.c:372-373 | a list of accesses means what it says on every target without auto-increment if and only if its first access is not to the unknown mark |
| AhbSemantics.IncrementExactly | tools/rswdp.c:368-418 | with auto-increment on, a list means what it says on every target, at any point of it and whatever it writes, if and only if no access is to the address of the one before and the first not to the mark |
| AhbSemantics.CompilePrefix | tools/rswdp.c:404-418 | a compiled transaction stopped anywhere has done some first of those accesses to memory and no others, and left the transfer mode alone |
| AhbSemantics.FirstOpCorrect | tools/rswdp.c:434-446 | a transaction of one access is right in auto-increment mode as well |
| UsbFraming.UsbXmit | arch/lpc13xx/usb-v1.c:428-450 | the loop splits the data into packets of 64 bytes and a shorter last one |
| UsbFraming.SplitMeans | arch/lpc13xx/usb-v1.c:428-450 | the packets are the data in order, 64 bytes each but for what is left for the last, and no packet for no data |
| UsbFraming.UsbRecv | arch/lpc13xx/usb-v1.c:351-382 | the loop takes packets up to a short one or a full buffer |
| UsbFraming.FramedExactly | arch/lpc13xx/usb-v1.c:363-372 | a transfer is received as sent, whatever follows, if and only if it fits and ends short or fills the buffer |
| UsbFraming.FramingRoundTrip | arch/lpc13xx/usb-v1.c:351-450 | any list of framable transfers arrives one for one |
| UsbFraming.TransactionsArrive | tools/rswdp.c:245-249 | transactions of any length the probe takes, padded as the host pads them, arrive one for one, the exactly full one included |
| UsbFraming.ReplyCarried | m3debug/main.c:194-208 | every reply reaches the host whole |
| Session.Exchange | tools/rswdp.c:245-290 | the transaction goes out with the id of the next sequence number, and the reply comes back with it; an exchange is the run of the padded transaction with the reply delivered, or the run with the reply lost, or nothing |
| Session.QExec | tools/rswdp.c:233-290 | takes the next sequence number for its id; returns 0 exactly when the reply came and every access was acknowledged; then all accesses ran and all places are filled; otherwise nothing ran if the request was lost, and else the accesses up to the first refusal; only the places asked for can change, and none without a reply |
| BulkCode.XferProgress | tools/rswdp.c:495-499 | a batch stays in its page, from any address, is as long as page, buffer and count allow, and moves nothing exactly when swd_maxwords is 16 or less than a word is left of the page |
| BulkCode.SoundExactly | tools/rswdp.c:481-499 | every batch from a word address gets further and leaves room for its overhead if and only if swd_maxwords is at least 17 |
| BulkSemantics.BurstWrites | tools/rswdp.c:558-564 | a burst with auto-increment stores the words at consecutive addresses as long as the page lasts |
| BulkSemantics.PipelinedReads | tools/rswdp.c:513-521 | the reads of a burst return the words one behind, and RDBUFF the last |
| BulkSemantics.WriteBatchDoes | tools/rswdp.c:502-570 | a write batch stores its block and ends in the wanted mode, from any state of the target |
| BulkSemantics.ReadBatchDoes | tools/rswdp.c:502-527 | a read batch returns its block, changes no memory and ends in the wanted mode, from any state of the target |
| BulkSemantics.WritePrefixStores | tools/rswdp.c:553-570 | a write batch stopped anywhere has stored exactly the first words it came to and nothing else |
| Bulk.AhbWrite32 | tools/rswdp.c:535-576 | on success memory holds the data, as after the word loop on the same target, and auto-increment is off; on failure some first words are stored; all of them are, reported or not, exactly if every request arrives with its words acknowledged and every reply but the last; undisturbed it succeeds |
| Bulk.AhbRead32 | tools/rswdp.c:486-533 | on success the caller's array holds the words, as the word loop reads them on the same target, and auto-increment is off; memory never changes, and the array behind the words asked for never does; undisturbed it succeeds |
| WordLoop.LoopStores | tools/rswdp.c:466-480 | the word loop stores exactly the data at any aligned address, in either transfer mode |
| WordLoop.LoopLoads | tools/rswdp.c:450-464 | the word loop reads exactly the words at any aligned address, in either transfer mode |
| BatchSizes.SimpleBatchFits | tools/rswdp.c:471-475 | a write transaction of the word loop takes 3 words and 4 for each access, so it fits the probe if and only if there are at most 127 |
| BatchSizes.SimpleReadFits | tools/rswdp.c:455-459 | the same for a read transaction, whose reply has 2 words and 2 for each access |
| BatchSizes.WriteBatchFits | tools/rswdp.c:482-570 | every write batch fits swd_maxwords with a word of padding |
| BatchSizes.ReadBatchFits | tools/rswdp.c:482-527 | every read batch fits swd_maxwords, and so does its reply |
| Ahb.AhbWriteWord | tools/rswdp.c:441-446 | the word is stored, reported or not, exactly if the request arrives and nothing is refused, and otherwise memory is as it was; the result is 0 exactly if the reply came as well |
| Ahb.AhbReadWord | tools/rswdp.c:434-439 | the result is 0 exactly if the reply came and nothing was refused; then the word is in its place; otherwise the place is as it was or holds all ones; memory and the other places never change |
| Ahb.OpOnWire | tools/rswdp.c:368-418 | a single write and a single read, word for word as they are sent |
| Ahb.CompileAppend | tools/rswdp.c:404-418 | compiling two lists one after the other, the caches handed on, is compiling them together |
| Ahb.AhbAccesses | tools/rswdp.c:579-606 | several accesses queued to one transaction, as many as fit the probe and in either transfer mode: on success memory and the caller's places are as after the accesses one by one; otherwise some first ones were done; undisturbed it succeeds |
| WriteMemory.PatchWord | tools/gdb-bridge.c:357-369 | read-modify-write changes the given bytes of a word and no others if the read is reported and the write arrives; if not, and memory is such that it can be seen, some byte of the word is wrong |
| WriteMemory.WriteBytes | tools/gdb-bridge.c:350-384 | for every address and length, round the end of the address space too, the bytes are spliced into memory if SpliceLands holds of the exchanges: each read reported, each write arrived, and of the bulk batches every reply but the last; if it does not, then not on memory where that can be seen; whatever fails, only words the range touches can change |
| WriteMemory.TellingMemory | tools/gdb-bridge.c:350-384 | for every address, length and byte to write there is memory on which it can be seen |
| SwdWire.RevBitsReverses | m3debug/swdp.c:87-94 | the mask tree reverses the word |
| SwdWire.ParityIsXor | m3debug/swdp.c:97-104 | the adding tree gives the exclusive or of the bits |
| SwdWire.DataFrames | m3debug/swdp.c:128-137 | the frames of 9, 16 and 9 bits are 1, D0 to D31, parity |
| SwdWire.JoinedData | m3debug/swdp.c:164-172 | the frames of 16, 8 and 10 bits give back the word whose bits came D0 first |
| SwdWire.WordFixedByBits | swdp/swdp.c:60-72 | equal wire bits mean equal words |
| SwdDrivers.GpioPort.Send | swdp/swdp.c:74-90 | the loop drives D0 upwards and then the parity of what it sent |
| SwdDrivers.GpioPort.Recv | swdp/swdp.c:60-72 | the loop returns the word of the bits it sampled, the first as D0 |
| SwdDrivers.GpioPort.SwdpWrite | swdp/swdp.c:146-170 | the clocks of a bit-banged write and its result |
| SwdDrivers.GpioPort.SwdpRead | swdp/swdp.c:116-144 | the clocks of a bit-banged read, its word and its result |
| SwdDrivers.SpiPort.SwdpWrite | m3debug/swdp.c:109-142 | the clocks of a write over SPI through any number of WAIT answers, and its result |
| SwdDrivers.SpiPort.SwdpRead | m3debug/swdp.c:144-175 | the clocks of a read over SPI through any number of WAIT answers, its word and its result |
| SwdDrivers.WaitsAreRetried | m3debug/swdp.c:109-126 | an access over SPI is asked for again after every WAIT, with the same request, and the answer that ends the waiting counts |
| SwdDrivers.WritesAgreeExactly | m3debug/swdp.c:109-142 | both drivers take a write through the same clocks, but for where the idle zeros stand, if and only if the target acknowledges at once |
| SwdDrivers.ReadsAgreeExactly | m3debug/swdp.c:144-175 | both drivers take a read through the same clocks up to the last turnaround, behind the idle zeros, if and only if the target acknowledges at once |
| SwdWire.LsbWordExactly | swdp/swdp.c:60-72 | the word both drivers are proved to return is the one word whose wire bits, D0 first, are those on the line |
| SwdDrivers.OpTableRequests | m3debug/main.c:77-94 | every request byte is start, APnDP, RnW, address, even parity, stop, park |
| SpifiAgent.Target.FlashAgentErase | agents/lpc43xx-spifi.c:168-182 | the loop is the run of sector erases, each read back, or the alignment error |
| SpifiAgent.Target.FlashAgentWrite | agents/lpc43xx-spifi.c:184-207 | the loop is the run of page programs of the padded data, each read back, or the alignment error; the buffer has its last page filled up exactly when that page was reached |
| SpifiAgent.EraseMeans | agents/lpc43xx-spifi.c:172-181 | success means blank even on a chip that misbehaves, nothing outside the sectors changes, and a working chip succeeds |
| SpifiAgent.WriteMeans | agents/lpc43xx-spifi.c:189-204 | success means the pages are there even on a chip that misbehaves, nothing outside them changes, and a working blank chip succeeds |
| SpifiAgent.OnlyClearsBits | include/agent/flash.h:112-114 | over flash that is not blank a page is taken if and only if it sets no bit |
| FlashHost.BoundsTestExactly | tools/debugger-commands.c:639-644 | the bounds test passes just the ranges in the flash, and none when the flash ends at 2^32 |
| CoreCall.Core.Invoke | tools/debugger-commands.c:542-578 | the nine register writes, the resume, the wait and the two reads leave registers, flash and buffer as the function of the call says, whatever becomes of each exchange |
| CoreCall.CallReturns | tools/debugger-commands.c:563-577 | the result is -1 when the wait is given up or the program counter is not seen at the breakpoint, and else the result register, all ones if it cannot be read |
| CoreCall.InvokeExactly | tools/debugger-commands.c:542-578 | on all targets a result of zero means that the function was entered with its arguments, if and only if no register write was lost that matters, or the result was not read |
| CoreCall.EraseCall | tools/debugger-commands.c:542-578 | when the register writes it needs arrive an erase call runs the agent's loop exactly if the core was resumed, and returns zero exactly if that succeeded and was seen to |
| CoreCall.WriteCall | tools/debugger-commands.c:542-578 | the same for a write call after a call that returned zero, of the first bytes in the agent's buffer, where fewer writes are needed |
| FlashHost.FlashChunks | tools/debugger-commands.c:660-680 | the loop downloads and writes the image chunk by chunk, up to the first failure it sees |
| FlashHost.RunFlashAgent | tools/debugger-commands.c:639-689 | bounds test, erase and chunks leave the target as the function of the command says, whatever becomes of each exchange |
| FlashHost.FlashMeans | tools/debugger-commands.c:639-689 | under FlashSafe success means the flash is as Flashed says; when every call that is made has the register writes it needs, only the image's sectors can change whatever else fails, and without failures it succeeds just for ranges inside the flash that start a sector |
| FlashHost.AllTookSuffices | tools/debugger-commands.c:542-578 | when no register write is lost every call has what it needs |
| FlashTrust.FlashExactly | tools/debugger-commands.c:639-689 | on all targets, and for all images of a given size, success of the flash command means that the flash is as Flashed says, if and only if FlashSafe holds: when downloads and calls can succeed at all, every call has the register writes it needs |
| FlashTrust.LostPc | tools/debugger-commands.c:549 | with only the program counter's write lost in the write call of one chunk, nothing is programmed, and success is reported if and only if the address is 0 |
| FlashHost.FlashedReadsBack | agents/lpc43xx-spifi.c:184-207 | in a flash as Flashed the image reads back, its last page ends in zeros, its last sector in ones, and the rest is unchanged |
| FlashHost.RunErase | tools/debugger-commands.c:633-651 | the erase command leaves the target as its function says, whatever becomes of each exchange |
| FlashHost.EraseCommandMeans | tools/debugger-commands.c:633-651 | success means that the range's sectors are blank, if no register write is lost that matters; when the call has the writes it needs, only those sectors can change, and without failures it succeeds just for ranges inside the flash that start a sector |
| FlashHost.EraseAllMeans | tools/debugger-commands.c:633-637 | address 0 with a size of all ones erases the whole flash of the header and nothing else, and succeeds without failures; a flash that ends at the top of the address space is refused |
| FlashHost.EraseGivenMeans | tools/debugger-commands.c:639-651 | any other pair erases the sectors of just the range it gives |
| FlashTrust.EraseExactly | tools/debugger-commands.c:633-651 | on all targets success of the erase command for a range that is not empty means that it is blank and the rest unchanged, if and only if no register write was lost that matters, or the result was not read |
| FlashTrust.LostArgument | tools/debugger-commands.c:543 | with only r0's write lost in the erase call, the command reports success and the range is blank that starts where r0 was, at 0 |
| FlashHost.DoFlash | tools/debugger-commands.c:691-705 | under FlashSafe success means that the file is in the flash, though its size is rounded up to words; when every call that is made has the register writes it needs, only the file's sectors can change, and without failures it succeeds just for ranges inside the flash that start a sector |
| Stm32Agent.Controller.FlashAgentErase | agents/stm32fxxx.c:80-100 | the loop erases the run of sectors from the one that starts at the address, up to the first error |
| Stm32Agent.ErasesExactly | agents/stm32fxxx.c:88-98 | the sectors erased are exactly those the range meets, if and only if the range is not empty |
| Stm32Agent.CoversMinimally | agents/stm32fxxx.c:88-98 | they cover the range up to the end of the flash, and without the last one they would not |
| Stm32Agent.SectorRunMeans | agents/stm32fxxx.c:88-99 | they are consecutive, up to the first the controller reports an error for, and all of them exactly when it reports none |
| Stm32Agent.SectorSizes | agents/stm32fxxx.c:52-69 | four sectors of 16 KB, one of 64 KB and seven of 128 KB |
| Stm32Agent.Controller.FlashAgentWrite | agents/stm32fxxx.c:102-122 | the loop programs the run of words, or reports the alignment error |
| Stm32Agent.WordRunMeans | agents/stm32fxxx.c:109-119 | the words go to consecutive addresses in order, up to the first that fails, and all of them exactly when none does |
| Connection.HandleSafety | tools/rswdp.c:233-359 | in every interleaving, locked or not, the handle is open while swd_online is 1 or -1, is not used after close, every disconnect closes one handle once it is acknowledged, and WAIT comes with a live waiter's buffer |
| Connection.SerialisedRuns | tools/debugger-core.c:78-98 | with the lock, a call that returns a length holds a packet of that length with its own id, in every run |
| Connection.WaiterIsServed | tools/rswdp.c:271-279 | a waiter's turn ends its wait, or the reader is at work on an open handle |
| Connection.OwnReplyEndsWait | tools/rswdp.c:330-346 | in every reachable state, a packet of whole words with the id that is waited for ends the wait: the call returns its length and holds it |
| Connection.OtherPacketsChangeNothing | tools/rswdp.c:330-350 | any other packet leaves a state with a waiter as it was |
| Connection.FailedReadEndsWait | tools/rswdp.c:323-329 | a failed read ends the wait with -1 and marks the connection as lost |
| Connection.CallOutcome | tools/rswdp.c:252-289 | a call waits for its own id if the connection is up and its transaction written, and returns -1 if not; after a disconnect it acknowledges it |
| Connection.Reconnects | tools/rswdp.c:292-357 | once a disconnect is acknowledged the reader opens a new handle, and the reply to its query brings the connection up |
| Connection.CallIdsDiffer | tools/rswdp.c:252-254 | in every run two calls have different ids, with up to 0xfffe other transactions between them |
| Connection.UsesAreOpen | tools/rswdp.c:252-321 | in every run the handle is open whenever it is used |
| Connection.OwnRepliesExactly | tools/debugger-core.c:78-98 | every run gives each call its own reply if and only if the lock is held |
| Breakpoints.Bridge.HandleFlashpatch | tools/gdb-bridge.c:409-469 | the array code is the table function, comparators included, whatever becomes of its register writes |
| Breakpoints.Bridge.HandleBreakpoint | tools/gdb-bridge.c:471-531 | the array code is the two-table function, comparators included, whatever becomes of its register writes |
| Breakpoints.CountIsRight | tools/gdb-bridge.c:413-432 | the FPB's comparator count is right although its upper bits are put together in the wrong place, and zero without the unit |
| Breakpoints.DwtCountIsRight | tools/gdb-bridge.c:480-489 | the number of DWT comparators is the top four bits of DWT_CTRL, and none without the unit |
| Breakpoints.WatchpointNeverStrays | tools/rswdp.c:693-709 | however much of a watchpoint's transaction arrives, the comparator is as it was, or off, or breaks on just the address, as the architecture reads its registers |
| Breakpoints.FpDecodes | tools/gdb-bridge.c:457-463 | a comparator word breaks on the halfword of its address |
| Breakpoints.FpEncodeInjective | tools/gdb-bridge.c:457-463 | two addresses share a comparator word exactly when they share a halfword |
| Breakpoints.FlashpatchMeans | tools/gdb-bridge.c:433-468 | the FPB table gains or loses one address as a set; adding fails exactly when it is new and the table is full, removing exactly when it is not there |
| Breakpoints.DwtMeans | tools/gdb-bridge.c:499-530 | the same for the DWT table, where removing never fails |
| Breakpoints.BreakpointMeans | tools/gdb-bridge.c:471-531 | no other address is affected; an add succeeds exactly if the address is live or has room in a table that may hold it, and after it the address is live or nothing changed; after a remove it is dead unless it was in both tables |
| Breakpoints.OutsideCode | tools/gdb-bridge.c:480-531 | above the code region a breakpoint takes one of the comparators that the top bits of DWT_CTRL count, and is refused exactly when it is new and they are all taken |
| Breakpoints.SlotMeans | tools/gdb-bridge.c:457-463 | a comparator that agrees with its slot breaks on the slot's address, or on its halfword, or is off |
| Breakpoints.RunsKeep | tools/gdb-bridge.c:409-531 | in every run, whatever becomes of the writes, no address is twice in a table, and only slots with a comparator are used |
| Breakpoints.AgreesExactly | tools/gdb-bridge.c:439-463 | after a request every comparator breaks on its entry, with its unit enabled, or is off, if and only if the writes that the request needs arrive |
| Breakpoints.AgreesThroughoutExactly | tools/gdb-bridge.c:409-531 | in every run that holds all along if and only if the writes that each request needs arrive |
| Breakpoints.LostWrites | tools/gdb-bridge.c:439-462 | with its comparator write lost, an add reports success and nothing breaks there; a remove reports success and the comparator goes on breaking |
| Breakpoints.DwtAgreesExactly | tools/rswdp.c:693-709 | when no write is lost, all comparators agree with the tables in every run if and only if the DWT has at most four |
| Breakpoints.RemoveKillsExactly | tools/gdb-bridge.c:475-477 | removing always takes the address out of both tables, in every run, if and only if one of the units has no comparators |
| GdbPacket.GdbCnxn.GdbRecv | tools/gdb-bridge.c:153-208 | the byte loop over the buffer is the receiver's run, and its position stays in the buffer |
| GdbPacket.FramesDelivered | tools/gdb-bridge.c:153-208 | any number of framed payloads, cut into chunks anyhow, is delivered once each, in order and intact |
| GdbPacket.FrameIs | tools/gdb-bridge.c:100-130 | a frame is a dollar sign, the payload, a hash, and the low byte of the payload's sum as two digits |
| GdbPacket.OversizeRun | tools/gdb-bridge.c:162-204 | a framed payload of 8192 bytes or more does what its bytes from the 8193rd on do to a waiting receiver, by the recursive description of those bytes |
| GdbPacket.OversizeDropped | tools/gdb-bridge.c:162-179 | it has no effect if and only if the receiver meets neither a dollar sign nor an interrupt byte behind the part it drops; up to 16384 bytes, if and only if none is there |
| GdbPacket.OversizeHarmless | tools/gdb-bridge.c:162-204 | it starts no command if and only if there is no interrupt byte there and no dollar sign with the right sum behind it |
| GdbPacket.TailDelivered | tools/gdb-bridge.c:162-204 | a payload of 8194 bytes whose last byte is delivered as a command of its own |
| GdbPacket.DeliveredWithinSize | tools/gdb-bridge.c:320 | a framed payload is delivered if and only if its frame is shorter than the announced packet size |
| GdbPacket.DeliversExactly | tools/gdb-bridge.c:186-204 | a frame is delivered if and only if its check characters read as the sum of its payload |
| GdbPacket.WrongChecksRejected | tools/gdb-bridge.c:194 | a pair of characters passes only for the sum it spells if and only if both are hexadecimal, or they are a minus sign and a hexadecimal digit other than 0 |
| GdbPacket.GdbCnxn.GdbEpilogue | tools/gdb-bridge.c:106-130 | sends the buffer with its checksum, or nothing when it has filled up |
| GdbPacket.SendsWholeOrNothing | tools/gdb-bridge.c:86-130 | a payload is sent as a whole frame if and only if it has at most 8186 bytes, and otherwise not at all |
| GdbPacket.HexReplyRoundTrip | tools/gdb-bridge.c:133-140 | data sent as hexadecimal is framed, received and decoded to itself |
| HexCodec.HexToBin | tools/gdb-bridge.c:220-232 | decoding in place gives what decoding a separate copy gives, and leaves the rest of the buffer |
| HexCodec.HexRoundTrip | tools/gdb-bridge.c:210-232 | decoding what was written gives the bytes back |
| HexCodec.HexIsNumeral | tools/gdb-bridge.c:132-140 | the text written for bytes is the hexadecimal numeral of the number they are, most significant byte and high digit first |
| HexCodec.StrtoulIsNumeral | tools/gdb-bridge.c:210-218 | a text of digits of either case is read as the numeral it is |
| Swo.SwvDecoder.ProcessSwoData | tools/swo.c:111-197 | the byte-by-byte decoder is the run of the state machine, and its packet buffer is never overrun |
| Swo.SynchronisesExactly | tools/swo.c:112-125 | a decoder that has lost its place is brought back by zeros and 80 if and only if it has counted five, modulo 2^32 |
| Swo.SyncThenDecode | tools/swo.c:111-190 | from any state and after any bytes, a synchronisation followed by any list of packets decodes to exactly that list |
| Swo.LostIsSilent | tools/swo.c:112-184 | a decoder that has lost its place hands on nothing and stays lost until it sees a synchronisation |
| Swo.NoSyncExactly | tools/swo.c:112-125 | seeing none is, up to 2^32 bytes, that 00 00 00 00 00 80 does not occur |
| Swo.LostThenDecodes | tools/swo.c:111-190 | a lost decoder hands on, over bytes without a synchronisation, then one, then any packets, exactly the packets |
| Swo.ReservedHeaderLoses | tools/swo.c:127-133 | a header with the low bits 100 makes the decoder lose its place |
| Swo.StreamDecodes | tools/swo.c:127-182 | any list of source, protocol and synchronisation packets decodes to exactly their meaning |
| Swo.StreamIsCalm | tools/swo.c:113-125 | over any list of source and protocol packets the zero count stays at four or less, so no packet is taken for a synchronisation |
| UsbConsole.UsbConsole.UcWrite | libfw/usbconsole.c:48-65 | hands the endpoint the oldest bytes, at most 64 and in one piece of the ring |
| UsbConsole.UsbConsole.PutcTurn | libfw/usbconsole.c:67-75 | one turn of the loop stores the byte, or waits and writes when it can |
| UsbConsole.Fifo | libfw/usbconsole.c:48-112 | over every interleaving, and through the wrap of the counters, bytes sent and bytes waiting are the bytes put, in order |
| UsbConsole.OnePacketAtATime | libfw/usbconsole.c:60-93 | there is never more than one write for each time the endpoint became free, and each write has 1 to 64 bytes |
| UsbConsole.RoomAfterTxEmpty | libfw/usbconsole.c:69-72 | a full ring gets room as soon as the endpoint is free |
| UsbConsole.Drains | libfw/usbconsole.c:88-93 | the ring is empty after exactly as many free endpoints as it holds packets, five at most |
| UsbConsole.FlushSends | libfw/usbconsole.c:77-86 | when printu ends the ring is empty or the endpoint has a packet |
| UsbConsole.BusyExactly | libfw/usbconsole.c:48-112 | the endpoint is taken to be busy only when given a packet or without a host, and free only when it says so and nothing waits |

## Left out

- CMD_DOWNLOAD and CMD_EXECUTE (m3debug/main.c:161-173): the host never sends them, and the download loop does not
  count down.
- The effect of CMD_ATTACH, CMD_RESET, CMD_TRACE, CMD_BOOTLOADER and CMD_SET_CLOCK on hardware: they are messages
  that touch no register of the target.
- Transfer sizes below a word, packed increments, banked data registers and the other access ports; reads that
  have side effects on memory; the sticky error flags of the debug port, which the code does not read either.
- WAIT answers without end: an access sees finitely many. The parity of a read is sampled by both drivers and
  looked at by neither, so nothing is said about corrupted data.
- The USB controller: -EBUSY, going offline in mid-transfer and timeouts. A transfer arrives whole or not at all.
- libusb, sockets, threads, files and printing: what they deliver is a parameter or a step.
- The exits of q_check and of the magic number (tools/rswdp.c:239-242, 361-366): preconditions on a transaction.
- swdp/main.c: a near copy of m3debug/main.c that pads at another length.
- Failed reads of the ROM table and of the comparator counts in the breakpoint code (failed writes are there); the
  counts do not change during a run.
- The thread lists, the queries and the `m` and `M` command texts of the GDB server; console lines of the SWV
  decoder.
- The interrupt window between the endpoint write and the tail update of the console (libfw/usbconsole.c:63-64).
- Attaching, resetting, loading the agent and its setup call before flashing: one flag that says whether it worked;
  flash, buffer and registers are arbitrary afterwards. A host whose size_t has 32 bits, where the sum in the bounds
  test wraps.
- In a call of the agent, the debug registers behind an exchange: each unexamined register write arrives or not, and
  each examined exchange is delivered or not. Waiting for the halt is one such exchange, and masking interrupts on
  resume is not there. A function started with other registers than the host meant may do anything.
- agents/lpc13xx_lpc15xx.c: it calls the boot ROM.
- Probe.M3Debug.ProcessTxn: transactions that are no list of messages, that contain CMD_DOWNLOAD or CMD_EXECUTE, or that ask for more than 513 reply words, none of which the host sends; the reply buffer is a sequence that grows, not an array, so that only its contents and its bound are shown.
- HostTxn.Txn.QAhbWrite: the transmit buffer is a sequence that grows, and reply destinations are places in one array of the caller's.
- HostTxn.ProcessReply: replies that do not parse, which the probe does not send (HostTxn.ReplyReadsBack, UsbFraming.ReplyCarried) and the code walks through anyway.
- UsbFraming.UsbXmit: errors of the endpoint and the return values for them.
- UsbFraming.UsbRecv: the timeout, errors of the endpoint and the return values for them.
- Bulk.AhbWrite32: addresses that are not word aligned, which the MEM-AP may refuse or round.
- Bulk.AhbRead32: the same, and when an exchange fails, the words asked for, since a reply with an error may fill in any first part of them.
- Ahb.AhbAccesses: reads with side effects, such as those of the core registers by way of the debug registers: memory is what was last stored.
- FlashHost.DoFlash: the download into the agent's buffer is one exchange that stores all or nothing; a failed one ends the command.
- Stm32Agent.Controller.FlashAgentWrite: records what is programmed; the agent does not read the flash back.
