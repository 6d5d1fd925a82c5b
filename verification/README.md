# Verification of the LT24 board support software

A Dafny model of the hardware abstraction layer, the device drivers and the bit-banged I2C code of
`Lab 6/software`, with machine-checked proofs about it. `dafny verify dfyconfig.toml` checks all of it.

## What is modelled

The methods have the source's own form: classes with its fields, its arrays and its loops. Each is proved
against a specification made of functions and predicates. The lemmas say what these mean in terms that do not name
them: the digits a letter prints, the size an id stands for, the descriptors a call leaves alone.

**JTAG UART** (`RingBuffers`, `JtagUartProtocol`, `JtagUart`). The two circular buffers are shared by a thread
and an interrupt routine without a lock. `JtagUartProtocol` is a step machine in which every shared access,
down to the copying of single bytes, is a step of its own, for any ring length of at least 2. Its invariant is
proved for every run. The methods of `JtagUart.Uart` record each of their accesses as a step of this machine, and
between any two of them `Interrupts` runs the interrupt and timeout routines any number of times, with any device
behaviour. What the control and data registers say is an argument of the interrupt routine, and what it does is stated
for every value of it. The device is assumed to report no further bytes in a data word that carries none.

**Serial flash** (`SerialFlash`, `AvalonSpi`, `EpcsCommands`, `EpcsFlash`). The chip is a NOR flash with a write
enable latch, busy status, 3- and 4-byte addresses, page wrap-around and command frames that take effect when it is
deselected. On it sit the credit-controlled SPI exchange, under any schedule of the ready flags, the commands,
and the compare-erase-program write. The write is specified by one function, the memory it leaves, and
proved for any device that is tiled by its regions and blocks.

**Alarms** (`AlarmTime`, `AlarmCourse`, `AlarmSchedule`, `AlarmPass`, `Alarms`). 32-bit times with a rollover flag
refine a schedule of unbounded deadlines, on a circular doubly linked list that callbacks change during the walk, by
starting and stopping alarms. `AlarmCourse` says, for any kind of clock, which alarms a walk visits and calls and what
it leaves; the 32-bit timers and the unbounded deadlines go through the same course. Every start, stop and tick is
recorded; unless an alarm was started for the longest wait, the state is at all times what the schedule makes of the
record.

**Time of day** (`TimeOfDay`), on the same counter. The source multiplies ticks by microseconds in 32 bits; the
lemmas say exactly when this loses time, and at which rates the clock steps back.

**File descriptors** (`FdTable`, `FdCalls`). Allocation, rollback, the high-water mark and device locks, over
all runs of open, close, ioctl and stream redirection.

**I2C** (`I2cBus`, `I2cMaster`). The master's register writes produce a waveform. A decoder, written from sections
3.1.3 to 3.1.6 of UM10204, turns it back into start conditions, bytes with their acknowledge bit, and stop
conditions; the decoder state of every valid port is the decoding of its whole waveform. Every change of SDA with
the clock high is decoded as a start or stop condition (`I2cBus.EdgesAreHeard`), so a call that says no other
items than intended makes no other such change. A memory chip reacts to the same wires, with any sequence of answers.

**Formatted output** (`Numerals`, `FormatStrings`, `Printf`). Both small printf functions, proved against a grammar
of format strings that reads back what it means.

`Arithmetic` holds the integer types and the facts about division by a variable that several files need, `Errno`
the error numbers.

## Where the code does not do what it says

- An alarm started for 2^32 - 1 ticks goes off at the next tick, unless the counter is about to wrap:
  `AlarmTime.StartedAlarmFirstFires` and `AlarmTime.LongestStartFiresEarly`.
- The comment on settimeofday promises that an immediate gettimeofday returns the time set. That holds
  exactly when the 32-bit product loses nothing that matters: `TimeOfDay.ImmediateReadBack`,
  `TimeOfDay.CutProductLosesTime`.
- The microseconds of a tick are cut to a whole number, so at most rates the clock runs backwards: it never steps
  back exactly at rates that divide 10^6 or exceed it: `TimeOfDay.MonotoneExactly`, `TimeOfDay.StepsBackAtFirstPast`,
  `TimeOfDay.StepBackExample`.
- The lock scan ends one short of the high-water mark, so a lock can be granted beside another descriptor:
  `FdTable.LockGrantMeans`, `FdTable.LockGrantedBesideAnother`.
- The walk takes the link to the next alarm before the callback. So a tick ends exactly if no callback that is made
  stops the alarm right behind its own; else the walk is left at that alarm, which is linked to itself:
  `Alarms.AlarmSystem.Tick` and `Alarms.AlarmSystem.Walk`, with `Alarms.StopNextExample` as one input. Should the
  callback start that alarm again as well, the walk goes on at the front of the list:
  `Alarms.AlarmSystem.RestartNextInWalk`.
- Starting an alarm that is registered already breaks the list: `Alarms.InsertAgain`.
- An I2C read of no bytes leaves the chip driving the first bit it would send. If that bit is low, neither the
  stop condition nor the start condition of the next call is heard: `I2cMaster.I2cPort.ReadCall` says so for every
  read call, `I2cMaster.EmptyReadOfMemory` with the exact condition on the memory, `I2cMaster.EmptyReadExample` for
  one input.

## Model

| member | source | states |
|---|---|---|
| `JtagUartProtocol.EveryRunKeepsInv` | Lab 6/software/LT24_bsp/drivers/src/altera_avalon_jtag_uart_write.c:100-139 | After every interleaving of single accesses by a writer, a reader, the interrupt routine and the timeout, of any length and for any ring size, the invariant holds: order and content of both streams, safety of stale indices, no lost wakeup |
| `JtagUartProtocol.StepKeepsInv` | Lab 6/software/LT24_bsp/drivers/src/altera_avalon_jtag_uart_init.c:117-197 | Each single access, taken in any state that meets the invariant, leads to one that does |
| `JtagUartProtocol.InitialInv` | Lab 6/software/LT24_bsp/drivers/src/altera_avalon_jtag_uart_init.c:66-76 | The state after initialisation meets the invariant, whatever the buffer cells hold |
| `JtagUartProtocol.TransmitLosesNothing` | Lab 6/software/LT24_bsp/drivers/src/altera_avalon_jtag_uart_write.c:103-127 | In every reachable state the bytes accepted from callers are the bytes sent followed by those waiting in the ring, in order, and at most length - 1 wait, although the room was computed from a stale read index |
| `JtagUartProtocol.ReceiveLosesNothing` | Lab 6/software/LT24_bsp/drivers/src/altera_avalon_jtag_uart_init.c:132-154 | In every reachable state the bytes taken from the device are the bytes delivered to readers followed by those waiting in the ring, in order, and at most length - 1 wait |
| `JtagUartProtocol.NoLostTransmitWakeup` | Lab 6/software/LT24_bsp/drivers/src/altera_avalon_jtag_uart_write.c:126-139 | Whenever bytes wait, the control register has transmit interrupts on, or the writer that published them is still before its critical section |
| `JtagUartProtocol.NoLostReceiveWakeup` | Lab 6/software/LT24_bsp/drivers/src/altera_avalon_jtag_uart_read.c:136-194 | Whenever the control register has receive interrupts off, the ring is full or a reader that made room is still before its critical section |
| `JtagUartProtocol.StoreNeverHitsReader` | Lab 6/software/LT24_bsp/drivers/src/altera_avalon_jtag_uart_init.c:137-150 | In no reachable state does the interrupt routine store into a cell that a reader is copying |
| `JtagUartProtocol.CopyNeverHitsWaitingBytes` | Lab 6/software/LT24_bsp/drivers/src/altera_avalon_jtag_uart_write.c:106-122 | In no reachable state does the writer overwrite a byte that is still to be sent |
| `JtagUartProtocol.StoreByteMissesReader` | Lab 6/software/LT24_bsp/drivers/src/altera_avalon_jtag_uart_init.c:137-150 | The store index lies outside the cells under copy, from the invariant alone |
| `JtagUartProtocol.PublishAppends` | Lab 6/software/LT24_bsp/drivers/src/altera_avalon_jtag_uart_write.c:122-126 | Moving the write index appends exactly the chunk that was copied to the waiting bytes |
| `JtagUartProtocol.PublishRemoves` | Lab 6/software/LT24_bsp/drivers/src/altera_avalon_jtag_uart_read.c:136-140 | Moving the read index removes exactly the bytes that were copied out |
| `RingBuffers.AdvanceIsRemainder` | Lab 6/software/LT24_bsp/drivers/src/altera_avalon_jtag_uart_write.c:126 | The index computed with the remainder operator is the index that many cells further round |
| `RingBuffers.RingAppend` | Lab 6/software/LT24_bsp/drivers/src/altera_avalon_jtag_uart_write.c:122-126 | Advancing the write index over n cells appends these n cells to the ring contents, across the wrap |
| `RingBuffers.RingRemove` | Lab 6/software/LT24_bsp/drivers/src/altera_avalon_jtag_uart_read.c:136-140 | Advancing the read index over n cells takes these n cells off the front, across the wrap |
| `RingBuffers.RingStoreElsewhere` | Lab 6/software/LT24_bsp/drivers/src/altera_avalon_jtag_uart_init.c:149 | A store outside the occupied cells leaves the ring contents alone |
| `JtagUart.Uart.constructor` | Lab 6/software/LT24_bsp/drivers/src/altera_avalon_jtag_uart_init.c:66-100 | Empty rings, receive interrupts on; without an alarm the host counts as present for ever |
| `JtagUart.Uart.DrainDevice` | Lab 6/software/LT24_bsp/drivers/src/altera_avalon_jtag_uart_init.c:125-167 | Takes exactly as many of the bytes in the device as there is room for, in order; turns receive interrupts off exactly when bytes are left behind: the ring was full already, or the last byte taken announced more |
| `JtagUart.Uart.TakeBytes` | Lab 6/software/LT24_bsp/drivers/src/altera_avalon_jtag_uart_init.c:127-154 | The receive loop takes exactly as many bytes as there is room for, in order; the word it ends with announces more exactly when bytes are left behind |
| `JtagUart.Uart.FillDevice` | Lab 6/software/LT24_bsp/drivers/src/altera_avalon_jtag_uart_init.c:169-195 | Sends exactly the smaller of the device's room and what waits, the oldest first; turns transmit interrupts off exactly when the device had room for more |
| `JtagUart.TurnsMadeMeans` | Lab 6/software/LT24_bsp/drivers/src/altera_avalon_jtag_uart_init.c:117-123 | The interrupt routine makes its turns up to the first control word that has neither interrupt pending |
| `JtagUart.NextTurn` | Lab 6/software/LT24_bsp/drivers/src/altera_avalon_jtag_uart_init.c:125-174 | Each turn adds the device's room if a transmit interrupt is pending, and the device's bytes if a receive interrupt is |
| `JtagUart.SomeLeftBehindMeans` | Lab 6/software/LT24_bsp/drivers/src/altera_avalon_jtag_uart_init.c:156-161 | Bytes were left in the device exactly if a turn with a receive interrupt met a full ring, or filled it with a byte that announced more |
| `JtagUart.ServedNext` | Lab 6/software/LT24_bsp/drivers/src/altera_avalon_jtag_uart_init.c:117-197 | One turn after k turns does to both directions and both interrupts what k + 1 turns do |
| `JtagUart.Uart.ServeAll` | Lab 6/software/LT24_bsp/drivers/src/altera_avalon_jtag_uart_init.c:117-197 | The loop makes exactly these turns |
| `JtagUart.Uart.Irq` | Lab 6/software/LT24_bsp/drivers/src/altera_avalon_jtag_uart_init.c:111-197 | For all that the control and data registers can say, over any number of turns: sends the smaller of the room in the device over all turns and what waits, and takes the smaller of what the device offers and the room in the ring, in order; each interrupt goes off exactly when its side has no more to do; what belongs to the threads is left alone |
| `JtagUart.Uart.NoWakeupLost` | Lab 6/software/LT24_bsp/drivers/src/altera_avalon_jtag_uart_write.c:126-139 | Between calls, bytes that wait to be sent have their interrupt on, and the receive interrupt is off only with a full ring |
| `JtagUart.Uart.Timeout` | Lab 6/software/LT24_bsp/drivers/src/altera_avalon_jtag_uart_init.c:203-225 | With the AC bit set it clears the bit and sets the counter to zero; without, it moves the counter on by one below its ceiling and leaves it there; no ring is touched |
| `JtagUart.Uart.Seconds` | Lab 6/software/LT24_bsp/drivers/src/altera_avalon_jtag_uart_init.c:203-225 | Over any number of seconds, in each of which the host gives a sign or not, with interrupts in between, the counter is for how many seconds the host has been silent |
| `JtagUart.CountedMeans` | Lab 6/software/LT24_bsp/drivers/src/altera_avalon_jtag_uart_init.c:210-217 | Without a sign of the host k seconds add k to the counter, up to INT_MAX - 2; after a sign it starts again from zero |
| `JtagUart.SilenceMeans` | Lab 6/software/LT24_bsp/drivers/src/altera_avalon_jtag_uart_init.c:210-217 | The silence is the longest stretch of seconds at the end without a sign of the host |
| `JtagUart.Uart.ChooseChunk` | Lab 6/software/LT24_bsp/drivers/src/altera_avalon_jtag_uart_write.c:105-120 | Chooses a prefix of the data that fits; none of it only when the ring was full |
| `JtagUart.Uart.CopyIntoRing` | Lab 6/software/LT24_bsp/drivers/src/altera_avalon_jtag_uart_write.c:122 | Copies a chunk byte by byte, with interrupts in between |
| `JtagUart.Uart.Publish` | Lab 6/software/LT24_bsp/drivers/src/altera_avalon_jtag_uart_write.c:126 | Hands the copied chunk over by moving the write index |
| `JtagUart.Uart.FillRing` | Lab 6/software/LT24_bsp/drivers/src/altera_avalon_jtag_uart_write.c:103-127 | Accepts a prefix of the data in order; all of it, unless the ring was full at some look |
| `JtagUart.Uart.TurnOnTransmit` | Lab 6/software/LT24_bsp/drivers/src/altera_avalon_jtag_uart_write.c:136-139 | The critical section: transmit interrupts are on in the variable and the register |
| `JtagUart.Uart.WriteRound` | Lab 6/software/LT24_bsp/drivers/src/altera_avalon_jtag_uart_write.c:100-139 | One round of a write: a prefix of what is left is accepted, all of it unless the ring was full at some look, and its sending is ensured |
| `JtagUart.Uart.AwaitRoom` | Lab 6/software/LT24_bsp/drivers/src/altera_avalon_jtag_uart_write.c:155-182 | A write waits until the routine has moved the read index or the host counts as gone; it is still waiting exactly if neither has happened in as many looks as it was given |
| `JtagUart.Uart.Write` | Lab 6/software/LT24_bsp/drivers/src/altera_avalon_jtag_uart_write.c:83-215 | Accepts a prefix of the data and returns its length or the right error; a call that stops short has taken at least what there was room for at entry; a blocking call gives up only on an inactive host |
| `JtagUart.Uart.ChooseBytes` | Lab 6/software/LT24_bsp/drivers/src/altera_avalon_jtag_uart_read.c:122-134 | Chooses contiguous waiting bytes; none only when nothing waited |
| `JtagUart.Uart.AwaitBytes` | Lab 6/software/LT24_bsp/drivers/src/altera_avalon_jtag_uart_read.c:176-178 | A read spins until the write index has moved or the host has been inactive for the timeout |
| `JtagUart.Uart.CopyOutOfRing` | Lab 6/software/LT24_bsp/drivers/src/altera_avalon_jtag_uart_read.c:136 | Copies bytes out one by one, with interrupts in between |
| `JtagUart.Uart.DrainRing` | Lab 6/software/LT24_bsp/drivers/src/altera_avalon_jtag_uart_read.c:120-142 | Delivers waiting bytes in order; fewer than asked for only when all that was there at entry is delivered |
| `JtagUart.Uart.TurnOnReceive` | Lab 6/software/LT24_bsp/drivers/src/altera_avalon_jtag_uart_read.c:191-194 | The critical section: receive interrupts are on in the variable and the register |
| `JtagUart.Uart.Read` | Lab 6/software/LT24_bsp/drivers/src/altera_avalon_jtag_uart_read.c:100-203 | The buffer starts with exactly the bytes delivered, the rest of it is untouched; returns their number or the right error; delivers at least what waited at entry or fills the request; a blocking call comes back with nothing only after it saw the host inactive for the timeout, with nothing waiting |
| `JtagUart.Uart.Close` | Lab 6/software/LT24_bsp/drivers/src/altera_avalon_jtag_uart_init.c:241-254 | Returns 0 only when all accepted bytes were sent or the host timed out; refuses to wait in non-blocking mode exactly with bytes left; is still waiting only with bytes left and the host present, after as many looks as it was given |
| `SerialFlash.AddressRoundTrip` | Lab 6/software/LT24_bsp/drivers/src/epcs_commands.c:70-87 | The 3 or 4 address bytes read back as the offset if and only if it is below 2^24 or 2^32 |
| `SerialFlash.BitAndErased` | Lab 6/software/LT24_bsp/drivers/src/altera_avalon_epcs_flash_controller.c:437-444 | Programming an erased byte stores the byte |
| `SerialFlash.ExchangeFillsFrame` | Lab 6/software/LT24_bsp/drivers/src/altera_avalon_spi.c:78-118 | Shifting bytes other than a status command into a selected chip only adds them to its frame |
| `SerialFlash.ExchangeSplit` | Lab 6/software/LT24_bsp/drivers/src/altera_avalon_spi.c:130-131 | Two exchanges without deselecting in between are one exchange |
| `SerialFlash.ReadAnswers` | Lab 6/software/LT24_bsp/drivers/src/epcs_commands.c:110-153 | After a read command the chip answers memory from the address on, wrapping at the end |
| `AvalonSpi.SpiPort.AwaitReady` | Lab 6/software/LT24_bsp/drivers/src/altera_avalon_spi.c:82-87 | Polling ends exactly with room and a credit, or with a byte to fetch |
| `AvalonSpi.SpiPort.SendNext` | Lab 6/software/LT24_bsp/drivers/src/altera_avalon_spi.c:89-102 | Sends the next byte to write or else the next zero; the branch that sets credits to -1024 is never reached |
| `AvalonSpi.SpiPort.FetchNext` | Lab 6/software/LT24_bsp/drivers/src/altera_avalon_spi.c:104-116 | Ignores the byte that came in or stores it at the next place, and gives the credit back |
| `AvalonSpi.SpiPort.FetchStep` | Lab 6/software/LT24_bsp/drivers/src/altera_avalon_spi.c:104-116 | Keeps the bookkeeping: one credit is out exactly while one answer is due; the loop ends exactly after the last answer, with all bytes sent |
| `AvalonSpi.SpiPort.ClockOnce` | Lab 6/software/LT24_bsp/drivers/src/altera_avalon_spi.c:80-116 | One turn of the loop sends or fetches a byte and keeps the bookkeeping; the last one has sent all bytes and fetched all answers |
| `AvalonSpi.SpiPort.Clock` | Lab 6/software/LT24_bsp/drivers/src/altera_avalon_spi.c:78-118 | For every ready-flag schedule: sends the bytes to write followed by zeros, each once and in order, and stores exactly the answers after the bytes written |
| `AvalonSpi.SpiPort.Command` | Lab 6/software/LT24_bsp/drivers/src/altera_avalon_spi.c:41-134 | For both flags, merge and toggle: the whole command is one chip transaction, the first part of one, or one whose bytes are selected singly; the rest of the buffer is untouched |
| `AvalonSpi.SpiPort.AwaitTransmitted` | Lab 6/software/LT24_bsp/drivers/src/altera_avalon_spi.c:120-125 | Waits until nothing is on its way and the transmitter has said so, without which the chip must not be deselected |
| `EpcsCommands.FrameEffect` | Lab 6/software/LT24_bsp/drivers/src/altera_avalon_spi.c:127-131 | A transaction without answers has the effect of its frame, once, at deselection |
| `EpcsCommands.MergedEffect` | Lab 6/software/LT24_bsp/drivers/src/epcs_commands.c:215-238 | A header sent with the merge flag and the data after it act as one frame |
| `EpcsCommands.CommandAddress` | Lab 6/software/LT24_bsp/drivers/src/epcs_commands.c:70-87 | The address a chip takes from a command frame is the offset the frame was made from, cut to the address bits of the mode and taken round the memory; an offset in the device is its own cell |
| `EpcsCommands.OwnCell` | Lab 6/software/LT24_bsp/drivers/src/epcs_commands.c:70-87 | Every offset inside a device that the mode can address reaches the cell of that number |
| `EpcsCommands.Send` | Lab 6/software/LT24_bsp/drivers/src/epcs_commands.c:155-167 | Sends one frame; the chip executes exactly that frame |
| `EpcsCommands.Ask` | Lab 6/software/LT24_bsp/drivers/src/epcs_commands.c:110-153 | A command that only reads answers as the chip answers to it alone and leaves the chip as it was |
| `EpcsCommands.ReadStatusRegister` | Lab 6/software/LT24_bsp/drivers/src/epcs_commands.c:35-50 | Returns the status and changes nothing else |
| `EpcsCommands.AwaitWipReleased` | Lab 6/software/LT24_bsp/drivers/src/epcs_commands.c:57-63 | Ends with the chip no longer busy, and changes nothing else |
| `EpcsCommands.WriteEnable` | Lab 6/software/LT24_bsp/drivers/src/epcs_commands.c:155-167 | Sets the write enable latch |
| `EpcsCommands.Enter4BytesMode` | Lab 6/software/LT24_bsp/drivers/src/epcs_commands.c:293-311 | Puts the chip in 4-byte address mode |
| `EpcsCommands.Exit4BytesMode` | Lab 6/software/LT24_bsp/drivers/src/epcs_commands.c:313-331 | Puts the chip back in 3-byte address mode |
| `EpcsCommands.SectorErase` | Lab 6/software/LT24_bsp/drivers/src/epcs_commands.c:65-108 | Sets exactly the sector that holds the offset to 0xFF; starts and ends idle, not busy, in 3-byte mode |
| `EpcsCommands.WriteBuffer` | Lab 6/software/LT24_bsp/drivers/src/epcs_commands.c:190-254 | Programs the data from the offset on as one chip operation; starts and ends idle, not busy, in 3-byte mode |
| `EpcsCommands.ReadBuffer` | Lab 6/software/LT24_bsp/drivers/src/epcs_commands.c:110-153 | Fills the buffer with memory from the offset on and leaves the memory alone, also if an erase or program was still in progress; ends in 3-byte mode |
| `EpcsCommands.ReadElectronicSignature` | Lab 6/software/LT24_bsp/drivers/src/epcs_commands.c:257-273 | Returns the chip's signature byte |
| `EpcsCommands.ReadDeviceId` | Lab 6/software/LT24_bsp/drivers/src/epcs_commands.c:275-291 | Returns the three identification bytes as one number, first byte on top |
| `EpcsFlash.TestAddressMeans` | Lab 6/software/LT24_bsp/drivers/src/altera_avalon_epcs_flash_controller.c:392-412 | The unsigned comparison passes exactly the addresses of the device, so negative offsets fail |
| `EpcsFlash.IdentifyMeans` | Lab 6/software/LT24_bsp/drivers/src/altera_avalon_epcs_flash_controller.c:94-218 | Exactly which signatures and device ids are recognised; the size is 2^(signature + 1), or 2^density from the last id byte (density - 6 from 0x20 on); 4-byte addresses exactly above 2^24 bytes; the sector sizes; the sectors fill the device |
| `EpcsFlash.GeometrySound` | Lab 6/software/LT24_bsp/drivers/src/altera_avalon_epcs_flash_controller.c:94-220 | Every recognised device is tiled by its blocks, blocks are whole pages, and the address bytes sent for each offset read back as that offset |
| `EpcsFlash.PiecesPartition` | Lab 6/software/LT24_bsp/drivers/src/altera_avalon_epcs_flash_controller.c:462-473 | The pieces are the data, in order and without gaps, each non-empty and inside one page |
| `EpcsFlash.ProgramInPage` | Lab 6/software/LT24_bsp/drivers/src/epcs_commands.c:215-238 | Inside one page, programming is a bitwise and over exactly the bytes of the piece: no wrap-around |
| `EpcsFlash.ProgramPiecesMeans` | Lab 6/software/LT24_bsp/drivers/src/altera_avalon_epcs_flash_controller.c:462-473 | Programming piece by piece is a bitwise and over exactly the range |
| `EpcsFlash.WrappedDataMeans` | Lab 6/software/LT24_bsp/drivers/src/altera_avalon_epcs_flash_controller.c:462-473 | Data of any length that runs over the end of the device goes on at its beginning, as often as it takes: each cell meets the byte that is as far from the start of the data as the cell is, going round, from the offset, and those a whole round further on |
| `EpcsFlash.GeometryWraps` | Lab 6/software/LT24_bsp/drivers/src/altera_avalon_epcs_flash_controller.c:94-220 | Every recognised device has whole pages and a size that divides the range of its address bytes, so this holds for all of them |
| `EpcsFlash.ErasedThenProgrammed` | Lab 6/software/LT24_bsp/drivers/src/altera_avalon_epcs_flash_controller.c:326-339 | Erasing a block and programming data into it leaves the data between erased cells, and all other blocks alone |
| `EpcsFlash.WrittenHoldsSource` | Lab 6/software/LT24_bsp/drivers/src/altera_avalon_epcs_flash_controller.c:292-358 | After a write every address of the range that the device has holds its byte of the source |
| `EpcsFlash.WrittenElsewhere` | Lab 6/software/LT24_bsp/drivers/src/altera_avalon_epcs_flash_controller.c:279-291 | Bytes outside the range are unchanged or 0xFF, and unchanged in blocks that do not meet the range |
| `EpcsFlash.BoundarySeparates` | Lab 6/software/LT24_bsp/drivers/src/altera_avalon_epcs_flash_controller.c:303-316 | Addresses on different sides of a block boundary are in different blocks, for any tiling by regions |
| `EpcsFlash.BlockHolds` | Lab 6/software/LT24_bsp/drivers/src/altera_avalon_epcs_flash_controller.c:303-316 | Addresses between neighbouring boundaries are in the same block |
| `EpcsFlash.ProgressBlock` | Lab 6/software/LT24_bsp/drivers/src/altera_avalon_epcs_flash_controller.c:314-350 | Updating the next block with its part of the source moves the line between new and old memory over that block |
| `EpcsFlash.ProgressOver` | Lab 6/software/LT24_bsp/drivers/src/altera_avalon_epcs_flash_controller.c:303-352 | Blocks that the range does not meet are as they are to be already |
| `EpcsFlash.CompareBytes` | Lab 6/software/LT24_bsp/drivers/src/altera_avalon_epcs_flash_controller.c:263 | Zero exactly for equal bytes |
| `EpcsFlash.CompareSign` | Lab 6/software/LT24_bsp/drivers/src/altera_avalon_epcs_flash_controller.c:263 | The sign is that of the first difference |
| `EpcsFlash.FlashDev.Query` | Lab 6/software/LT24_bsp/drivers/src/altera_avalon_epcs_flash_controller.c:80-224 | Fills in the description of every recognised device, with the size its ids say, which all later operations may rely on; an unknown device gives -ENODEV; the chip is unchanged |
| `EpcsFlash.FlashDev.EraseBlock` | Lab 6/software/LT24_bsp/drivers/src/altera_avalon_epcs_flash_controller.c:420-435 | Erases the block of the offset; outside the device fails and does nothing |
| `EpcsFlash.FlashDev.WriteBlock` | Lab 6/software/LT24_bsp/drivers/src/altera_avalon_epcs_flash_controller.c:445-476 | Programs the data in one chip operation per page piece, also when the data runs over the end of the device; an offset outside fails and does nothing |
| `EpcsFlash.FlashDev.Read` | Lab 6/software/LT24_bsp/drivers/src/altera_avalon_epcs_flash_controller.c:483-506 | Reads from the offset on; outside the device fails and leaves the buffer alone |
| `EpcsFlash.FlashDev.Memcmp` | Lab 6/software/LT24_bsp/drivers/src/altera_avalon_epcs_flash_controller.c:226-277 | Zero exactly when every chunk starts inside the device and the memory equals the source, for ranges that leave the device as well; otherwise the sign is that of the first difference if its chunk can be read; -1 when the first chunk is outside |
| `EpcsFlash.FlashDev.CompareChunk` | Lab 6/software/LT24_bsp/drivers/src/altera_avalon_epcs_flash_controller.c:240-271 | One turn of the loop: goes on exactly when the chunk starts inside the device and holds its part of the source |
| `EpcsFlash.FlashDev.UpdateBlock` | Lab 6/software/LT24_bsp/drivers/src/altera_avalon_epcs_flash_controller.c:318-339 | Erases and programs a block exactly when it does not hold its part of the source yet |
| `EpcsFlash.FlashDev.WriteIntoBlock` | Lab 6/software/LT24_bsp/drivers/src/altera_avalon_epcs_flash_controller.c:314-350 | One turn of the block loop: the memory is as it is to be up to the next boundary, or up to the end once the source is used up |
| `EpcsFlash.FlashDev.WriteIntoRegion` | Lab 6/software/LT24_bsp/drivers/src/altera_avalon_epcs_flash_controller.c:312-352 | The loop over the blocks of one region |
| `EpcsFlash.FlashDev.WriteOneRegion` | Lab 6/software/LT24_bsp/drivers/src/altera_avalon_epcs_flash_controller.c:303-353 | One turn of the region loop, with a region that the offset is in or not in |
| `EpcsFlash.FlashDev.Write` | Lab 6/software/LT24_bsp/drivers/src/altera_avalon_epcs_flash_controller.c:292-358 | The final memory is exactly the written memory, for any regions that tile the device and any offset and length; nothing is erased or programmed when all is there already |
| `AlarmTime.TickIsExact` | Lab 6/software/LT24_bsp/HAL/src/alt_tick.c:109-115 | A callback is made exactly at the tick that is the unbounded deadline; until then the deadline stays what it was |
| `AlarmTime.RearmIsExact` | Lab 6/software/LT24_bsp/HAL/src/alt_tick.c:125-138 | An answered interval of 1 to 2^32 - 1 sets the deadline exactly that many ticks later |
| `AlarmTime.StartIsExact` | Lab 6/software/LT24_bsp/HAL/src/alt_alarm_start.c:80-92 | A start for n ticks sets the deadline N + n + 1 if and only if n is at most 2^32 - 2 |
| `AlarmTime.FirstFiresAtDeadline` | Lab 6/software/LT24_bsp/HAL/src/alt_tick.c:96-141 | Through any number of counter wraps the first callback comes exactly at the deadline |
| `AlarmTime.StartedAlarmFirstFires` | Lab 6/software/LT24_bsp/HAL/src/alt_alarm_start.c:80-98 | The first callback comes at tick N + n + 1 if and only if n is at most 2^32 - 2 or the counter is about to wrap |
| `AlarmTime.RearmedAlarmFirstFires` | Lab 6/software/LT24_bsp/HAL/src/alt_tick.c:121-138 | After a callback the next one comes exactly the answered interval later |
| `AlarmTime.LongestStartFiresEarly` | Lab 6/software/LT24_bsp/HAL/src/alt_alarm_start.c:80-98 | A concrete failing input: 2^32 - 1 ticks, asked for right after reset, give a callback at the very next tick |
| `AlarmCourse.EachHasItsTurn` | Lab 6/software/LT24_bsp/HAL/src/alt_tick.c:100-141 | A walk in which no callback stops the alarm right behind its own visits the alarms in list order, each once, except those that a callback made before their turn has stopped; it calls just those of them that are due |
| `AlarmCourse.CalledInTurn` | Lab 6/software/LT24_bsp/HAL/src/alt_tick.c:100-119 | An alarm is visited once or, if stopped before its turn, not at all; it is called exactly if it is visited and due |
| `AlarmCourse.CourseLeaves` | Lab 6/software/LT24_bsp/HAL/src/alt_tick.c:109-141 | An alarm that the callbacks leave alone is called exactly if it is due; if not due it keeps its time, else it waits for the interval it answers or, if that is 0, is out |
| `AlarmCourse.CourseLeavesOthers` | Lab 6/software/LT24_bsp/HAL/src/alt_tick.c:100-141 | An alarm that is left alone and not met by the walk is not called and keeps its wait |
| `AlarmCourse.NewcomerWaits` | Lab 6/software/LT24_bsp/HAL/src/alt_alarm_start.c:64-112 | An alarm that a callback of the walk starts, and that is left alone after that, has the wait it was started for and no other |
| `AlarmCourse.OnlyMetAreCalled` | Lab 6/software/LT24_bsp/HAL/src/alt_tick.c:100-119 | An alarm that was not registered when the walk began is neither visited nor called in it |
| `AlarmCourse.ActedSplit` | Lab 6/software/LT24_bsp/HAL/inc/sys/alt_llist.h:90-117 | What callbacks do to a list: an alarm that is started comes in front, one that is stopped goes, wherever it is |
| `AlarmSchedule.NextCalls` | Lab 6/software/LT24_bsp/HAL/src/alt_tick.c:119-139 | At the tick of its deadline an alarm that is left alone is called once, and then waits for just the interval it answers, or is out if that is 0 |
| `AlarmSchedule.CalledAtDeadline` | Lab 6/software/LT24_bsp/HAL/src/alt_tick.c:87-148 | Through any run of starts, stops and ticks in which nobody starts or stops it, an alarm is not called before its deadline, waits for it until then, and has been called once it has come |
| `AlarmSchedule.StartReplayed` | Lab 6/software/LT24_bsp/HAL/src/alt_alarm_start.c:64-112 | In any run from reset: an alarm started for n ticks and left alone is called n + 1 ticks later, not earlier |
| `AlarmSchedule.AnswerReplayed` | Lab 6/software/LT24_bsp/HAL/src/alt_tick.c:119-139 | In any run from reset: an alarm that is called and answers an interval is called once then, not again before the interval is over, and again once it is |
| `AlarmPass.VisitRefines` | Lab 6/software/LT24_bsp/HAL/src/alt_tick.c:109-139 | One visit of a 32-bit timer is one step of the unbounded schedule |
| `AlarmPass.ActedRefines` | Lab 6/software/LT24_bsp/HAL/src/alt_alarm_start.c:80-98 | Alarms that callbacks start have the deadlines of the unbounded schedule, unless they ask for the longest wait |
| `AlarmPass.CourseRefines` | Lab 6/software/LT24_bsp/HAL/src/alt_tick.c:87-148 | The walk over 32-bit timers makes the visits and callbacks of the unbounded schedule, ends exactly when that does, and leaves its deadlines |
| `AlarmPass.CourseInRange` | Lab 6/software/LT24_bsp/HAL/src/alt_tick.c:87-148 | Times stay in 32 bits, whatever callbacks start, stop and answer |
| `Alarms.Insert` | Lab 6/software/LT24_bsp/HAL/inc/sys/alt_llist.h:90-98 | The entry becomes the first of a well-formed circular doubly linked list |
| `Alarms.InsertAgain` | Lab 6/software/LT24_bsp/HAL/inc/sys/alt_llist.h:90-98 | Inserting an entry that is in the list: the links lead from the head to it, through the alarms that were in front of it, and back to it, so never to the head again |
| `Alarms.Remove` | Lab 6/software/LT24_bsp/HAL/inc/sys/alt_llist.h:105-117 | The list without the entry is well formed, and the entry is linked to itself; removing an entry that is in no list changes nothing |
| `Alarms.AlarmSystem.SysclkInit` | Lab 6/software/LT24_bsp/HAL/inc/sys/alt_alarm.h:93-104 | Sets the clock rate the first time and refuses after that |
| `Alarms.AlarmSystem.Register` | Lab 6/software/LT24_bsp/HAL/src/alt_alarm_start.c:80-98 | Sets time and flag and makes the alarm the first of the list; all other timers are kept |
| `Alarms.AlarmSystem.Start` | Lab 6/software/LT24_bsp/HAL/src/alt_alarm_start.c:64-112 | Puts the alarm first in the list with the deadline asked for; other alarms keep theirs; the longest wait loses the property that all deadlines lie ahead; error codes without a clock or an alarm; goes on record, and the record replayed is the state |
| `Alarms.AlarmSystem.Unregister` | Lab 6/software/LT24_bsp/HAL/src/alt_tick.c:66-73 | Takes the alarm out of the list wherever it is, and links it to itself |
| `Alarms.AlarmSystem.Stop` | Lab 6/software/LT24_bsp/HAL/src/alt_tick.c:66-73 | The same, with all other waits kept, and goes on record |
| `Alarms.AlarmSystem.DoAll` | Lab 6/software/LT24_bsp/HAL/src/alt_tick.c:119 | What a callback does, in order: any starts and stops; timers of alarms that it does not start are kept |
| `Alarms.AlarmSystem.Callback` | Lab 6/software/LT24_bsp/HAL/src/alt_tick.c:119-139 | The callback is made, may start and stop alarms, its own included in the stops, and its answer unlinks the alarm or sets its new time, in the list or out of it |
| `Alarms.AlarmSystem.Visit` | Lab 6/software/LT24_bsp/HAL/src/alt_tick.c:109-139 | One alarm, registered or not: flag, callback, deactivation or new time |
| `Alarms.AlarmSystem.WalkOne` | Lab 6/software/LT24_bsp/HAL/src/alt_tick.c:100-141 | One turn, with the next link taken before the callback: it leads to the first of those left behind, or to the head, exactly if the callback does not stop the alarm right behind its own; else to that alarm, in no list now |
| `Alarms.AlarmSystem.Walk` | Lab 6/software/LT24_bsp/HAL/src/alt_tick.c:100-141 | The walk comes to the head exactly if no callback that is made stops the alarm right behind its own, and then list, callbacks and visits are those of its course; else it is at that alarm after any number of further turns, whatever these callbacks start and stop |
| `Alarms.AlarmSystem.WalkStray` | Lab 6/software/LT24_bsp/HAL/src/alt_tick.c:100-141 | From an alarm linked to itself no number of turns leads on, unless its callback starts it again |
| `Alarms.AlarmSystem.RestartNextInWalk` | Lab 6/software/LT24_bsp/HAL/src/alt_tick.c:100-141 | A callback that stops the alarm right behind its own and starts it again: the link then leads to the front of the list and on to the alarm that was the first |
| `Alarms.AlarmSystem.Tick` | Lab 6/software/LT24_bsp/HAL/src/alt_tick.c:87-148 | One tick, with callbacks that start and stop alarms: it ends exactly if none that is made stops the alarm right behind its own; then each alarm registered at entry and not stopped before its turn is visited once, in order, and with all deadlines ahead callbacks and new deadlines are exactly those of the unbounded schedule; goes on record |
| `Alarms.AlarmSystem.StartedIsCalledOnTime` | Lab 6/software/LT24_bsp/HAL/src/alt_alarm_start.c:64-112 | Over the whole life of the system, while its state is the replay of its record: an alarm started and since left alone has not been called before the tick it asked for, and has been called once that tick has come |
| `Alarms.AlarmSystem.AnswerIsFollowed` | Lab 6/software/LT24_bsp/HAL/src/alt_tick.c:119-139 | The same of every interval that a callback has answered |
| `Alarms.TickWithStop` | Lab 6/software/LT24_bsp/HAL/src/alt_tick.c:87-148 | Any tick at which a callback that is made stops the alarm right behind its own does not end |
| `Alarms.StopNextExample` | Lab 6/software/LT24_bsp/HAL/src/alt_tick.c:87-148 | A concrete run: two started alarms, the first of which stops the second; the tick does not end, however many turns it is followed |
| `TimeOfDay.NormaliseKeepsTime` | Lab 6/software/LT24_bsp/HAL/src/alt_gettod.c:95-112 | Borrowing and carrying keep the time, unless it is negative |
| `TimeOfDay.ProductFitsMeans` | Lab 6/software/LT24_bsp/HAL/src/alt_settod.c:82-84 | The 32-bit product keeps the part below a second if and only if its overflow is a multiple of 15625; so always below 2^32 |
| `TimeOfDay.ImmediateReadBack` | Lab 6/software/LT24_bsp/HAL/src/alt_settod.c:56-66 | An immediate gettimeofday returns the time just set if and only if the product fitted, or the error runs into the stop at zero |
| `TimeOfDay.ElapsedReadBack` | Lab 6/software/LT24_bsp/HAL/src/alt_gettod.c:91-112 | At every rate: a later gettimeofday returns the time set plus what the counter shows to have passed if and only if that is not before zero and the product fitted when the time was set, or it is zero and the error runs into the stop at zero |
| `TimeOfDay.ShownIsTime` | Lab 6/software/LT24_bsp/HAL/src/alt_gettod.c:91-93 | The counter shows at every tick the time that the ticks stand for if and only if the rate divides 10^6 |
| `TimeOfDay.ElapsedTime` | Lab 6/software/LT24_bsp/HAL/src/alt_gettod.c:91-93 | At such rates what it shows to have passed between two ticks is the number of ticks times the microseconds of a tick |
| `TimeOfDay.ReadBackMonotone` | Lab 6/software/LT24_bsp/HAL/src/alt_gettod.c:91-112 | At a rate that divides 10^6 or exceeds it, of two reads the later one shows no earlier time, whatever the product lost when the clock was set |
| `TimeOfDay.MonotoneExactly` | Lab 6/software/LT24_bsp/HAL/src/alt_gettod.c:91-112 | The clock never steps back, whenever it is set and read, if and only if the rate divides 10^6 or exceeds it |
| `TimeOfDay.StepsBackAtFirstPast` | Lab 6/software/LT24_bsp/HAL/src/alt_gettod.c:91-112 | At every other rate a clock set to zero at reset steps back, by 10^6 less the microseconds of a tick, at the first tick whose microseconds add up to a second |
| `TimeOfDay.ShownStepsBack` | Lab 6/software/LT24_bsp/HAL/src/alt_gettod.c:91-93 | That tick lies strictly between one and two seconds' ticks |
| `TimeOfDay.ShownAscendsBefore` | Lab 6/software/LT24_bsp/HAL/src/alt_gettod.c:91-93 | Before that tick the counter never shows an earlier time |
| `TimeOfDay.StepBackExample` | Lab 6/software/LT24_bsp/HAL/src/alt_gettod.c:91-112 | A concrete failing input: at 1024 ticks a second the clock goes from 1.999424 s at tick 1024 back to 1.000400 s at tick 1025 |
| `TimeOfDay.ReadBackNotBefore` | Lab 6/software/LT24_bsp/HAL/src/alt_gettod.c:91-112 | At a rate that divides 10^6 or exceeds it, no time earlier than the one set is read if the product fitted |
| `TimeOfDay.CutProductLosesTime` | Lab 6/software/LT24_bsp/HAL/src/alt_settod.c:82-84 | A concrete failing input: at 1000 ticks a second a clock set at tick 4294968 is wrong at once |
| `TimeOfDay.Clock.SetTimeOfDay` | Lab 6/software/LT24_bsp/HAL/src/alt_settod.c:72-96 | Stores the time at reset that corresponds to the time given, or fails without a clock |
| `TimeOfDay.Clock.GetTimeOfDay` | Lab 6/software/LT24_bsp/HAL/src/alt_gettod.c:71-124 | Returns the normalised current time and the time zone, or fails without a clock |
| `TimeOfDay.SetThenGet` | Lab 6/software/LT24_bsp/HAL/src/alt_settod.c:56-66 | Setting the clock and reading it later, as one program |
| `FdTable.CallKeepsInv` | Lab 6/software/LT24_bsp/HAL/src/alt_open.c:105-171 | Every open, close, ioctl and redirection keeps the table well: standard streams allocated, free slots without flags, allocated slots at or below the high-water mark, locks only on devices |
| `FdTable.EveryRunKeepsInv` | Lab 6/software/LT24_bsp/HAL/src/alt_get_fd.c:77-89 | So does every sequence of calls |
| `FdTable.InitialInv` | Lab 6/software/LT24_bsp/HAL/src/alt_dev.c:118-149 | The table at reset is well |
| `FdTable.OpenGivesLeastFree` | Lab 6/software/LT24_bsp/HAL/src/alt_get_fd.c:77-89 | A successful open returns the least free index, above 2, and changes that slot only |
| `FdTable.FailedOpenRestores` | Lab 6/software/LT24_bsp/HAL/src/alt_open.c:159-166 | A failed open leaves every descriptor as it was |
| `FdTable.OpenFailsExactly` | Lab 6/software/LT24_bsp/HAL/src/alt_open.c:105-171 | An open fails exactly when there is no such device, no free descriptor, another descriptor that holds the device, or a device whose own open fails; the first of these is what it reports |
| `FdTable.LockedMeansHeld` | Lab 6/software/LT24_bsp/HAL/src/alt_open.c:79-87 | The scan of an open meets a lock exactly if some descriptor holds the device |
| `FdTable.CloseFrees` | Lab 6/software/LT24_bsp/HAL/src/alt_close.c:77-99 | Closing frees a descriptor above 2 and no other, whatever the device's own close answers; it returns -1 exactly for a bad descriptor or a failed close of the device |
| `FdTable.CloseUndoesOpen` | Lab 6/software/LT24_bsp/HAL/src/alt_close.c:77-94 | Closing what was just opened leaves every descriptor as it was before, whatever the device's own close answers |
| `FdTable.RedirectPointsStream` | Lab 6/software/LT24_bsp/HAL/src/alt_io_redirect.c:58-72 | A redirected stream is the newly opened device, and no other descriptor changes; if the open fails none does |
| `FdTable.LockTakesHold` | Lab 6/software/LT24_bsp/HAL/src/alt_ioctl.c:127-132 | A granted TIOCEXCL makes its descriptor the holder of the device and changes nothing else; a refused one returns -EACCES, changes nothing, and another descriptor names the device |
| `FdTable.UnlockEndsHold` | Lab 6/software/LT24_bsp/HAL/src/alt_ioctl.c:133-137 | TIOCNXCL returns 0, ends the hold and changes nothing else |
| `FdTable.OtherRequestsPass` | Lab 6/software/LT24_bsp/HAL/src/alt_ioctl.c:145-160 | Any other request is answered by the device, with -ENOTTY if it cannot, or -EBADFD for a bad descriptor, and changes nothing |
| `FdTable.LockKeepsNewcomersOut` | Lab 6/software/LT24_bsp/HAL/src/alt_ioctl.c:106-168 | From a granted TIOCEXCL on, over any run that does not end the hold: every open of the device fails and no descriptor comes to name it |
| `FdTable.LockExample` | Lab 6/software/LT24_bsp/HAL/src/alt_ioctl.c:127-133 | Opened, locked, refused to the next, closed, and open to the next again, from reset |
| `FdTable.HeldDeviceRefusesOpen` | Lab 6/software/LT24_bsp/HAL/src/alt_open.c:79-87 | While a descriptor holds a device, every open of it fails with -1 and changes no descriptor |
| `FdTable.CallKeepsHold` | Lab 6/software/LT24_bsp/HAL/src/alt_ioctl.c:127-139 | A call that does not end the hold keeps it, and no further descriptor comes to name the device |
| `FdTable.HoldExcludesNewcomers` | Lab 6/software/LT24_bsp/HAL/src/alt_open.c:64-92 | Over any run without the holder's release or close, the set of descriptors that name the device never grows |
| `FdTable.LockGrantMeans` | Lab 6/software/LT24_bsp/HAL/src/alt_fd_lock.c:61-69 | The scan ends one short: a granted lock means sole ownership if and only if the descriptor at the high-water mark is the holder or names another device |
| `FdTable.LockGrantedBesideAnother` | Lab 6/software/LT24_bsp/HAL/src/alt_fd_lock.c:61-69 | A concrete run in which a lock is granted beside another open descriptor |
| `FdCalls.Descriptors.constructor` | Lab 6/software/LT24_bsp/HAL/src/alt_dev.c:118-149 | The pool at reset |
| `FdCalls.Descriptors.GetFd` | Lab 6/software/LT24_bsp/HAL/src/alt_get_fd.c:54-101 | Takes the first free slot and moves the high-water mark, or fails with -EMFILE and changes nothing |
| `FdCalls.Descriptors.ReleaseFd` | Lab 6/software/LT24_bsp/HAL/src/alt_release_fd.c:44-54 | Frees the slot, unless it is a standard stream |
| `FdCalls.Descriptors.FileLocked` | Lab 6/software/LT24_bsp/HAL/src/alt_open.c:64-92 | Refuses exactly when another descriptor up to the high-water mark holds the device |
| `FdCalls.Descriptors.Open` | Lab 6/software/LT24_bsp/HAL/src/alt_open.c:105-171 | The pool, the result and errno are those of the specification, for each outcome of the lookup and the device's own open |
| `FdCalls.Descriptors.FdLock` | Lab 6/software/LT24_bsp/HAL/src/alt_fd_lock.c:54-75 | Grants the lock unless the scan meets another descriptor of the device |
| `FdCalls.Descriptors.FdUnlock` | Lab 6/software/LT24_bsp/HAL/src/alt_fd_unlock.c:52-56 | Clears the lock flag and nothing else |
| `FdCalls.Descriptors.Ioctl` | Lab 6/software/LT24_bsp/HAL/src/alt_ioctl.c:106-168 | Dispatches lock, unlock and other requests; the pool, the result and errno are those of the specification |
| `FdCalls.Descriptors.Close` | Lab 6/software/LT24_bsp/HAL/src/alt_close.c:64-101 | Frees the descriptor even when the device's own close fails, and reports that |
| `FdCalls.Descriptors.OpenFd` | Lab 6/software/LT24_bsp/HAL/src/alt_io_redirect.c:58-72 | A stream is redirected only when the open succeeds, and the helper descriptor is freed |
| `I2cBus.BitsRoundTrip` | Lab 6/software/LT24/I2C.c:300-312 | Shifting the eight bits of a byte back in gives the byte |
| `I2cBus.TopBits` | Lab 6/software/LT24/I2C.c:345-356 | The first i bits make up the number without its last bits |
| `I2cBus.EdgesAreHeard` | Lab 6/software/LT24/I2C.c:256-371 | In any waveform the changes of SDA with the clock high are exactly as many as the start and stop conditions decoded, so a call that says only its own has no other such change (UM10204, section 3.1.3) |
| `I2cBus.LowChange` | Lab 6/software/LT24/I2C.c:290-333 | A change of SDA while the clock is low is neither a start nor a stop condition nor a bit (UM10204, section 3.1.3) |
| `I2cBus.ClockBit` | Lab 6/software/LT24/I2C.c:300-312 | One clock pulse is one bit for the decoder and for the chip |
| `I2cBus.ClockAck` | Lab 6/software/LT24/I2C.c:314-333 | The ninth pulse is the acknowledge bit of the byte before it (section 3.1.6) |
| `I2cBus.StartAtRest` | Lab 6/software/LT24/I2C.c:256-273 | From a free bus the start sequence is heard as one start condition (section 3.1.4) |
| `I2cBus.StartFromLow` | Lab 6/software/LT24/I2C.c:256-273 | Between two bytes it is heard as a repeated start condition |
| `I2cBus.StopFromLow` | Lab 6/software/LT24/I2C.c:275-288 | The stop sequence is heard as one stop condition |
| `I2cBus.StopHeard` | Lab 6/software/LT24/I2C.c:275-288 | It is heard if and only if the chip does not hold SDA low |
| `I2cBus.StuckBus` | Lab 6/software/LT24/I2C.c:256-288 | If the chip holds SDA low, neither the stop sequence nor the start sequence after it is heard |
| `I2cBus.OddAddressFails` | Lab 6/software/LT24/I2C.c:76-139 | A write whose device byte has the read bit set fails: a chip that answers to it sends, and the next byte is not acknowledged |
| `I2cBus.HeardAsSent` | Lab 6/software/LT24/I2C.c:290-312 | Unless the chip is sending, the byte heard on the bus is the byte the master sends |
| `I2cBus.AnswerFromLow` | Lab 6/software/LT24/I2C.c:358-371 | The master's answer to a byte is heard as its acknowledge bit |
| `I2cBus.AckSeen` | Lab 6/software/LT24/I2C.c:314-333 | SDA at the ninth pulse is low exactly if the chip acknowledges within 1000001 looks |
| `I2cBus.BytesSaidMeans` | Lab 6/software/LT24/I2C.c:76-139 | What a write says is the bytes in order up to and including the first one not acknowledged; it is all of them acknowledged exactly if the call succeeds |
| `I2cBus.LoadAfterStore` | Lab 6/software/LT24/I2C.c:448-531 | Data stored from an address on, wrapping at the end, is the data loaded from there |
| `I2cBus.SelectsAddress` | Lab 6/software/LT24/I2C.c:495-515 | The device byte and the address bytes put the chip's pointer on the addressed cell |
| `I2cBus.WriteStores` | Lab 6/software/LT24/I2C.c:495-531 | Writing to a memory chip stores the data from the addressed cell on |
| `I2cMaster.I2cPort.StartCondition` | Lab 6/software/LT24/I2C.c:256-273 | Adds one start condition to the decoded waveform, whether the bus was free or between bytes |
| `I2cMaster.I2cPort.StopCondition` | Lab 6/software/LT24/I2C.c:275-288 | Adds one stop condition if the chip has let go of SDA, and nothing otherwise; then the next start condition is lost as well |
| `I2cMaster.I2cPort.WaitAck` | Lab 6/software/LT24/I2C.c:320-324 | Looks until SDA is low; an acknowledge is seen exactly if it takes no more than 1000001 looks |
| `I2cMaster.I2cPort.WriteByte` | Lab 6/software/LT24/I2C.c:290-333 | The waveform decodes to one more byte, with the acknowledge bit that is returned |
| `I2cMaster.I2cPort.ReadByte` | Lab 6/software/LT24/I2C.c:335-371 | Returns the chip's byte; the waveform decodes to that byte with the answer asked for |
| `I2cMaster.I2cPort.SendAll` | Lab 6/software/LT24/I2C.c:495-526 | Sends bytes up to the first one not acknowledged |
| `I2cMaster.I2cPort.ReadAll` | Lab 6/software/LT24/I2C.c:481-485 | Reads the chip's bytes in order, acknowledging exactly all but the last |
| `I2cMaster.I2cPort.WriteCall` | Lab 6/software/LT24/I2C.c:76-139 | For every acknowledge pattern and every device byte: start, the bytes up to the first one not acknowledged, stop; true exactly if all were acknowledged; SDA changes with the clock high exactly twice |
| `I2cMaster.I2cPort.ReadCall` | Lab 6/software/LT24/I2C.c:210-252 | For every acknowledge pattern, device byte and length, 0 included: the whole decoded waveform, and the chip's data exactly if all of the selection was acknowledged; otherwise the buffer is untouched; a read of no bytes is stopped if and only if the first bit the chip would send is high; SDA changes with the clock high for its start and stop conditions only |
| `I2cMaster.I2cPort.Write` | Lab 6/software/LT24/I2C.c:76-103 | The write call of one byte with a one-byte address |
| `I2cMaster.I2cPort.Write16` | Lab 6/software/LT24/I2C.c:105-139 | The write call of a 16-bit value, high byte first |
| `I2cMaster.I2cPort.Read` | Lab 6/software/LT24/I2C.c:141-170 | The read call of one byte |
| `I2cMaster.I2cPort.Read16` | Lab 6/software/LT24/I2C.c:172-208 | The read call of a 16-bit value, high byte first |
| `I2cMaster.I2cPort.MultipleRead` | Lab 6/software/LT24/I2C.c:210-252 | The read call of any number of bytes, 0 included |
| `I2cMaster.I2cPort.LongWrite` | Lab 6/software/LT24/I2C.c:377-410 | The write call with a two-byte address |
| `I2cMaster.I2cPort.LongRead` | Lab 6/software/LT24/I2C.c:412-446 | The read call with a two-byte address |
| `I2cMaster.I2cPort.LongMultipleRead` | Lab 6/software/LT24/I2C.c:448-493 | The read call of any number of bytes, 0 included, with a two-byte address |
| `I2cMaster.I2cPort.LongMultipleWrite` | Lab 6/software/LT24/I2C.c:495-531 | The write call of any number of bytes with a two-byte address |
| `I2cMaster.I2cPort.LongRead16` | Lab 6/software/LT24/I2C.c:535-543 | The read call of a 16-bit value with a two-byte address |
| `I2cMaster.I2cPort.LongWrite16` | Lab 6/software/LT24/I2C.c:545-552 | The write call of a 16-bit value with a two-byte address |
| `I2cMaster.EmptyReadOfMemory` | Lab 6/software/LT24/I2C.c:210-252 | A read of no bytes from a memory that acknowledges ends with a stop condition if and only if the addressed cell holds 128 or more; else the next start condition is lost too |
| `I2cMaster.EmptyReadStuck` | Lab 6/software/LT24/I2C.c:210-252 | Any memory whose addressed cell holds less than 128 is such a failing input, run as one program down to the wires |
| `I2cMaster.EmptyReadExample` | Lab 6/software/LT24/I2C.c:210-252 | A concrete one: a single cell holding 0 |
| `I2cMaster.MemoryRoundTrip` | Lab 6/software/LT24/I2C.c:448-531 | A memory that acknowledges gives back what was written to it, at any address and of any length it can hold |
| `I2cMaster.WriteThenRead` | Lab 6/software/LT24/I2C.c:448-531 | Writing and then reading the same address and length returns the same bytes, down to the wires |
| `I2cMaster.Write16ThenRead16` | Lab 6/software/LT24/I2C.c:535-552 | So do the 16-bit calls |
| `Numerals.DigitsValue` | Lab 6/software/LT24_bsp/HAL/src/alt_log_printf.c:204-297 | The digits of a number evaluate back to it, in every base from 2 to 16 |
| `Numerals.DigitsShape` | Lab 6/software/LT24_bsp/HAL/src/alt_log_printf.c:280-290 | All of them are digits of the base, and only zero starts with a zero |
| `Numerals.FixedIsDigits` | Lab 6/software/LT24_bsp/HAL/src/alt_log_printf.c:281-297 | Dividing by falling powers of the base prints the same digits as taking remainders from below |
| `Numerals.FieldReadsBack` | Lab 6/software/LT24_bsp/HAL/src/alt_log_printf.c:250-297 | A padded field reads back as the number, is as wide as asked for or as it needs to be, and ends in the digits; before them zeros behind the sign, or spaces and then the sign |
| `FormatStrings.MeaningOfWord` | Lab 6/software/LT24_bsp/HAL/src/alt_log_printf.c:204-317 | d and i read the word as the signed number, u, o, x and X as the unsigned number, that is equal to it modulo 2^32 |
| `FormatStrings.NumberReadsBack` | Lab 6/software/LT24_bsp/HAL/src/alt_log_printf.c:214-297 | For every word, letter, flag and width, the most negative number included, the field says the word's meaning in base 8 for o, 16 for x and X and 10 for d, i and u, with the digits in lower case for x and upper case for X, no leading zero in the numeral, and the padding and length asked for |
| `FormatStrings.LettersMeaning` | Lab 6/software/LT24_bsp/HAL/src/alt_log_printf.c:202-335 | Exactly which letters take a word and which a string |
| `FormatStrings.OthersPrinted` | Lab 6/software/LT24_bsp/HAL/src/alt_log_printf.c:135-335 | A literal prints itself, c the low byte of its word and s its string, both aligned to the right in the width; other letters print nothing |
| `FormatStrings.FractionIgnored` | Lab 6/software/LT24_bsp/HAL/src/alt_log_printf.c:172-199 | A fraction and a length letter in a conversion are read and change nothing |
| `FormatStrings.NumbersStayApart` | Lab 6/software/LT24_bsp/HAL/src/alt_log_printf.c:214-297 | Different words print differently under the same conversion |
| `FormatStrings.UnparsedReads` | Lab 6/software/LT24_bsp/HAL/src/alt_log_printf.c:127-197 | Any list of pieces, written as a format string, is read as these pieces: flags, every width that an int can hold, and letter |
| `FormatStrings.ReadsExpressible` | Lab 6/software/LT24_bsp/HAL/src/alt_log_printf.c:127-197 | Every piece that is ever read is one that can be written, unless a width is too large for an int |
| `FormatStrings.WidthRead` | Lab 6/software/LT24_bsp/HAL/src/alt_log_printf.c:176-193 | A decimal numeral in a conversion is read as the width it denotes, up to 2^31 - 1 |
| `FormatStrings.WidthTooLarge` | Lab 6/software/LT24_bsp/HAL/src/alt_log_printf.c:176-193 | A numeral that an int cannot hold ends the reading, as too large |
| `FormatStrings.PrintersAgree` | Lab 6/software/LT24_bsp/HAL/src/alt_printf.c:51-132 | On format strings without flags or letters that only the larger printf knows, both printf functions call for the same arguments and print the same |
| `Printf.Port.RepChar` | Lab 6/software/LT24_bsp/HAL/src/alt_log_printf.c:106-110 | Prints the character as often as asked for; never for a negative count |
| `Printf.Port.CountDigits` | Lab 6/software/LT24_bsp/HAL/src/alt_log_printf.c:248-255 | Counts the digits and finds the largest place value, without leaving 32 bits |
| `Printf.Port.PutDigits` | Lab 6/software/LT24_bsp/HAL/src/alt_log_printf.c:281-297 | Prints the digits from the largest place value down |
| `Printf.Port.PutLead` | Lab 6/software/LT24_bsp/HAL/src/alt_log_printf.c:257-279 | Zeros go behind the sign, spaces before it |
| `Printf.Port.StripSign` | Lab 6/software/LT24_bsp/HAL/src/alt_log_printf.c:238-245 | The magnitude of a negative word, the most negative one included |
| `Printf.Port.PutInteger` | Lab 6/software/LT24_bsp/HAL/src/alt_log_printf.c:205-298 | The whole integer conversion prints the field |
| `Printf.Port.Convert` | Lab 6/software/LT24_bsp/HAL/src/alt_log_printf.c:202-336 | Each letter prints what its conversion means and takes its argument; an unknown letter does neither |
| `Printf.Port.LogPrintf` | Lab 6/software/LT24_bsp/HAL/src/alt_log_printf.c:114-341 | The character-driven state machine prints exactly the output of the pieces of the format string, for all format strings and fitting arguments |
| `Printf.Port.FirstNibble` | Lab 6/software/LT24_bsp/HAL/src/alt_printf.c:98-101 | Finds the first digit that is not zero |
| `Printf.Port.PutHex` | Lab 6/software/LT24_bsp/HAL/src/alt_printf.c:84-113 | The nibble-shifting printer prints the numeral in base 16 |
| `Printf.Port.AltPrintf` | Lab 6/software/LT24_bsp/HAL/src/alt_printf.c:51-132 | Prints exactly the output of the plain pieces of the format string |
| `Printf.PrintBoth` | Lab 6/software/LT24_bsp/HAL/src/alt_printf.c:51-132 | On a plain format string it makes no difference which printf is called |

## Left out

- Interrupts: the interrupt and timeout routines do not interrupt each other; semaphores, event flags and the log hooks are not modelled.
- JtagUart.Uart.Write: the waiting loop is given a finite patience; a call that is still waiting then is reported as such, because nothing forces the host to take bytes.
- JtagUart.Uart.Read: the same.
- JtagUart.Uart.Close: the same; the single-access steps of one writer and one reader are modelled, not several of each, which the source keeps apart by semaphores.
- AvalonSpi.SpiPort.Command: one slave is modelled; the polling loops end because the device becomes ready after some finite delay.
- EpcsCommands.Enter4BytesMode: the chip is taken to require and then clear the write enable latch for mode changes, as the driver expects.
- EpcsCommands.ReadBuffer: with 4-byte addresses the chip is not busy at entry, since the source switches the mode before it waits.
- EpcsCommands.AwaitWipReleased: an erase or program ends after some finite number of status reads.
- The status register write and the flash registration and opening functions.
- Alarms.AlarmSystem.Tick: callbacks do not start their own alarm again, nor the one right behind it, after stopping it; what comes of the latter is `Alarms.AlarmSystem.RestartNextInWalk`. What callbacks do and answer is an input of the call.
- Alarms.AlarmSystem.Start: an alarm that is registered already is excluded; what its second insertion does to the list is `Alarms.InsertAgain`.
- Alarms.AlarmSystem.Stop: an alarm that was never set up is excluded, since its links are undefined.
- TimeOfDay.Clock.GetTimeOfDay: the carry of a microsecond overflow into the seconds does not wrap; the read-back lemmas are about times before 2038; the counter does not wrap between setting and reading.
- FdCalls.Descriptors.Open: looking a name up and the device's own open, close and ioctl are inputs of the calls; mode bits and private data are not modelled.
- FdCalls.Descriptors.Close: a descriptor that is passed to close or ioctl is open, since the source follows its device pointer without a check.
- Delays on the I2C bus, clock stretching, and several masters or chips; only the order of events is modelled.
- I2cMaster.I2cPort.WriteCall: a call begins on a bus at rest; after a read of no bytes that left the chip driving SDA low only the next start sequence is stated.
- Printf.Port.LogPrintf: format strings with a width beyond 2^31 - 1, whose overflow is undefined in C, are not printed; arguments fit the format string, as C demands.
- The log ring, the boot-time log messages and the small, direct-driver and operating-system variants, which the shipped configuration does not select.
- Register macros, cache handling, startup code, stub system calls, the timestamp and identification drivers, and the profiler.
- The LCD, image, button and custom-instruction code of the application, and the hardware description files of the labs.
