# Endeavour 2: a model of its drivers, readers and terminals in Dafny

Endeavour 2 is a computer built in an FPGA, with its own BIOS, Linux drivers, X driver and text window manager.  This
project models the parts of it whose correctness cannot be read off one function, and proves what they are for.
`dafny verify dfyconfig.toml` checks everything.

**Compiling rectangle moves for the DMA engine** (`DmaEngine`, `Surfaces`, `LineCopy`, `BoxCopy`, `WindowMove`,
`BatchLimit`, `ShadowRefresh`, `RefreshLimit`, `FbDriver`).  The X driver turns moved and damaged rectangles into command lists.  `DmaEngine` is an
interpreter for READ, WRITE and COPY over a byte memory and the 8 KB buffer, after `DmaController.scala`: whole 64-byte
blocks, 13-bit bounds, transfers still in flight after an asynchronous READ, the last 128 bytes of the buffer reserved
for fetched commands, and a command counter of 16 bits.  A command whose outcome would depend on timing or would meet the fetched
commands has no result.  `FbDriver` holds the loops that fill the command array, proved to store the programs that the
other modules reason about.  The main results say exactly when a move is the simultaneous copy of all its boxes, and
when a refresh copies exactly the aligned hulls of the damage, for box lists of any length.

**Protocols** (`DmaDriver`, `ClockBridge`, `ClockGaps`, `ClockPeriods`, `ClockRates`).  Callers, interrupt handler and engine of the kernel driver take their
statements in any order; the APB bridge sees the edges of two clocks in any order.  Both are state machines; the
registers of the bridge are also a class whose two methods are the two `always` blocks.  `ClockGaps` says over whole runs when the
bridge stops; `ClockPeriods` and `ClockRates` say which clocks of fixed periods can stop it: those with the slower `clk_output`.

**The ext2 reader** (`Ext2Layout`, `Ext2Names`, `Ext2Card`, `BlockTree`, `Ext2Faults`, `Ext2Reader`, `BitWords`, `PartitionSearch`).  The class `Reader` holds the
buffers of the BIOS reader, the one-entry inode cache and a card that may fail in any transfer; its methods follow the
C functions and are proved against recursive definitions of block lists, directories and paths.  `Ext2Card` says where the bytes lie on the raw card; `Ext2Faults` determines what each of
them returns for every pattern of failing transfers, and what a card without faults guarantees.

**Clock chip, console, checksum, calendar** (`VideoClock`, `BiosConsole`, `Crc32`, `RealTimeClock`).  The divider search
and register packing with a bound on the pixel clock, the ring of console lines against an unbounded log, the nibble
table against the bit-serial CRC and its detection of bursts, the BCD calendar there and back.

**The text window manager** (`TtyScreen`, `TtyFrame`, `TtyEditing`, `TtyParser`, `TtyHandler`, `TtyPaper`, `TtyCommands`,
`TtyCursor`, `TtyTyping`, `CursorOverlay`).  Scrolling in a
ring of 256 lines, the editing commands, the parser of escape sequences and UTF-8, the whole handler from the bytes of a
program to the screen, and the cursor that main loop and timer signal draw into the same text.

**The SD card and formatted text** (`SdCard`, `Numerals`, `NumberPrinter`, `Formats`, `FormattedIo`).  Reading and writing
through two buffers in turn, and the pair of printf and sscanf.

`MachineTypes`, `MachineWords` and `Arithmetic` hold bytes, words and facts about division.

## Where the code departs from what it is for

The model follows the code.  The members named here state what it does:

- `FBDevCopyWindow` never reorders boxes.  A move down of several bands can read pixels already overwritten
  (`WindowMove.DownGoesWrong`); `BatchLimit.CopyWindowExact` says exactly which box lists are safe.
- The branch of `FBDevCopyWindow` for an empty box does not advance and would lose all later boxes (`WindowMove.EmptyBoxHidesRest`).
  It is a dead branch: the boxes of an X region are never empty.
- A comment in e2fbdev.c line 276 allows 256K commands in a batch, but the command counter of the engine has 16 bits
  (`DmaController.scala` line 354), and a longer batch is cut off: `BatchLimit.CopyWindowExact` and `RefreshLimit.RefreshExact`
  have the exact conditions, `BatchLimit.LongMoveDoesNothing` and `RefreshLimit.LongRefreshDoesNothing` lists of boxes that have no effect at all.
- `read_block` refuses the block that ends with the last sector of the card, though the card holds all of it:
  it reads exactly the blocks that end earlier (`Ext2Faults.HealthyLoads`, `Ext2Faults.LastBlockRefused`).  `read_file` asks the card
  for data blocks itself and reads the last one.
- The block iterator skips null pointers and consults each indirect pointer before the deeper ones: it reads the file
  exactly as far as the file has no hole (`Ext2Layout.ReadsTheFile`).
- `read_file` with a size above 2^32 - 512 copies nothing, since the number of sectors wraps (`Ext2Reader.Reader.ReadFile`).
- `search_and_select_ext2_fs` does not get past an unused partition entry (`PartitionSearch.SearchIsComplete`).
- Setting the clock on a 29 February stores 30 February (`RealTimeClock.ReadBack`).
- `scroll_region` blanks as many lines as it is told, also outside its region: deleting ten lines on line 20 of 24 blanks lines 14 to 19
  (`TtyCommands.DeletingTooManyLines`); `TtyScreen.PartialRegionExact` has the exact condition.
- `CSI n S` and `CSI n T` turn the ring against the direction of SU and SD and blank nothing (`TtyScreen.TurningIsNotScrolling`,
  `TtyScreen.TurnsTheOtherWay`).
- `CSI n P` leaves the last n cells of the 256 in a line, which shows when n exceeds the hidden columns (`TtyEditing.DeleteExact`).
- `scroll_region` on the full screen turns the ring against the direction of its own copying loops
  (`TtyScreen.FullScreenGoesTheWrongWay`).
- Erasing to the end of the screen erases all of it when the cursor is behind the last cell (`TtyEditing.EraseBelowExact`), which a
  tab in the last line brings about (`TtyCommands.TabThenEraseBelow`); and `CSI 0 r` lets the cursor leave the screen at the top
  (`TtyEditing.OnScreenExact`, `TtyCommands.AboveTheScreen`).
- `CSI ; m H` ignores the column: sscanf does not get past the semicolon (`TtyCursor.AddressDefaults`).
- A cell with a background above 239 and an even foreground shows a wrong background under the cursor (`CursorOverlay.BackgroundExact`).
- With more than 254 visible lines the BIOS console loses its window (`BiosConsole.WindowFollowsExactly`).
- The clock bridge stops for ever exactly when a clock misses a low gap of the other side (`ClockGaps.StuckExact`).  With fixed
  periods that can happen exactly if `clk_output` is the slower one (`ClockRates.FixedPeriodsExact`; `ClockPeriods.SlowOutputSticks` is a run).
  On its output side PSEL may be up for several cycles before PENABLE
  (`ClockBridge.SelectPhase`), which ARM IHI 0024 does not provide for.
- A control sequence of more than 31 bytes is cut, and its rest is handled as text (`TtyParser.SequenceDelivered`).

## Model

| member | source | states |
|---|---|---|
| `DmaEngine.DecodeHi` | software/include/endeavour2/display.h:138 | The command word packs opcode and both 13-bit bounds without loss; `to` is taken modulo 8192. |
| `DmaEngine.ReadStep` | rtl/src/main/scala/endeavour2/DmaController.scala:442-460 | A READ of whole blocks copies memory to the buffer and leaves its own blocks in flight unless it is the SYNC form. |
| `DmaEngine.WriteStep` | rtl/src/main/scala/endeavour2/DmaController.scala:442-460 | A synchronous WRITE of whole blocks copies the buffer to memory and leaves nothing in flight. |
| `DmaEngine.RunAppend` | rtl/src/main/scala/endeavour2/DmaController.scala:387-412 | Running two programs one after the other is running their concatenation, faults included. |
| `Surfaces.SourceInBox` | software/buildroot/xdriver-endeavour2-fbdev/e2fbdev.c:919-922 | A byte address lies in a destination box exactly when the address it is copied from lies in the box moved back by (dx, dy). |
| `LineCopy.EdgesEffect` | software/buildroot/xdriver-endeavour2-fbdev/e2fbdev.c:940-947 | The one or two edge READs put the first and last 64-byte block of the destination line into the buffer, without touching memory. |
| `LineCopy.MoveEffect` | software/buildroot/xdriver-endeavour2-fbdev/e2fbdev.c:948-953 | Source READ, COPY and WRITE change exactly the pixel bytes, given that the edge blocks hold the old memory around them. |
| `LineCopy.LineEffect` | software/buildroot/xdriver-endeavour2-fbdev/e2fbdev.c:940-954 | The four or five commands of one line copy exactly the pixels of the box from the source line; every other byte, also inside the same 64-byte blocks, stays. |
| `LineCopy.SourceTooFar` | software/buildroot/xdriver-endeavour2-fbdev/e2fbdev.c:921-925 | A source line that ends right of pixel 1984 does not fit the usable buffer: the engine has no defined result. |
| `BoxCopy.LineExtendsBox` | software/buildroot/xdriver-endeavour2-fbdev/e2fbdev.c:930-957 | The order of lines (upwards when moving down) never reads a line that the same box has already overwritten. |
| `BoxCopy.BoxEffect` | software/buildroot/xdriver-endeavour2-fbdev/e2fbdev.c:939-957 | From any number of finished lines, the remaining commands complete the simultaneous copy of the box. |
| `BoxCopy.WholeBoxEffect` | software/buildroot/xdriver-endeavour2-fbdev/e2fbdev.c:919-957 | For every dx, dy and box the program of one box is the simultaneous copy of that box, overlap included. |
| `FbDriver.EmitLine` | software/buildroot/xdriver-endeavour2-fbdev/e2fbdev.c:940-954 | The code that fills the command array stores exactly the commands of one line and nothing beyond them. |
| `FbDriver.EmitBox` | software/buildroot/xdriver-endeavour2-fbdev/e2fbdev.c:919-957 | The loop over the lines of a box, with its stepwise 32-bit line addresses, stores the program of the box. |
| `FbDriver.FBDevCopyWindow` | software/buildroot/xdriver-endeavour2-fbdev/e2fbdev.c:913-961 | The loop over the boxes stores the program of the box list, including the effect of `continue` on an empty box. |
| `WindowMove.InTurnIsAtOnce` | software/buildroot/xdriver-endeavour2-fbdev/e2fbdev.c:917-959 | Copying the boxes one after the other equals copying them all at once when no box reads what an earlier one wrote. |
| `WindowMove.HazardShows` | software/buildroot/xdriver-endeavour2-fbdev/e2fbdev.c:917-959 | Whenever disjoint boxes do have such a hazard there is a memory content on which the batch goes wrong. |
| `WindowMove.BatchExact` | software/buildroot/xdriver-endeavour2-fbdev/e2fbdev.c:913-961 | While the command counter holds the batch, it is the simultaneous copy for every memory and buffer content if and only if no box reads pixels written by an earlier box and every source ends within 1984 pixels. |
| `BatchLimit.ProgramOfLines` | software/buildroot/xdriver-endeavour2-fbdev/e2fbdev.c:939-957 | The commands of a box list are the commands of its lines, in the order in which the code walks them. |
| `BatchLimit.CutProgram` | rtl/src/main/scala/endeavour2/DmaController.scala:354 | A program cut off after any number of commands changes memory exactly as its whole lines do: a line cut off in the middle has not written anything. |
| `BatchLimit.LastLineLost` | rtl/src/main/scala/endeavour2/DmaController.scala:354 | A batch that the counter cuts off never writes the last line of the last box, so some memory content shows the difference. |
| `BatchLimit.CopyWindowExact` | software/buildroot/xdriver-endeavour2-fbdev/e2fbdev.c:913-961 | For a list of any length: the batch is the simultaneous copy for every memory and buffer content if and only if no box reads pixels written by an earlier box, every source ends within 1984 pixels, and there are fewer than 65536 commands. |
| `BatchLimit.LongMoveDoesNothing` | software/buildroot/xdriver-endeavour2-fbdev/e2fbdev.c:276 | Sixteen stripes of 1024 lines moved up by one line meet every other condition, fit the command array, cost 65536 commands, and the batch leaves the memory as it is. |
| `WindowMove.OneBoxHasNoHazard` | software/buildroot/xdriver-endeavour2-fbdev/e2fbdev.c:917-959 | A single box may be moved in any direction. |
| `WindowMove.UpLeftHasNoHazard` | software/buildroot/xdriver-endeavour2-fbdev/e2fbdev.c:917-959 | Every banded region moved with dx <= 0 and dy <= 0 is free of hazards, and its boxes are disjoint. |
| `WindowMove.DownGoesWrong` | software/buildroot/xdriver-endeavour2-fbdev/e2fbdev.c:917-959 | A concrete region of two bands, moved down one line, that meets every other condition and on which the result is not the copy. |
| `WindowMove.EmptyBoxHidesRest` | software/buildroot/xdriver-endeavour2-fbdev/e2fbdev.c:917-918 | What the branch for an empty box does: the box is not advanced past, so it and all later boxes are not copied. The boxes of an X region are never empty, so no region gets there. |
| `WindowMove.ProgramLength` | software/buildroot/xdriver-endeavour2-fbdev/e2fbdev.c:940-954 | The exact number of commands a box list costs, to be compared with the 16-bit command counter. |
| `FbDriver.EmitRefresh` | software/buildroot/xdriver-endeavour2-fbdev/e2fbdev.c:785-799 | The loop over the lines of a damaged box stores a READ and a WRITE per line, with stepwise line addresses in both frames. |
| `FbDriver.FbdevUpdatePacked` | software/buildroot/xdriver-endeavour2-fbdev/e2fbdev.c:771-803 | The loop over the damage list stores the refresh program of the list. |
| `ShadowRefresh.BatchRefreshes` | software/buildroot/xdriver-endeavour2-fbdev/e2fbdev.c:771-803 | While the command counter holds the batch, every list of boxes, in any order and overlapping or not, copies exactly its 32-pixel-aligned hulls from shadow to front. |
| `RefreshLimit.BatchRefreshesExecuted` | software/buildroot/xdriver-endeavour2-fbdev/e2fbdev.c:771-803 | A list of any length refreshes exactly the hulls of its first lines, as many as the 16-bit counter lets through. |
| `RefreshLimit.RefreshExact` | software/buildroot/xdriver-endeavour2-fbdev/e2fbdev.c:771-803 | For a list of any length: the batch is the refresh of all boxes for every memory content if and only if the lines that the counter lets through cover all of them. |
| `RefreshLimit.RefreshCounted` | rtl/src/main/scala/endeavour2/DmaController.scala:354 | If no two hulls overlap this is the case if and only if twice the number of lines is below 65536. |
| `RefreshLimit.LongRefreshDoesNothing` | software/buildroot/xdriver-endeavour2-fbdev/e2fbdev.c:771-803 | Thirty-two damaged stripes of 1024 lines cost 65536 commands, and the batch refreshes nothing. |
| `ShadowRefresh.RefreshKeepsInStep` | software/buildroot/xdriver-endeavour2-fbdev/e2fbdev.c:771-803 | If both frames agree outside the damage, they agree everywhere afterwards. |
| `DmaDriver.InvAfter` | software/linux/drivers/display.c:70-98 | The invariant of mutex, completion, interrupt and engine holds over every interleaving of any number of callers, the handler and the engine. |
| `DmaDriver.CountOnlyWhileIdle` | software/linux/drivers/display.c:84-98 | A command count is never written into a running engine, and no two callers are inside the call at once. |
| `DmaDriver.OwnBatch` | software/linux/drivers/display.c:84-98 | The batch that a call starts is at its own command address and has its own count, whatever the other callers do between the two writes. |
| `DmaDriver.SyncReturnsAfterItsBatch` | software/linux/drivers/display.c:84-98 | A call with commands leaves with its own batch, address and count, as the last one started, and a synchronous call only after that batch has finished. |
| `DmaDriver.SyncCall` | software/linux/drivers/display.c:70-98 | A synchronous call on a driver at rest, statement by statement through lock, address, count, sleep, interrupt and wakeup: its own batch has been started and finished, and everything else is as before. |
| `DmaDriver.NothingToReset` | software/linux/drivers/display.c:76-82 | Resetting the completion loses nothing: outside the sleep it is never set, nor the interrupt armed. |
| `DmaDriver.NoLostWakeup` | software/linux/drivers/display.c:70-82 | While a caller sleeps, exactly one of these holds: the completion is set, the interrupt is armed, the handler is about to complete. |
| `DmaDriver.SleeperIsWoken` | software/linux/drivers/display.c:70-82 | A sleeping caller can go on, or some step of engine or handler is possible and brings it strictly nearer; no other step takes it back. |
| `DmaDriver.WokenWithinFour` | software/linux/drivers/display.c:70-82 | Four steps of engine and handler, wherever they fall in a run, let a sleeping caller go on. |
| `DmaDriver.NeverStuck` | software/linux/drivers/display.c:70-98 | As long as somebody is inside a call, some step is possible without new callers or signals. |
| `DmaDriver.ReturnsWithin` | software/linux/drivers/display.c:84-98 | A caller that holds the mutex has returned after at most 21 steps of its own and of the hardware, wherever they fall in a run. |
| `DmaDriver.CallGoesOn` | software/linux/drivers/display.c:70-98 | Until then the caller itself or the hardware can take such a step. |
| `ClockBridge.Bridge.ClkOutput` | rtl/verilog/apb_clock_bridge.v:26-40 | One edge of clk_output takes the registers to the value of the edge function. |
| `ClockBridge.Bridge.ClkInput` | rtl/verilog/apb_clock_bridge.v:42-48 | One edge of clk_input takes the registers to the value of the edge function. |
| `ClockBridge.InvRun` | rtl/verilog/apb_clock_bridge.v:26-48 | The handshake invariant holds over every sequence of edges of both clocks, simultaneous ones included. |
| `ClockBridge.BridgeIsTransparent` | rtl/verilog/apb_clock_bridge.v:26-48 | Under every interleaving and wait pattern: each request reaches the slave at most once and in order, PREADY is given only after it has been carried out, and the data seen with PREADY is what the slave returned. |
| `ClockBridge.OutputBusHoldsAccess` | rtl/verilog/apb_clock_bridge.v:27-34 | On the output bus PENABLE follows a select cycle with the same request, stays up with that request at every edge at which the slave waits, and drops when it is ready. |
| `ClockBridge.SelectPhase` | rtl/verilog/apb_clock_bridge.v:27-29 | After a rise of PSEL the next edge of clk_output raises PENABLE if and only if the first has seen the master in ACCESS; otherwise the select phase is longer than the one SETUP cycle of ARM IHI 0024. |
| `ClockBridge.HowItGetsStuck` | rtl/verilog/apb_clock_bridge.v:26-48 | One edge gets the handshake stuck exactly when the master enters ACCESS while the output side still holds the last access, or an access completes while ready2 is still up. |
| `ClockGaps.StuckExact` | rtl/verilog/apb_clock_bridge.v:26-48 | Over every run from reset: the handshake has stopped for ever if and only if some PENABLE-low gap between two accesses held no edge of clk_output, or some ready1-low gap between two completions held no edge of clk_input. |
| `ClockBridge.StuckStays` | rtl/verilog/apb_clock_bridge.v:26-48 | Once stuck, nothing is served or answered any more. |
| `ClockBridge.StretchProgress` | rtl/verilog/apb_clock_bridge.v:26-48 | A stretch of edges never loses progress and gains some if it holds an edge the request waits for. |
| `ClockGaps.BoundedResponse` | rtl/verilog/apb_clock_bridge.v:26-48 | When all gaps have been sampled, six rounds, each with a tick of both clocks and a ready slave, answer the request of every reachable state. |
| `ClockPeriods.SteadyClocksNeverStick` | rtl/verilog/apb_clock_bridge.v:26-48 | Two clocks of fixed periods, clk_output at least as fast as clk_input: whatever the ratio, the phases and the slave, every gap is sampled and the handshake never stops. |
| `ClockPeriods.SteadyResponse` | rtl/verilog/apb_clock_bridge.v:26-48 | With such clocks six rounds always answer the request. |
| `ClockPeriods.SlowOutputSticks` | rtl/verilog/apb_clock_bridge.v:26-48 | A run of eleven edges with periods 2 and 3 in which the second of two requests in a row is never served. |
| `ClockRates.SlowerClockSticks` | rtl/verilog/apb_clock_bridge.v:26-48 | For all other periods: there are phases at which a master that makes requests without pauses and a slave that is always ready get the bridge stuck. |
| `ClockRates.FixedPeriodsExact` | rtl/verilog/apb_clock_bridge.v:26-48 | For two fixed periods the bridge never stops, whatever the phases, the master and the slave, if and only if clk_output is at least as fast as clk_input. |
| `Ext2Layout.TreeAt` | software/bios/ext2.c:111-149 | Without holes, pointer k of the reader is the standard direct/single/double/triple lookup of block k. |
| `Ext2Layout.ReadsTheFile` | software/bios/ext2.c:111-149 | The reader visits the blocks of the file in order if and only if the file has no hole so far. |
| `BlockTree.VisitsTheTree` | software/bios/ext2.c:111-149 | The data blocks among the accesses of an iteration are the non-null pointers of the tree, in order. |
| `BlockTree.RestAtStart` | software/bios/ext2.c:111-118 | After loading the three buffers, the accesses still to come are those of the whole tree, pointer blocks included. |
| `BlockTree.StepLoad1` | software/bios/ext2.c:137-141 | Refilling the first buffer over the used-up one is the next access of the list and keeps the rest of it. |
| `BlockTree.StepLoad2` | software/bios/ext2.c:142-146 | The same for the second buffer, although the first is refilled from it later. |
| `Ext2Reader.Reader.ReadBlock` | software/bios/ext2.c:71-86 | The block is delivered if and only if it ends before the last sector of the card and the card brings all its sectors in this transfer, and then every byte of the buffer is the byte of the card at its place; a refused block costs no transfer and leaves the buffer. |
| `Ext2Card.BlockIsOnCard` | software/bios/ext2.c:73-83 | Where block numbers do not wrap, byte i of block b is byte i modulo 512 of sector partition + b times 2, 4 or 8, plus i / 512, of the raw card. |
| `Ext2Faults.HealthyLoads` | software/bios/ext2.c:78 | A card that delivers every request yields a block if and only if the block ends before the last sector. |
| `Ext2Faults.LastBlockRefused` | software/bios/ext2.c:78 | The block that ends with the last sector is refused, although the card would deliver it. |
| `Ext2Reader.Reader.StartBlockIter` | software/bios/ext2.c:111-118 | The iterator starts if and only if its first pointer blocks arrive, and then has the whole tree of the inode before it. |
| `Ext2Reader.Reader.NextBlock` | software/bios/ext2.c:120-149 | Each call loads the pointer blocks before the next data block, over all four levels and three shared buffers: it returns that block and leaves the rest of the list if and only if all of them arrive, and 0 otherwise or at the end. |
| `Ext2Reader.Reader.ReadFile` | software/bios/ext2.c:215-230 | For every fault pattern the returned count is the one that pattern determines, and the bytes stored are, without a hole before them, those at the sectors that the standard block map names; a healthy card yields the size asked for or the whole file, and nothing beyond the size rounded up to 512 is written. |
| `Ext2Card.ContentIsFile` | software/bios/ext2.c:215-230 | Byte i of what is copied is byte i modulo the block size of the block that direct, single, double or triple lookup gives for i divided by it, on the raw card. |
| `Ext2Card.PointersRead` | software/bios/ext2.c:120-149 | A block of little-endian pointers reads back as these pointers. |
| `Ext2Card.InodeReads` | software/bios/ext2.c:88-104 | An inode laid out in 128 bytes, its fifteen pointers from byte 40 on, reads back as that inode. |
| `Ext2Card.InodeComesFromCard` | software/bios/ext2.c:88-104 | The 128 bytes of inode ino are those of the raw card at its slot in the inode table of its group. |
| `Ext2Card.DirReads` | software/bios/ext2.c:151-186 | A directory block made of entries, of any names, lengths and padding, reads back as the search of the list of entries. |
| `Ext2Faults.FileStopsAtFault` | software/bios/ext2.c:215-230 | That count is the whole blocks before the first access that fails, but no more than the size asked for; a data block only has to bring the sectors still wanted. |
| `Ext2Faults.HealthyFile` | software/bios/ext2.c:215-230 | On a card that delivers every request and holds all blocks, nothing fails and the count is the smaller of size and content. |
| `Ext2Reader.Reader.LoadInodeBlock` | software/bios/ext2.c:96-102 | The block is in the buffer if and only if it was there already or can be read now; a hit reads nothing, a failure forgets the cached number. |
| `Ext2Reader.Reader.GetInode` | software/bios/ext2.c:88-104 | The inode is found if and only if its number is not 0 and its block is cached or can be read; then the buffer holds its bytes, as they stand on the card, at the returned place. |
| `Ext2Reader.InodeAddress` | software/bios/ext2.c:90-95 | Multiplication, mask and shift on 32-bit words give the block and place that counting inodes per block gives. |
| `Ext2Names.OffsetSplits` | software/bios/ext2.c:92-95 | Splitting the byte offset by block size agrees with dividing the index by inodes per block. |
| `BitWords.MaskAndShift` | software/bios/ext2.c:94-95 | For the three block sizes the machine operations on 32-bit words that InodeAddress computes with are remainder and quotient. |
| `Ext2Reader.Reader.EntryMatches` | software/bios/ext2.c:170-178 | The character comparison accepts an entry exactly when its name is the first component of the path. |
| `Ext2Reader.Reader.ReadDir` | software/bios/ext2.c:151-186 | The result is the one the fault pattern determines; it is never another entry than the first used one with that name, and on a healthy card it is that entry, or 0 exactly if there is none. |
| `Ext2Faults.DirStopsAtFault` | software/bios/ext2.c:151-186 | Under every fault pattern the search covers exactly the blocks before the first access that fails. |
| `Ext2Reader.Reader.FindInode` | software/bios/ext2.c:188-209 | An inode is returned only if recursive lookup of the components from inode 2 finds it; on a healthy card with readable blocks, if and only if it does. |
| `Ext2Reader.PathFromRoot` | software/bios/ext2.c:188-205 | A path spelled from any proper names, with or without a slash before and after it, leads from inode 2 through these names. |
| `Ext2Faults.WalkRunFinds` | software/bios/ext2.c:188-209 | A walk through failing transfers and the inode cache finds nothing or what the path names, and on a healthy card always the latter. |
| `Ext2Names.WalkSpelled` | software/bios/ext2.c:192-205 | For every list of proper names, walking the spelled path, with or without a slash at the end, is looking the names up one by one. |
| `PartitionSearch.SearchAndSelect` | software/bios/ext2.c:260-275 | The loop over the partition table, whose entry pointer stops at the first unused entry. |
| `PartitionSearch.TableReads` | software/bios/ext2.c:265-269 | A boot sector laid out with four entries from byte 446 on reads back as their first sectors and sizes, and an entry is used if and only if neither is 0. |
| `PartitionSearch.SearchIsComplete` | software/bios/ext2.c:260-275 | For every card the first ext2 partition is found, if and only if no partition stands behind an unused entry without also standing before it. |
| `VideoClock.FindDivider` | software/bios/display.c:188-189 | The loop ends with the smallest even divider in [4, 600] that brings the VCO to [600 MHz, 900 MHz), without overflow of 32 bits. |
| `VideoClock.ReduceFraction` | software/bios/display.c:195-202 | The loops over 2 to 19 reduce the fraction by a divisor made of twos and fives only and leave no common factor 2 or 5. |
| `VideoClock.FitDenominator` | software/bios/display.c:203-205 | After halving c < 2^20 divides the source exactly, b < c, and less than 40 Hz of the VCO are lost, none if no halving was needed. |
| `VideoClock.WhenItFits` | software/bios/display.c:195-205 | Nothing has to be halved if and only if the VCO frequency is a multiple of 25, 32 or 40. |
| `VideoClock.MultiplierDecodes` | software/bios/display.c:206-227 | The packed bytes decode (Silicon Labs AN619) to exactly a + b/c. |
| `VideoClock.DividerDecodes` | software/bios/display.c:229-238 | The packed divider bytes decode to exactly the divider, with the special bits for 4. |
| `VideoClock.LossBound` | software/bios/display.c:188-205 | A VCO loss below 40 Hz keeps the pixel clock at or below the request and less than 10 Hz under it. |
| `VideoClock.SetDviFrequency` | software/bios/display.c:179-257 | The register files of both chips after the I2C writes, whatever they held before: outside 1 to 200 MHz outputs and encoder are off and nothing else has changed; inside, every register has its value, the outputs are on, the reset comes last, and the pixel clock is at most 10 Hz low and exact precisely for VCO frequencies divisible by 25, 32 or 40. |
| `BiosConsole.Console.Putchar` | software/bios/display.c:108-131 | Every character, newline and backspace included, changes the ring as it changes the unbounded log of 256-column lines. |
| `BiosConsole.Console.PutString` | software/bios/util.c:129 | After every string the ring holds the log of all its characters. |
| `BiosConsole.BackspaceTakesBack` | software/bios/display.c:113-115 | A backspace after a character blanks that character and takes its place, unless the character has filled its line; at the start of a line it does nothing. |
| `BiosConsole.NewLineHolds` | software/bios/display.c:127-129 | Clearing the new line and the one after it destroys no line the window can show. |
| `BiosConsole.WindowAdvance` | software/bios/display.c:121-126 | The window moves by one line exactly when the log has outgrown it, computed from addresses modulo the buffer size. |
| `BiosConsole.WindowShowsLog` | software/bios/display.c:108-131 | For 1 to 254 visible lines the window shows exactly the end of the log and contains the cursor line. |
| `BiosConsole.WindowFollowsExactly` | software/bios/display.c:121-126 | The window follows the log for ever if and only if at most 254 lines are visible. |
| `TtyScreen.FullScreenGoesTheWrongWay` | software/textwm2/tty.c:34-57 | On the full screen scroll_region moves the visible lines as a list, for every content, if and only if the count is a multiple of 128 or at least the height: otherwise the ring turns the wrong way. |
| `TtyScreen.PartialRegionExact` | software/textwm2/tty.c:38-55 | On every other region it moves the lines of the region as a list, clipped to it, and changes no other visible line, for every content, if and only if the blank lines fit: the count is at most the height of the region, or the surplus falls below the screen without coming round the ring. |
| `TtyCommands.DeletingTooManyLines` | software/textwm2/tty.c:284-287 | The bytes of CSI 10 M on line 20 of 24 blank line 15, above the region. |
| `TtyScreen.TurningIsNotScrolling` | software/textwm2/tty.c:288-295 | The scrolling commands S and T do what SU and SD of ECMA-48 (section 8.3) are for, for every content, only if nothing is scrolled: no line is blanked. |
| `TtyScreen.TurnsTheOtherWay` | software/textwm2/tty.c:288-295 | Even the lines that stay come to their right places only if none stays or the count is a multiple of 128: the ring turns the other way. |
| `TtyScreen.InsertedIsList` | software/textwm2/tty.c:41-45 | Moving lines down and blanking inserts blank lines into the list of lines of the region. |
| `TtyScreen.DeletedIsList` | software/textwm2/tty.c:50-55 | Moving lines up and blanking deletes lines from the list of lines of the region. |
| `TtyScreen.ScrolledLines` | software/textwm2/tty.c:68-75 | After n scrolls the screen is itself shifted up n lines with blank lines below. |
| `TtyScreen.ScrollingFeedsPaper` | software/textwm2/tty.c:68-75 | The screen always shows the end of an unbounded paper: n scrolls only feed n blank lines, as long as height + 2 fits the ring. |
| `TtyFrame.Frame.LineFill` | software/textwm2/tty.c:17-19 | Filling a line of the ring replaces one line of the screen, whatever the ring offset. |
| `TtyFrame.Frame.LineCopy` | software/textwm2/tty.c:21-23 | Copying a line of the ring replaces one line of the screen by another. |
| `TtyFrame.Frame.ScrollRegion` | software/textwm2/tty.c:34-57 | The copying and blanking loops do to the screen what the region function says, in both directions. |
| `TtyFrame.Frame.MaybeScroll` | software/textwm2/tty.c:59-76 | The cursor comes back inside the screen and the screen scrolls by as many lines as it was too low; inside a scroll region only the region moves. |
| `TtyEditing.DeleteCells` | software/textwm2/tty.c:203-210 | On the line of the cursor the cells after it move left by the count, clipped to the line; the last cells stay as they were. |
| `TtyEditing.DeleteExact` | software/textwm2/tty.c:203-210 | On lines that are blank right of the window this deletes characters (DCH of ECMA-48, section 8.3) in the window, for every content, if and only if the count is at most the number of hidden columns. |
| `TtyEditing.InsertCells` | software/textwm2/tty.c:211-220 | Blank cells come in at the cursor and the rest of its line moves right, and out at column 256. |
| `TtyEditing.EraseLine` | software/textwm2/tty.c:263-279 | One line of the screen is blanked from the cursor on, up to it, or as a whole. |
| `TtyEditing.FillRange` | software/textwm2/tty.c:200 | The walk round the ring fills exactly the cells between two places of the screen. |
| `TtyEditing.ErasedIsList` | software/textwm2/tty.c:200 | Where the walk does not wrap it blanks one section of the list of cells. |
| `TtyEditing.EraseDisplay` | software/textwm2/tty.c:249-262 | Everything from the cursor to the end of the screen, up to the cursor, or all of it, counted round the ring. |
| `TtyEditing.EraseBelowExact` | software/textwm2/tty.c:255-256 | Erasing below leaves what is above the cursor, for every content, if and only if the cursor is not behind the screen; otherwise the walk goes over all of it. |
| `TtyCommands.TabThenEraseBelow` | software/textwm2/tty.c:249-256 | How a cursor gets there: on 100 columns the bytes of a tab on column 96 of the last line and of CSI J blank the whole screen. |
| `TtyEditing.Settle` | software/textwm2/tty.c:320-326 | The final loop brings the cursor back between the edges, one line lower for each width of overrun. |
| `TtyEditing.CommandKeepsCursor` | software/textwm2/tty.c:173-326 | After every moving or editing command the column is on the screen, the line not below it and inside the scroll region if it was on the screen. |
| `TtyEditing.OnScreenExact` | software/textwm2/tty.c:177 | No command takes the cursor above the screen if and only if the scroll region does not start above it. |
| `TtyCommands.AboveTheScreen` | software/textwm2/tty.c:296-304 | How it comes to start there: the bytes of CSI 0 r and CSI A take the cursor to line -1. |
| `TtyEditing.Csi` | software/textwm2/tty.c:173-326 | The switch over all commands: cursor, text, scroll region and saved cursor afterwards, the clamp of colour and mode sequences included. |
| `TtyHandler.Handler.Handle` | software/textwm2/tty.c:340-457 | The switch statements on the fields, with the csi array of 32 bytes, take the parser to its next value and ask for its action; printing drops codes below the space. |
| `TtyHandler.Handler.HandleAll` | software/textwm2/textwm.c:520 | The loop over a buffer is a run of the parser over its bytes. |
| `TtyParser.RunIsLegal` | software/textwm2/tty.c:340-457 | Over every byte stream csi_len stays within the array with room for the final zero, ucount is 2 to 4 while decoding, no shift loses a bit, and printed codes are at least 32, below 2^21 and never U+009B. |
| `TtyParser.BackToGround` | software/textwm2/tty.c:340-457 | From every legal state the parser is back in its ground state within 34 bytes, whatever they are. |
| `TtyParser.CodePointPrinted` | software/textwm2/tty.c:365-443 | The UTF-8 encoding (section 3 of RFC 3629) of a code point prints exactly this code point if and only if it is at least 32 and not U+009B; every other prints nothing. |
| `TtyParser.TextPrinted` | software/textwm2/tty.c:365-443 | The encoding of a text prints exactly the text, code point by code point, if and only if it consists of such code points. |
| `TtyTyping.PutCell` | software/textwm2/tty.c:103-114 | Printing a character: after scrolling if needed, one cell of the screen changes and the cursor moves on. |
| `TtyTyping.Control` | software/textwm2/tty.c:344-364 | Newline, return, tab, backspace and the two shifts move cursor, screen and character set as the functions below say. |
| `TtyTyping.Escape` | software/textwm2/tty.c:397-427 | ESC M goes up a line, or calls scroll_region for one line at the start of the region; ESC 7 and 8 save and restore cursor, style and weight; nothing else changes anything. |
| `TtyTyping.Sequence` | software/textwm2/tty.c:158-326 | tty_csi from its text: strings, numbers, command, colours and modes change the terminal as the function on sequences says. |
| `TtyTyping.HandleBytes` | software/textwm2/tty.c:340-457 | For every byte stream, escape and control sequences included, parser and frame together do to the terminal what the actions of the parser mean. |
| `TtyCommands.ScanDecimal` | software/textwm2/tty.c:186 | A decimal number in a sequence is what sscanf reads, whatever follows it that is no digit. |
| `TtyCommands.LinesCommand` | software/textwm2/tty.c:280-287 | The bytes of CSI n L and CSI n M, for every decimal n, do exactly scroll_region from the line of the cursor to the bottom of the region or of the screen. |
| `TtyCursor.UpAndDown` | software/textwm2/tty.c:183-193 | The bytes of CSI n A and CSI n B, for every decimal n, move the cursor n lines up or down as far as the scrolling region or the screen, and nothing else. |
| `TtyCursor.NextAndPreviousLine` | software/textwm2/tty.c:183-193 | CSI n E and CSI n F do the same and go to the first column. |
| `TtyCursor.Left` | software/textwm2/tty.c:225-228 | CSI n D moves n columns left as far as the edge. |
| `TtyCursor.Right` | software/textwm2/tty.c:221-224 | CSI n C moves n columns right; behind the edge the move goes on in the lines below. |
| `TtyCursor.OneCoordinate` | software/textwm2/tty.c:229-236 | CSI n G sets the column and CSI n d the line, counted from 1. |
| `TtyCursor.Address` | software/textwm2/tty.c:237-245 | CSI n ; m H and CSI n ; m f, for all decimal n and m, set line n - 1, as far as the region allows, and column m - 1. |
| `TtyCursor.AddressOnScreen` | software/textwm2/tty.c:237-245 | Without a scrolling region every place of the screen is reached. |
| `TtyCursor.AddressDefaults` | software/textwm2/tty.c:237-245 | CSI H goes to the first place, CSI n H to the start of line n, and CSI ; m H to the first place too, whatever m is: the number is not read. |
| `TtyCommands.TypingSteps` | software/textwm2/tty.c:340-386 | A stretch of the stream without escape sequences is typing on the paper of TtyPaper. |
| `TtyPaper.TypingIsOnPaper` | software/textwm2/tty.c:59-76 | Whatever is typed, with any control codes and any scrolling region, the screen stays the end of the paper on which it is written; only the first line of a region ever leaves that paper. |
| `TtyPaper.TextWraps` | software/textwm2/tty.c:103-114 | On the paper a text of any length lies wrapped at the width, character i at the i-th place from the cursor, and every other cell is as it was or blank. |
| `TtyPaper.TextOnScreen` | software/textwm2/tty.c:103-114 | From bytes to screen: after the UTF-8 encoding of a printable text the screen shows the end of a paper on which the text lies wrapped. |
| `TtyParser.SequenceDelivered` | software/textwm2/tty.c:444-453 | A control sequence (section 5.4 of ECMA-48) is handed over whole if and only if it fits the array; a longer one is cut after 31 bytes. |
| `CursorOverlay.CursorIsTransparent` | software/textwm2/textwm.c:371-381 | Wherever the timer signal falls between the statements of the main loop, the text without the cursor is what the handled bytes alone make of it. |
| `CursorOverlay.NextKeepsText` | software/textwm2/textwm.c:515-523 | Every single statement and signal keeps the invariant of flag, saved cell and drawn cell. |
| `CursorOverlay.DrawnTextAtRest` | software/textwm2/textwm.c:515-523 | While the loop waits, the memory is the plain text with at most the cursor cell inverted, its two colours exchanged and its character kept, and a hidden cursor is not drawn. |
| `CursorOverlay.Inverts` | software/textwm2/tty.c:468-473 | Every cell with a background below 240 shows its foreground, modulo 16, as background and its background plus 16 as foreground, with the same character. |
| `CursorOverlay.BackgroundExact` | software/textwm2/tty.c:468-473 | The background comes out right for every cell but those with a background above 239 and an even foreground. |
| `CursorOverlay.ColoursExchange` | software/textwm2/tty.c:468-473 | On coloured text showing exchanges the two colours, and showing twice gives the cell back. |
| `CursorOverlay.ShownDiffers` | software/textwm2/tty.c:468-473 | The shown cell is the old one if and only if it is coloured text whose two colours are the same. |
| `CursorOverlay.BlinkPhase` | software/textwm2/textwm.c:371-381 | After a signal the cursor is drawn exactly in the first eight of sixteen counts, unless hidden. |
| `CursorOverlay.OnePass` | software/textwm2/textwm.c:515-523 | One pass of the main loop for a byte on any terminal: the cursor is taken away, the byte handled, and the cursor shown again unless the byte has hidden it. |
| `CursorOverlay.KeyShowsCursor` | software/textwm2/textwm.c:371-381 | After any terminal has been chosen and a key pressed, the next signal shows its cursor, unless it is hidden. |
| `CursorOverlay.HideStatements` | software/textwm2/tty.c:475-479 | The statements of hide_cursor, run without interruption, are the function on a terminal. |
| `CursorOverlay.ShowStatements` | software/textwm2/tty.c:481-487 | The statements of show_cursor, run without interruption, are the function on a terminal. |
| `CursorOverlay.Terminal.Hide` | software/textwm2/tty.c:475-479 | hide_cursor on the fields restores the saved cell, if a cursor is drawn. |
| `CursorOverlay.Terminal.Show` | software/textwm2/tty.c:481-487 | show_cursor on the fields saves the cell and exchanges its colours, if no cursor is drawn. |
| `CursorOverlay.Terminal.Timer` | software/textwm2/textwm.c:374-381 | The cursor part of the signal handler on the fields. |
| `Crc32.TableSplit` | software/bios/util.c:216-219 | Four shifts of the register are a shift by four and a table entry of the low four bits. |
| `Crc32.BuildTable` | software/bios/util.c:200-211 | Entry i of the table is i after four shifts. |
| `Crc32.SerialNibble` | software/bios/util.c:216-219 | Four message bits entering one by one are four shifts of the register with the nibble added. |
| `Crc32.Checksum` | software/bios/util.c:199-221 | The nibble-table checksum equals the bit-serial CRC of section 8 of RFC 1952 on every message. |
| `Crc32.CheckValue` | software/bios/util.c:199-221 | The checksum of the digits 1 to 9 is cbf43926, the check value of CRC-32. |
| `Crc32.SerialWord` | software/bios/util.c:213-220 | Up to 32 message bits act as one word added to the register. |
| `Crc32.BurstsAreDetected` | software/bios/util.c:199-221 | Two different messages of one length that differ only within 32 consecutive bits always have different checksums. |
| `RealTimeClock.BcdRoundTrip` | software/bios/time.c:22-23 | BCD digits of every value below 160 read back. |
| `RealTimeClock.GetSeconds` | software/bios/time.c:44-56 | The getter counts the days of the four-year calendar, modulo 2^32. |
| `RealTimeClock.FindMonth` | software/bios/time.c:81-83 | The month loop stays below 12 and splits the day of the year into month and day. |
| `RealTimeClock.CommonStarts` | software/bios/time.c:40 | The months of a common year begin at days 0, 31, 59, 90 and so on to 334, and it has 365. |
| `RealTimeClock.SetSeconds` | software/bios/time.c:58-94 | The setter stores the date of the seconds; on 29 February it stores month 2, day 30. |
| `RealTimeClock.ReadBack` | software/bios/time.c:44-94 | Reading back gives the same seconds, and the stored date is valid, if and only if the day is not a 29 February; there it is exactly one day late. |
| `RealTimeClock.SetThenGet` | software/bios/time.c:44-94 | The two procedures one after the other, for every 32-bit value. |
| `RealTimeClock.YearOfDay` | software/bios/time.c:67-73 | Splitting days into cycles of four years gives year and day of the year. |
| `RealTimeClock.GetterIncreases` | software/bios/time.c:51-55 | A later valid date gives strictly more seconds in 32 bits, for all years up to 135, more than two digits hold. |
| `SdCard.ReceiveSector` | software/bios/sdcard.c:171-181 | The unrolled loop takes the 128 words of a buffer that no transfer is using. |
| `SdCard.SendSector` | software/bios/sdcard.c:183-193 | The unrolled loop fills a buffer that no transfer is using, and leaves the other one alone. |
| `SdCard.SdRead` | software/bios/sdcard.c:207-227 | For every fault pattern the count is the number of transfers before the first failing one, exactly these sectors are in memory in order, and the buffer in use is never read. |
| `SdCard.SdWrite` | software/bios/sdcard.c:229-250 | For every fault pattern the count is the number of transfers before the first failing one, these sectors are on the card, and no other sector but the failed one has changed. |
| `SdCard.ReadAfterWrite` | software/bios/sdcard.c:207-250 | A read returns what a preceding write stored, as far as both went without fault. |
| `NumberPrinter.PrintNumber` | software/bios/util.c:19-43 | The digit buffer and its loops write exactly the field: blanks, sign, digits or leading zeros, blanks after it for a negative width. |
| `Numerals.FieldLength` | software/bios/util.c:19-43 | The length of a field is the larger of its width and its numeral with sign. |
| `Numerals.LengthBound` | software/bios/util.c:20-33 | No 32-bit number needs more than the 32 places of the digit buffer, in any base. |
| `Numerals.ParseNumeral` | software/bios/util.c:45-60 | A numeral with any number of leading zeros is parsed back to its number, and parsing stops behind it. |
| `NumberPrinter.ParseUnsigned` | software/bios/util.c:45-60 | The parsing loop returns the number at the front of the string and what follows. |
| `Numerals.LettersAreDigits` | software/bios/util.c:45-60 | The letters a to f, small or large, are digits of base 16 and of no other base. |
| `FormattedIo.PrintfImpl` | software/bios/util.c:88-139 | The loop over the format writes what the recursive reading of the format says. |
| `FormattedIo.SscanfImpl` | software/bios/util.c:141-197 | The loop over the format stores the values, in order, that the recursive reading says, and returns their number. |
| `Formats.PrintfFields` | software/bios/util.c:88-139 | With conversions %u %d %x %X %p %o of width 0 to 32 separated by spaces the output is the list of fields separated by spaces. |
| `Formats.ScanfUndoesPrintf` | software/bios/util.c:88-197 | Scanning this output with the same format gives back every value, for every such format and all 32-bit values. |
| `Formats.AsIntIsSigned` | software/bios/util.c:62-67 | The 32-bit word of every signed number stands for that number, and negating the word negates it. |

## Left out

- BatchLimit.CopyWindowExact: for surfaces of up to 4096 bytes a line that are a whole number of 64-byte blocks, disjoint boxes as in an X region, none
  of them empty, boxes and sources on the surface, and a displacement other than (0, 0); the clipping of the region that yields the boxes is X server code.
- RefreshLimit.RefreshExact: the same limits on lines; boxes of positive width on both frames.
- DmaEngine.ReadStep: for transfers that stay inside the usable buffer and do not meet blocks in flight; other commands are given no result.
- The SET, LOADMAP, MAP and MIXRGB commands and the shift pipeline behind COPY, which is taken byte by byte; a COPY whose ranges overlap has no result.
- ClockGaps.BoundedResponse: metastability is not modelled, and registers without an initial value start low.
- ClockRates.FixedPeriodsExact: jitter is not part of it; for any other clocks ClockGaps.StuckExact is the condition.
- DmaDriver.NoLostWakeup: memory fences are taken as program order; the completion is a counter and is reset as in the kernel; fairness is stated as counted steps.
- Ext2Reader.Reader.FindInode: for well-formed directories (entries that fill their block, no slash or zero in a name), known inode
  numbers, inodes of at least 128 bytes that fill blocks evenly, and block sizes up to 4 KB; the same holds for GetInode and ReadDir.
- The pointer that find_inode returns into the shared inode buffer is a place in that buffer; that a later call overwrites it is visible
  only as the buffer's new content.  The buffers are sequence fields, reloaded as a whole.
- The reading of superblock and group descriptors, print mode of read_dir, and directories with double-indirect blocks beyond what the block list covers.
- PartitionSearch.SearchAndSelect: whether a sector holds an ext2 file system is a parameter.
- VideoClock.SetDviFrequency: I2C writes are the list of their bytes; whether the chip locks is not modelled, and the clock is computed in reals.
- BiosConsole.Console.Putchar: for 1 to 254 visible lines and with the console on; moving the cursor to another buffer is left out.
- RealTimeClock.GetSeconds: for months 1 to 12 and days from 1 on; the code looks outside its month table for others.  Retries,
  the I2C transfer and the ticking of the chip are left out.
- TtyFrame.Frame.ScrollRegion: for regions that end within the 256 lines of the ring and start at line 0 or later.  The blank line is
  `style + 32`, which is `style | ' '` for every style the window manager sets.
- TtyFrame.Frame.MaybeScroll: for 1 to 254 lines of height, lines and regions not above the screen.
- TtyEditing.Csi: for heights of 1 to 254 lines, a cursor that is not above the screen and stands in one of the 256 columns of its line, and counts that are
  not negative where cells are inserted or deleted.
- TtyEditing.DeleteCells: the same limits on cursor and count; they hold for InsertCells, EraseLine, EraseCells and EraseDisplay as well.
- TtyTyping.HandleBytes: for streams that stay within the limits of TtyEditing.Csi, TtyFrame.Frame.MaybeScroll and TtyFrame.Frame.ScrollRegion, whose numbers are at most
  2^28, and that do not change to the alternate frame (`?1049h`, `?1049l`) or draw the logo (`?314e`); the glyph tables and what tty_sgr makes of style and
  weight are parameters.
- TtyPaper.TextOnScreen: for a scrolling region that reaches the bottom of the screen, as it does unless a program sets one.
- TtyParser.SequenceDelivered: for bodies without final bytes, CAN and SUB inside.
- CursorOverlay.CursorIsTransparent: for byte handlers that keep the cursor on a cell of the text memory, and without resizing a
  terminal while its cursor is drawn; statements are taken to happen in program order, and a signal runs to its end.
- SdCard.SdRead: the controller core is not part of the repository; it is modelled as two buffers of 128 words, one transfer at a time, an error
  flag that stays until the next command, and a port position that every command resets.  Polling for readiness is one step; initialisation
  of the card and the pins are left out.  The same holds for SdWrite.
- FormattedIo.PrintfImpl: widths above 32 without leading zeros would overrun the digit buffer and are excluded.
- FormattedIo.SscanfImpl: a format that ends inside a conversion makes the code read on behind it; here the scan stops.
- Formats.ScanfUndoesPrintf: %i, %c, %s and %B are left out: they do not read back in general, for instance a zero-padded %i is scanned as octal.
- UART, USB, audio, keyboard tables, fonts, wallpaper, benchmarks, command dispatch and X server plumbing.
