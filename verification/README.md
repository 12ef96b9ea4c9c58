# Models of the flash tools, CRC library, burst generator and bus search

This project models four parts of the repository and proves what they are for.  `dafny verify dfyconfig.toml` verifies it.

**Flash programmer** (`Align`, `Words`, `Nor`, `Pages`, `FlashPlan`, `EbFlash`).  `tools/eb-flash.c` scans a flash chip for
sectors that are not blank, erases those, programs an image and reads it back.  The chip is an array of cells in which a
write can only clear bits and an erase sets the sector that holds its address to ones.  Bus cycles are closed without waiting;
`eb_socket_run` completes some of the outstanding ones, any of them, in any order.  `EbFlash.Programmer` has the loops, the
counter of outstanding cycles, the erase bitmap and the file position of the tool.  Its ghost parameters carry what the
outstanding cycles and the open one are going to achieve together, so that every method can say that this does not change
while cycles complete.

**CRC library** (`CrcTheory`, `WordBytes`, `Crc32`, `Crc32Tables`, `Crc8`, `Crc8Tables`, `Dallas`).  The forms that work a bit, a byte and a word at a time
are shown to compute one function.  `CrcTheory` knows a register only as a vector over the field of two elements with a shift;
the three CRC modules show that their bit-vector operations obey its laws.  The lookup tables are given by their generators,
complement included, and the constants that are folded into them are shown to cancel; the literals of the source in the rows
from which all others follow are those the generators give, and the literal 1-Wire table is verified entry by entry.  The
polynomials are stated by their exponents, and each CRC by the value of a known message.

**Burst generator** (`BurstMasks`, `BurstTables`, `BurstTasks`, `BurstGen`, `BurstFirmware`, `SchedPeriods`) **and its rings**
(`Rings`, `MessageBuffers`, `ChannelBuffers`, `Histories`).  `BurstFirmware.Firmware` has the tables, flags and tasks of the
firmware and changes them in place; `BurstGen` says what every event, pass and command does to the state, and what holds over
every run; `BurstTasks` does the same for one burst, whose view of a run is a run of its own.  The system clock is a parameter
of every pass.  `MessageBuffers` also has `remove_msg` as a machine whose memory accesses are single steps, with the interrupt
that adds messages between any two of them.

**Bus search and image loader** (`MiniSdb`, `FwPlan`, `FwWidths`, `FwLoad`).  The bus is a tree of crossbars; the recursive
search with early exit is shown to be a preorder filter.  The loader splits an image into edge, bulk and edge writes between
a reset and a release of the processor.

Where code and documentation disagree the model follows the code.  The comment at `tools/eb-flash.c:191` calls a zero word
erased, while the loop goes on over words that are not zero; the plan at `tools/eb-flash.c:215` names the last non-zero word.
The test at `modules/burst_generator/burstgen.c:447` is meant to silence disabled bursts and never does.  The checks of
length and address at `tools/eb-fwload.c:481-494` print an error and go on; the transfer then ends with a short read while
the processor is in reset.

## Model

| member | source | states |
|---|---|---|
| EbFlash.Programmer.FlashTool | tools/eb-flash.c:1038-1069 | the whole tool, for every flash content, image, geometry, word size, byte order, bit mirroring and order of acknowledgements: a probed sector size is the smaller of the chip's own and the largest window inside the image; the tool gives up if and only if it is neither 64 KiB nor 256 KiB; otherwise every image byte in the chip is the byte of the file, or with bit inversion has its bits backwards, except that a word at the erase register, and everything if only erasing was asked for, stays erased; the rest of the last sector is erased; a mismatch is reported exactly if the file has a byte that is not blank at the register; every other byte is kept, or erased along with a chip sector that holds some of the image |
| EbFlash.Programmer.RunPhases | tools/eb-flash.c:1034-1056 | the same in terms of the plan: the goal of every byte, and whether a word is refused |
| EbFlash.Programmer.FlashImage | tools/eb-flash.c:1046-1056 | scan (or mark all), erase, program, verify: the chip ends in `Flashed`, the cycles sent are the planned page cycles, and no more than the allowed number of cycles was ever on the wire |
| EbFlash.Programmer.ChooseSectorSize | tools/eb-flash.c:280-297 | only 64 KiB and 256 KiB are believed; then the size divides the chip's own and every sector has a bit in the bitmap; outside the image only bytes that share a chip sector with it may change, and only by being erased |
| EbFlash.Programmer.DetectSectorSize | tools/eb-flash.c:202-305 | on a chip with power-of-two sectors of size S at least a page, the probing computes the smaller of S and the largest window that fits, and disturbs only the image range and the erased sector |
| EbFlash.Programmer.ProbeWindow | tools/eb-flash.c:223-236 | masking the target step by step ends at the largest aligned window that fits below the cap, which lies inside the image |
| EbFlash.Programmer.FindSectorSize | tools/eb-flash.c:171-200 | the first probe that still reads zero ends the sector |
| EbFlash.Programmer.WritePattern | tools/eb-flash.c:239-251 | zeroes exactly the probe words of the window: every other byte keeps its value |
| EbFlash.Programmer.QuickScan | tools/eb-flash.c:400-417 | after all windows have been scanned a sector is marked if and only if it was marked before or holds a byte that is not erased |
| EbFlash.Programmer.QuickScanGap | tools/eb-flash.c:334-398 | scans one window of every unmarked sector and drains the wire; the new marks are exactly the sectors with a byte to erase in that window |
| EbFlash.Programmer.ScanWord | tools/eb-flash.c:355-376 | full cycles are closed and the number on the wire stays below the limit; what will be marked grows by the sector of this word if it is not blank |
| EbFlash.Programmer.DetectDecrement | tools/eb-flash.c:307-331 | the callback marks exactly the sectors of the words that are not all ones |
| EbFlash.Programmer.RunScan | tools/eb-flash.c:374-375 | whichever scan cycles complete, in whatever order, the marks that are still going to be made stay the same in sum |
| EbFlash.Programmer.BitmaskSet | tools/eb-flash.c:103-107 | sets or clears one index of the set of marked sectors and no other |
| EbFlash.Programmer.BitmaskGet | tools/eb-flash.c:99-101 | reads whether an index is in the set of marked sectors |
| EbFlash.Programmer.EraseFlash | tools/eb-flash.c:419-450 | erases exactly the marked sectors |
| EbFlash.Programmer.ProgramFlash | tools/eb-flash.c:473-569 | ands the goal into the image range under any order of acknowledgements, returns with nothing on the wire, and sends the cycles of the stream |
| EbFlash.Programmer.ProgramWord | tools/eb-flash.c:522-554 | one word: left out if it is blank and leading, refused on the erase register, else written, the cycle being closed at the end of a page |
| EbFlash.Programmer.ReadWord | tools/eb-flash.c:498-515 | file bytes become the write that carries the mirrored bytes, in either byte order |
| EbFlash.Programmer.RunPost | tools/eb-flash.c:552-553 | outstanding write cycles land in any order without changing what the chip is going to hold |
| EbFlash.Programmer.VerifyFlash | tools/eb-flash.c:630-685 | accepts if and only if every byte of the image range is the byte of the file, or has its bits backwards if that is asked for, whatever order the callbacks arrive in |
| EbFlash.Programmer.VerifyDecrement | tools/eb-flash.c:571-628 | one verify callback accepts exactly if all its words agree with the file, although the file position depends on the callbacks before |
| EbFlash.Programmer.FetchFile | tools/eb-flash.c:594-605 | reads the file bytes that belong to a bus address, whatever was read before |
| EbFlash.Programmer.ErasePhase | tools/eb-flash.c:1046-1052 | scanning or marking all, then erasing: at least every dirty sector is wiped |
| EbFlash.Programmer.MarkAll | tools/eb-flash.c:1047-1047 | marks every index of the bitmap |
| FlashPlan.Setup.FlashedExactly | tools/eb-flash.c:1046-1055 | whatever the chip held: the image range holds the goal, the rest of its sectors is erased, nothing else is programmed |
| FlashPlan.Setup.FlashedHolds | tools/eb-flash.c:1046-1056 | the chip holds the image exactly if no word that is not blank fell on the erase register |
| FlashPlan.Setup.GoalIs | tools/eb-flash.c:498-536 | the goal of a byte is the byte of the file, or has its bits backwards, and is blank at the erase register |
| FlashPlan.Setup.HoldsIs | tools/eb-flash.c:571-628 | what is compared is every byte of the image with its byte of the file, bits backwards if asked for |
| FlashPlan.Setup.RefusedIs | tools/eb-flash.c:536-548 | the word that is refused is the aligned word at the erase register |
| FlashPlan.Setup.ErasedIsBlank | tools/eb-flash.c:419-450 | erasing at least the dirty sectors leaves every sector of the image blank |
| FlashPlan.Setup.ErasedNearby | tools/eb-flash.c:419-450 | erasing sectors of the image wipes no byte of a chip sector that holds none of the image |
| FlashPlan.Setup.OutsideFlashed | tools/eb-flash.c:1046-1056 | programming leaves bytes outside the image as the erase left them: kept, or wiped with a chip sector that holds some of the image |
| FlashPlan.Setup.RangeIsErased | tools/eb-flash.c:1052-1053 | after the erase everything from the first byte of the image to the end of its last sector is erased |
| FlashPlan.Setup.SelectiveEraseIsFullErase | tools/eb-flash.c:1046-1052 | with the chip's own sector size, erasing only the dirty sectors leaves the same flash as erasing all of them |
| FlashPlan.Setup.Range | tools/eb-flash.c:355-356 | the first and last sector bounds are those of the image, and the sectors tile the range between them |
| FlashPlan.Setup.SectorIndex | tools/eb-flash.c:328-328 | the division finds the sector in which an address lies |
| FlashPlan.Setup.BitmapFits | tools/eb-flash.c:865-865 | with at least eight pages and sectors of at least two pages every sector has a bit in the bitmap |
| FlashPlan.Setup.FitsGeometry | tools/eb-flash.c:865-865 | a size that fits gives every sector of the image a bit, by bits counted or by page and sector sizes |
| FlashPlan.Setup.BelievedServed | tools/eb-flash.c:284-297 | with pages of up to 8 KiB a probed size that is believed always fits the bitmap, because the probed window lies inside the image |
| FlashPlan.Setup.WindowHitsJoin | tools/eb-flash.c:409-414 | adjacent windows partition: scanning them one after the other scans their union |
| FlashPlan.Setup.YieldRemove | tools/eb-flash.c:307-331 | an outstanding scan cycle may complete out of order |
| FlashPlan.Setup.LandFirst | tools/eb-flash.c:452-471 | any outstanding write cycle may land first: the flash ends up the same |
| FlashPlan.Setup.AndImageOnBlank | tools/eb-flash.c:473-569 | programming a blank range leaves the goal itself |
| FlashPlan.Setup.ProgramPlan | tools/eb-flash.c:522-565 | one cycle for each page that holds data and nothing left open, unless a word falls on the erase register |
| FlashPlan.Setup.PageFits | tools/eb-flash.c:223-228 | every non-empty image of whole pages has room for a window of one page |
| FlashPlan.Setup.MaxWindowFits | tools/eb-flash.c:229-236 | the window the doubling ends at fits and is a power of two; twice its size does not fit or reaches the cap |
| FlashPlan.Setup.MaxWindowIsLargest | tools/eb-flash.c:229-236 | no window that fits below the cap is larger, although the doubling stops at the first that does not fit |
| FlashPlan.Setup.DetectableDivides | tools/eb-flash.c:280-305 | the reported size divides the chip's own and the address |
| FlashPlan.Setup.ProbeErased | tools/eb-flash.c:254-261 | which bytes of the probed window the erase of its first address wipes |
| FlashPlan.MarksAfterSet | tools/eb-flash.c:99-107 | setting a bit of a byte changes one index of the set |
| Pages.FeedManyPlanned | tools/eb-flash.c:522-554 | feeding the words one by one gives the planned page cycles and leaves no cycle open |
| Pages.PageCyclesShape | tools/eb-flash.c:522-554 | one cycle per data page, in order: the words from the first that is not blank to the end of the page |
| Pages.DataPagesExact | tools/eb-flash.c:522-554 | a page has a cycle if and only if it is not blank |
| Pages.DataPagesAscend | tools/eb-flash.c:522-554 | the pages ascend and do not overlap |
| Words.Assemble | tools/eb-flash.c:504-515 | the shift loop builds the word of the bytes, in either byte order |
| Words.BytesOfWordOf | tools/eb-flash.c:504-536 | a bus write of the assembled word stores the very bytes, in either byte order |
| Words.FlipWord | tools/eb-flash.c:109-126 | the three mask-and-shift rounds mirror every byte of the word on its own |
| Words.MirrorInvolution | tools/eb-flash.c:109-126 | mirroring swaps bit k with bit 7 - k and undoes itself |
| Words.FlipIs | tools/eb-flash.c:109-126 | without inversion a byte stays as it is, with it bit k goes to place 7 - k for every k |
| Words.ByteOrder | tools/eb-flash.c:504-515 | in big-endian order the first byte is in the highest lane of the word, in little-endian order in the lowest |
| Words.WordIsFfs | tools/eb-flash.c:1038-1040 | a word equals `ffs` exactly if all its bytes are erased |
| Words.Encode | tools/eb-flash.c:504-536 | assemble, mirror, send: the bytes written are the mirrored file bytes |
| Words.Compare | tools/eb-flash.c:607-626 | the comparison of words is the comparison of bytes |
| Nor.ProgramsCommute | tools/eb-flash.c:536-536 | writes that only clear bits may land in either order |
| Nor.SubSector | tools/eb-flash.c:434-445 | a sector of the tool lies inside one sector of the chip if its size divides the chip's |
| Align.AlignDownTwice | tools/eb-flash.c:228-236 | masking twice is masking once with the larger mask |
| CrcTheory.CrcAppend | tools/crc32.h:1-8 | the CRC of a concatenation is computed in pieces |
| CrcTheory.ByteLookupIsByte | tools/crc32.c:379-387 | one table lookup is one byte of the bitwise form, although the complement is folded into the table |
| CrcTheory.CrcLinear | tools/crc32.c:391-419 | what is added to the starting CRC comes out moved on by the length of the message |
| CrcTheory.SlicedIsCrc | tools/crc32.c:399-412 | one lookup for every byte, in ever nearer tables, computes the CRC for a slice of any length: the folded constants cancel |
| CrcTheory.EightLookups | tools/crc32.c:402-409 | the eight lookups of the word loop, combined from left to right, are the CRC of the eight bytes |
| CrcTheory.RegisterIsBits | tools/crc32.c:11-15 | adding a byte and shifting eight times is feeding its bits one by one |
| CrcTheory.ShortInjective | tools/crc32.c:11-15 | up to a register width of bits, different bits leave different registers |
| CrcTheory.BurstDetected | tools/crc32.c:11-15 | two messages whose bits differ only in a window as wide as the register have different CRCs |
| Crc32.CrcBit | tools/crc32.c:6-18 | the bitwise form computes the CRC for every start and buffer; a null buffer gives 0 |
| Crc32.CrcByte | tools/crc32.c:379-387 | the byte form computes the same CRC |
| Crc32.CrcWord | tools/crc32.c:391-419 | the word form computes the same CRC, for every alignment of the buffer |
| Crc32.LookUpWord | tools/crc32.c:399-412 | one word of eight bytes, taken apart by shifts, advances the CRC by those bytes |
| Crc32.CrcRem | tools/crc32.c:20-28 | the remainder form feeds the low bits of a byte, lowest first |
| Crc32.RemSplits | tools/crc32.c:20-28 | m bits and then n bits are m + n bits |
| Crc32.RemOfByte | tools/crc32.c:20-28 | eight bits are one byte of the bitwise form |
| Crc32.IsRfcCrc | tools/crc32.c:6-18 | the CRC is the one that the sample code of section 8 of RFC 1952 computes, written out with its own constant |
| Crc32.PolynomialIs | tools/crc32.c:14-14 | a shift folds in the polynomial of section 8 of RFC 1952, given by its exponents |
| Crc32Tables.CheckValue | tools/crc32.c:6-18 | the CRC of "123456789" is cbf43926 |
| Crc32Tables.BasisIsRight | tools/crc32.c:32-376 | the generator gives the literals of the source in row 0 and in the rows that are powers of two, in all eight tables |
| Crc32Tables.EntryIsSource | tools/crc32.c:32-376 | so every one of the 2048 entries is the exclusive or of such literals: the tables are linear up to row 0 |
| Crc32.Pieces | tools/crc32.h:1-8 | crc(crc(c, a), b) is crc(c, a + b) |
| Crc32.BurstErrorsSeen | tools/crc32.c:11-15 | a difference inside 32 consecutive bits changes the CRC |
| Crc32.LawsHold | tools/crc32.c:13-15 | the shift-and-fold register obeys the laws from which everything else follows |
| Crc8.CrcBit | tools/crc8.c:63-74 | the bitwise form computes the CRC for every 32-bit start, although it masks only at the end |
| Crc8.StepLow | tools/crc8.c:70-71 | whatever sits above the low byte never comes back into it |
| Crc8.PolynomialIs | tools/crc8.c:71-71 | a shift folds in the rest of the polynomial x^8 + x^2 + x + 1 |
| Crc8Tables.CheckValue | tools/crc8.c:63-74 | the CRC of "123456789" is f4 |
| Crc8Tables.BasisIsRight | tools/crc8.c:87-247 | the generator gives the literals of the source in row 0 and in the rows that are powers of two, in all eight tables |
| Crc8Tables.EntryIsSource | tools/crc8.c:87-247 | so every one of the 2048 entries is the exclusive or of such literals |
| Crc8.CrcByte | tools/crc8.c:250-258 | the byte form computes the same CRC |
| Crc8.CrcWord | tools/crc8.c:262-289 | the word form computes the same CRC, for every alignment of the buffer |
| Crc8.LookUpWord | tools/crc8.c:270-282 | one word of eight bytes advances the CRC by those bytes |
| Crc8.CrcRem | tools/crc8.c:76-83 | the remainder form feeds the high bits of the low byte, highest first |
| Crc8.RemSplits | tools/crc8.c:76-83 | m bits and then n bits are m + n bits |
| Crc8.RemOfByte | tools/crc8.c:76-83 | eight bits are one byte of the bitwise form |
| Crc8.Pieces | tools/crc8.h:1-9 | the CRC of a concatenation is computed in pieces |
| Crc8.BurstErrorsSeen | tools/crc8.c:67-71 | a difference inside 8 consecutive bits changes the CRC |
| Dallas.TableIsRight | top/gsi_scu/dow_crc.h:4-20 | every one of the 256 literal entries is its index shifted eight times |
| Dallas.PolynomialIs | tools/wb_api.c:105-129 | a shift folds in the polynomial x^8 + x^5 + x^4 + 1 |
| Dallas.CheckValue | tools/wb_api.c:105-129 | the id 02 1c b8 01 00 00 00 has the CRC a2 |
| Dallas.RomBytesAre | tools/wb_api.c:824-828 | byte k of an id in memory is its bits 8 k to 8 k + 7 |
| Dallas.CalcCrc | top/gsi_scu/dow_crc.c:3-15 | the table form computes the CRC of the eight bytes, low word first |
| Dallas.Wire1Crc8 | tools/wb_api.c:105-129 | the bitwise form computes the same CRC; family 0x28 gives back the byte behind the data |
| Dallas.CrcOfWhole | tools/wb_api.c:824-828 | the last byte is the CRC of the others if and only if the CRC of all bytes is 0 |
| Dallas.GetId | tools/wb_api.c:820-834 | the first device whose low byte is the family decides: accepted or refused by its own CRC, or none found and id 0 |
| Dallas.Check | tools/wb_api.c:824-828 | an id passes if and only if its top byte is not 0 and, except for family 0x28, the CRC of its eight bytes is 0 |
| Dallas.FirmwareAgrees | top/gsi_scu/scu_bus.c:44-44 | host and firmware accept the same ids, but for family 0x28 and a top byte of 0: the host accepts exactly if the top byte is not 0 and the CRC that the firmware computes of the id is 0 |
| Dallas.NoShortErrorAccepted | tools/wb_api.c:824-828 | two different accepted ids, both of families other than 0x28, differ in more than 8 consecutive bits |
| BurstTables.UpdateConfigs | modules/burst_generator/burstgen.c:363-402 | the update of a table in place, with the slot it gives back: last match, else first free slot, else none |
| BurstTables.UpdateMeans | modules/burst_generator/burstgen.c:390-399 | in a well-formed table, setting declares the event for the burst and resetting withdraws it; nothing else changes |
| BurstTables.StaysWellFormed | modules/burst_generator/burstgen.c:390-399 | one slot per event and a free slot exactly where the mask is empty: kept by every update |
| BurstTables.NeverFull | modules/burst_generator/burstgen.c:378-388 | a table that is the inverse of the declarations always has a free slot |
| BurstTables.DeclareKeepsInverse | modules/burst_generator/burstgen.c:1208-1212 | a declaration keeps the table the inverse of the declarations if and only if the burst declared nothing, or the same event, before |
| BurstTables.WithdrawKeepsInverse | modules/burst_generator/burstgen.c:1233-1237 | withdrawing the declared event always does |
| BurstTables.EventSelects | modules/burst_generator/burstgen.c:963-971 | a non-zero event finds a slot if and only if some burst declares it, and its mask holds exactly those bursts |
| BurstTables.EventZero | modules/burst_generator/burstgen.c:963-971 | event 0 finds a free slot and selects no burst |
| BurstMasks.HasWith | modules/burst_generator/burstgen.c:394-398 | setting or clearing the bit of one burst concerns that burst only |
| BurstMasks.BitIsShift | modules/burst_generator/burstgen.c:394-394 | the bit of a burst is one shifted left by its id less one |
| BurstTasks.EveryShotInFuture | modules/burst_generator/burstgen.c:460-484 | in every run of a burst every injected deadline is strictly in the future |
| BurstTasks.EveryRunChained | modules/burst_generator/burstgen.c:477-486 | in every run, messages with neither a trigger nor a command between them are exactly one period apart, and the earlier deadline has passed when the later one is injected |
| BurstTasks.RunChained | modules/burst_generator/burstgen.c:477-495 | the same from any state that follows a message; when the cycles run out the deadline is cleared |
| BurstTasks.InjectsInPeriod | modules/burst_generator/burstgen.c:477-480 | after a message the next pass injects if and only if it comes within the period that follows |
| BurstTasks.TriggerInjects | modules/burst_generator/burstgen.c:419-424 | a pass that takes over a trigger injects, for the trigger deadline plus the setup time, if and only if cycles are left and that deadline is still to come |
| BurstTasks.TriggerTaken | modules/burst_generator/burstgen.c:419-424 | a pass that takes over a trigger uses it up, leaves a toggle pending, and sets every field: deadline, time stamps, cycles and the cycled bit; with its verdict |
| BurstTasks.PlainPass | modules/burst_generator/burstgen.c:444-498 | a pass with nothing to take over: exactly when it injects, its verdict, and every field afterwards |
| BurstTasks.ToggleTaken | modules/burst_generator/burstgen.c:427-442 | a pass that takes over a toggle uses it up, sets cycles, deadline and cycled bit for each of the cases, and goes on as an ordinary pass |
| BurstTasks.TriggersUsedOnce | modules/burst_generator/burstgen.c:419-424 | in every run a burst takes over at most as many triggers as have arrived for it |
| BurstTasks.SetUpTrain | modules/burst_generator/burstgen.c:1054-1095 | declared, given times and n cycles, and triggered for d, a burst sends the messages for d + setup, one period later and so on, one for each cycle |
| BurstTasks.RemovedIsSilent | modules/burst_generator/burstgen.c:1223-1258 | a removed burst sends nothing until the host sets it up anew |
| BurstTasks.ParamsAre | modules/burst_generator/burstgen.c:1061-1065 | setup time and period go where they belong, and only in a declared burst |
| BurstTasks.CyclesAre | modules/burst_generator/burstgen.c:1082-1088 | a new count of cycles clears the deadline, and only in a declared burst |
| BurstTasks.EnabledIs | modules/burst_generator/burstgen.c:1260-1298 | enabling sets bit 0 of the flag, disabling clears it, and no other bit or field changes |
| BurstTasks.MissedIsSilent | modules/burst_generator/burstgen.c:460-476 | after a missed deadline nothing is injected until a trigger is taken over or the host sets the burst up anew, on any clock that does not run backwards |
| BurstTasks.MissedNeverShoots | modules/burst_generator/burstgen.c:460-476 | and without a trigger nothing ever is |
| BurstTasks.CyclesConserved | modules/burst_generator/burstgen.c:488-495 | over any number of triggers, messages injected and cycles left make up the cycles set; an ended burst is reported as cycled |
| BurstTasks.NoCyclesNoShots | modules/burst_generator/burstgen.c:444-445 | without cycles no trigger or toggle makes a burst inject |
| BurstTasks.UndisturbedTrain | modules/burst_generator/burstgen.c:477-495 | undisturbed, the deadlines injected are the next ones in order, none left out, one for each cycle used; an endless burst keeps its count and goes on |
| BurstTasks.ToggleLeaves | modules/burst_generator/burstgen.c:436-442 | a toggle taken over before its deadline leaves exactly the deadlines up to it |
| BurstTasks.ToggleEnds | modules/burst_generator/burstgen.c:427-435 | a toggle that finds no deadline, or one not before its own, ends the burst for good |
| BurstTasks.EnableHasNoEffect | modules/burst_generator/burstgen.c:447-448 | whatever the enable flag says, a burst injects the same in every run |
| BurstTasks.NeverDisabled | modules/burst_generator/burstgen.c:447-447 | the test for a disabled burst is never true |
| BurstTasks.DisabledBurstInjects | modules/burst_generator/burstgen.c:447-448 | a declared burst whose enable bit is clear injects on its trigger: the test lets it through |
| BurstGen.CallKeepsInv | modules/burst_generator/burstgen.c:1181-1258 | tables inverse to the declarations, created bursts valid: kept by every event, pass and command, except exactly by a declaration that replaces another event |
| BurstGen.MkKeepsInv | modules/burst_generator/burstgen.c:1181-1221 | declaring keeps it if and only if nothing else is replaced; a fresh id always does |
| BurstGen.RmKeepsInv | modules/burst_generator/burstgen.c:1223-1258 | removing always keeps it |
| BurstGen.FreshRunKeepsInv | modules/burst_generator/burstgen.c:1181-1258 | over every run in which only ids that are not created are declared, the invariant holds |
| BurstGen.RunKeepsInv | modules/burst_generator/burstgen.c:1181-1258 | and over every run in which every declaration replaces nothing else |
| BurstGen.EventReaches | modules/burst_generator/burstgen.c:956-990 | a tagged non-zero event triggers exactly the bursts that declare it as trigger, else toggles exactly those that declare it as toggle |
| BurstGen.EventZeroReaches | modules/burst_generator/burstgen.c:966-976 | event 0 reaches no burst but replaces the deadline shared by the bursts that wait for their trigger |
| BurstGen.ForeignActionIgnored | modules/burst_generator/burstgen.c:940-940 | an action with a foreign tag changes nothing |
| BurstGen.HitMeans | modules/burst_generator/burstgen.c:963-976 | an action is a trigger for a burst if and only if it has the tag and the burst declares its event as trigger |
| BurstGen.ViewRun | modules/burst_generator/burstgen.c:408-498 | what a run of the generator does to one burst is a run of that burst |
| BurstGen.SentRun | modules/burst_generator/burstgen.c:483-484 | the messages sent for a burst are those in the log of its run |
| BurstGen.RunIsSafe | modules/burst_generator/burstgen.c:1656-1690 | in every run and for every burst the messages sent are in the future and properly spaced |
| BurstGen.BurstRuns | modules/burst_generator/burstgen.c:408-498 | a burst declared under a free id, set up by the host and triggered, sends exactly its train of messages, delayed by the setup time, one for each cycle |
| BurstGen.TriggersTakenOnce | modules/burst_generator/burstgen.c:419-424 | in every run of the generator a burst takes over at most as many triggers as have arrived for it |
| BurstGen.RemovedBurstIsSilent | modules/burst_generator/burstgen.c:1223-1258 | in operation a removed burst sends nothing, whatever arrives |
| BurstGen.PassTakesOver | modules/burst_generator/burstgen.c:419-442 | a pass uses up the trigger of its burst, or else the toggle, and changes nothing about other bursts |
| BurstGen.TriggerSends | modules/burst_generator/burstgen.c:419-484 | a trigger taken over in time sends the message for its deadline plus the setup time at once |
| BurstGen.RestingBurstIsSilent | modules/burst_generator/burstgen.c:1656-1690 | in operation a burst without cycles sends nothing, whatever arrives |
| BurstGen.BurstIsConserved | modules/burst_generator/burstgen.c:1656-1690 | in operation messages sent and cycles left of an untoggled burst make up the cycles set |
| BurstGen.MissedBurstIsSilent | modules/burst_generator/burstgen.c:1656-1690 | in operation a burst that has missed its deadline sends nothing until its trigger arrives |
| BurstFirmware.MonotoneIsRising | modules/burst_generator/burstgen.c:1656-1690 | the clock of any run does not run backwards if and only if the times at which its tasks run do not decrease |
| BurstGen.ToggledBurstEnds | modules/burst_generator/burstgen.c:427-442 | in operation, if no further event for the burst arrives, a toggle pending for a running burst leaves exactly the messages of the deadlines up to it, in order, and none is missing when the burst has ended |
| BurstGen.ToggledBurstIsSilent | modules/burst_generator/burstgen.c:427-435 | in operation a toggle that finds no deadline, or one not before its own, ends the burst: it sends nothing any more, whatever arrives |
| BurstFirmware.Firmware.constructor | modules/burst_generator/burstgen.c:1488-1507 | the cleared firmware has the invariant |
| BurstFirmware.Firmware.TriggerIoActions | modules/burst_generator/burstgen.c:408-498 | one pass of a task changes the firmware as the specified pass does, and gives back its verdict; the trigger is used up, a toggle stays pending behind a trigger, nothing about other bursts changes, and a trigger in time sends its message |
| BurstFirmware.Firmware.TakeFlags | modules/burst_generator/burstgen.c:419-442 | the first part: a trigger, or else a toggle, is taken over and cleared |
| BurstFirmware.Firmware.Fire | modules/burst_generator/burstgen.c:444-498 | the second part: the verdict, the time stamp of a failure, the injection |
| BurstFirmware.Firmware.HandleAction | modules/burst_generator/burstgen.c:940-991 | one action with a foreign tag changes nothing; else the last matching slot of the trigger table, or else of the toggle table, adds its bursts and sets the deadline |
| BurstFirmware.Firmware.EcaHandler | modules/burst_generator/burstgen.c:911-992 | the pending actions are popped and handled in order |
| BurstFirmware.Firmware.DoActionOperation | modules/burst_generator/burstgen.c:1656-1690 | bursts 1 to 16 have their turns once, in order, with the actions in between; no action is lost or reordered; the clock of the round does not run backwards if and only if its readings do not |
| BurstFirmware.Firmware.MkBurst | modules/burst_generator/burstgen.c:1181-1221 | declares a burst: task, created set and both tables change as specified, nothing else; ids out of range are refused |
| BurstFirmware.Firmware.RmBurst | modules/burst_generator/burstgen.c:1223-1258 | removes a burst: its task is cleared, its events are withdrawn from both tables, nothing else changes; ids out of range are refused |
| BurstFirmware.Firmware.GetParam | modules/burst_generator/burstgen.c:1054-1075 | field by field: a declared burst gets the setup time, and the period or an addition to it; no other field and no other burst changes, and an undeclared one is left alone |
| BurstFirmware.Firmware.GetCycle | modules/burst_generator/burstgen.c:1077-1095 | field by field: a declared burst gets its cycles and loses its deadline; nothing else changes |
| BurstFirmware.Firmware.EnableBurst | modules/burst_generator/burstgen.c:1260-1298 | bit 0 of the flag of one declared burst is set or cleared, nothing else changes; id 0, meant for all, is always refused |
| BurstFirmware.Firmware.ListBursts | modules/burst_generator/burstgen.c:1144-1158 | gives back the created and the completed bursts and forgets the latter |
| SchedPeriods.AverageNearMean | modules/burst_generator/burstgen.c:255-264 | the kept average is at most the true mean and below it by at most (n - 1) / 2 |
| SchedPeriods.AverageWithin | modules/burst_generator/burstgen.c:255-264 | it lies between any bounds of the samples |
| SchedPeriods.IoAverageOfRest | modules/burst_generator/burstgen.c:247-264 | if the exit time is unknown at first and known from some measurement on, the IO average is the running average of the samples from there on; what was measured before is overwritten |
| SchedPeriods.Meter.Measure | modules/burst_generator/burstgen.c:240-266 | one measurement: the average of the main loop is the running average of its samples, the IO average is updated with the number of exit times known so far as its weight, and both maxima are true maxima |
| Rings.Push | top/gsi_scu/cb.c:57-62 | storing at the write position appends, where there is room |
| Rings.PushOver | top/gsi_scu/cb.c:14-21 | storing into a full ring drops the oldest entry and no other |
| Rings.Pop | top/gsi_scu/cb.c:76-79 | reading at the read position takes the oldest entry |
| Rings.FullMeans | top/gsi_scu/cb.h:13-39 | equal positions mean empty; a write position just behind the read position means size - 1 entries |
| MessageBuffers.MessageBuffer.AddMsg | top/gsi_scu/cb.c:56-68 | a message is refused if and only if 63 are held; else it is appended |
| MessageBuffers.MessageBuffer.RemoveMsg | top/gsi_scu/cb.c:74-85 | takes the oldest message, or gives back all ones |
| MessageBuffers.MessageBuffer.HasMsg | top/gsi_scu/cb.c:91-96 | tells whether a message is held |
| MessageBuffers.RemovedIsPrefix | top/gsi_scu/cb.c:56-85 | with the interrupt falling between any two memory accesses of the removal, the messages removed are the first of those accepted, in order and unharmed, in every run |
| MessageBuffers.EveryRunGoesOn | top/gsi_scu/cb.c:56-85 | from every state with the invariant every sequence of accesses and interrupts is a run: none is cut short |
| MessageBuffers.StartIsInv | top/gsi_scu/cb.h:73-82 | the empty ring, whatever its slots hold, is where the runs begin |
| MessageBuffers.AddKeepsInv | top/gsi_scu/cb.c:56-68 | an interrupt refuses its message if and only if 63 are held, and leaves the message being copied alone |
| MessageBuffers.EmptyIsTrue | top/gsi_scu/cb.c:74-85 | a removal finds nothing if and only if all that was accepted when it looked has been removed |
| MessageBuffers.UndisturbedRemove | top/gsi_scu/cb.c:74-85 | undisturbed, the eight accesses are one removal |
| ChannelBuffers.ChannelBuffer.Write | top/gsi_scu/cb.c:13-22 | below 120 entries the new one is appended, at 120 the oldest is dropped for it |
| ChannelBuffers.AnyWrites | top/gsi_scu/cb.c:13-22 | after any number of writes the buffer holds the newest 120 of what was held and all that was written, in order |
| ChannelBuffers.ChannelBuffer.Read | top/gsi_scu/cb.h:47-59 | takes the oldest entry, or leaves the destination alone |
| ChannelBuffers.ChannelBuffer.IsEmpty | top/gsi_scu/cb.h:13-15 | tells whether nothing is held |
| ChannelBuffers.ChannelBuffer.GetCount | top/gsi_scu/cb.h:21-28 | the number of entries held, for every pair of positions |
| ChannelBuffers.ChannelBuffer.IsFull | top/gsi_scu/cb.h:35-39 | tells whether 120 entries are held |
| Histories.History.AddX | top/gsi_scu/history.c:43-59 | logs an entry of an enabled subsystem; the ring of n slots holds the newest n - 1 |
| Histories.History.EnableSubsystem | top/gsi_scu/history.c:33-36 | the subsystems that share a bit with the argument are logged from now on, and those that were before; the entries stay |
| Histories.History.DisableSubsystem | top/gsi_scu/history.c:38-41 | the subsystem of the argument is no longer logged, and no subsystem without a bit in common with it is concerned; the entries stay |
| Histories.History.Print | top/gsi_scu/history.c:66-89 | prints exactly the newest n - 1 entries, oldest first, each with its time divided by 1000, its message, and its data unless that is 0xff |
| MiniSdb.FindSdbDeep | modules/lm32-include/mini_sdb.c:38-128 | the recursive search fills the array as the specified search does |
| MiniSdb.OwnMsi | modules/lm32-include/mini_sdb.c:48-62 | the first loop finds how many own MSI records a crossbar has and what they make of the MSI address |
| MiniSdb.WalkIsComplete | modules/lm32-include/mini_sdb.c:66-125 | the walk visits every record that is not below a malformed crossbar, once, in the order of the positions, a bridge before what is behind it, with the offsets and own records on its path |
| MiniSdb.MalformedIs | modules/lm32-include/mini_sdb.c:48-63 | a crossbar is malformed if and only if two of its records are own MSI records |
| MiniSdb.OwnOfIs | modules/lm32-include/mini_sdb.c:48-62 | what the only own record makes of a crossbar: an unconnected slave, or its first address |
| MiniSdb.LocatedIs | modules/lm32-include/mini_sdb.c:76-87 | every field of an entry: the record, the sum of the offsets, and the two MSI addresses |
| MiniSdb.SearchFinds | modules/lm32-include/mini_sdb.c:38-128 | in a tree without malformed crossbars (two own MSI records) the search appends exactly the matching records in preorder, cut at qty, each with the sums along its path; bridges included |
| MiniSdb.SearchCollects | modules/lm32-include/mini_sdb.c:38-128 | for every tree: the search plays the preorder walk, in which a matching record is entered and a malformed crossbar is not entered but puts the number found back to 0, until qty are found |
| MiniSdb.CollectFills | modules/lm32-include/mini_sdb.c:63-70 | if every malformed crossbar on the walk comes before the first match or after the array is full, the outcome is the first qty matches |
| MiniSdb.SearchCountIsRight | modules/lm32-include/mini_sdb.c:38-128 | the number found is the smaller of qty and all there are if and only if nothing found is forgotten before the array is full, or the matches behind some malformed crossbar fill it again |
| MiniSdb.SearchIsRight | modules/lm32-include/mini_sdb.c:38-128 | the array holds the first matches in preorder if and only if nothing found is forgotten before it is full, or the entries found instead are the same locations; if no two matches have the same location, if and only if nothing is forgotten |
| MiniSdb.Refilled | modules/lm32-include/mini_sdb.c:63-70 | otherwise a search that is filled again ends up with the first matches behind the first malformed crossbar from which it is filled |
| MiniSdb.OnlyMatches | modules/lm32-include/mini_sdb.c:38-128 | whatever is forgotten, every entry counted in the end is a match or was there before |
| MiniSdb.FirstIsRight | modules/lm32-include/mini_sdb.c:166-176 | with room for one entry nothing is lost if and only if the first match is not a bridge to a malformed crossbar, and then the first match is found |
| MiniSdb.DeviceForgotten | modules/lm32-include/mini_sdb.c:63-70 | a device found before a malformed crossbar is lost: the search reports none |
| MiniSdb.SumIsTotal | modules/lm32-include/mini_sdb.c:89-89 | the address is the sum of the bridge offsets on the path, in 32 bits |
| MiniSdb.MsiIsMeant | modules/lm32-include/mini_sdb.c:57-58 | the MSI address is none after an unconnected record, else the sum, if and only if no sum on the way is by accident the value that means none |
| MiniSdb.AccidentHappens | modules/lm32-include/mini_sdb.c:57-58 | such an accident: an address found as none although it is connected |
| MiniSdb.TwoOwnsForget | modules/lm32-include/mini_sdb.c:63-70 | in every tree, behind a bridge to a malformed crossbar the search goes on with none found, even if that bridge matched and filled the array |
| MiniSdb.GetMsiUpperRange | modules/lm32-include/mini_sdb.c:131-148 | the upper end of the first MSI record whose flags are exactly 0x80000000, or 0 |
| MiniSdb.FindDeviceMulti | modules/lm32-include/mini_sdb.c:156-164 | what the walk of the whole tree collects; without malformed crossbars the first qty matches |
| MiniSdb.FindDeviceAdr | modules/lm32-include/mini_sdb.c:166-201 | in every tree: of the first visit that matches and is not a bridge to a malformed crossbar, all offsets on the way and its own added up in 32 bits; the error value for none, for a malformed root and for an MSI record; without malformed crossbars it is the first match of all |
| MiniSdb.FindInSubtree | modules/lm32-include/mini_sdb.c:179-182 | from a bridge that was found, the search collects what the walk of the whole tree has below it, at the same addresses |
| FwLoad.Loader.Load | tools/eb-fwload.c:497-563 | the processor is released if and only if both ends lie on edges and the image reaches a bulk boundary; then every cycle has been acknowledged, the memory holds the image byte for byte, the writes tile it in order, bulk words between the bulk boundaries and edge words around them, and at most cycles + 6 cycles were ever unacknowledged; else it stays in reset; beside the image nothing changes |
| FwLoad.Loader.Head | tools/eb-fwload.c:510-517 | edge words up to the first bulk boundary |
| FwLoad.Loader.Bulk | tools/eb-fwload.c:519-538 | bulk words up to the last bulk boundary, at most 32 to a cycle; the flushes keep the cycles without acknowledgement within their number |
| FwLoad.Loader.Tail | tools/eb-fwload.c:540-542 | edge words up to the end |
| FwLoad.Loader.Transfer | tools/eb-fwload.c:118-170 | one cycle of words in file order, or a short read before anything is sent |
| FwLoad.Loader.Drain | tools/eb-fwload.c:551-553 | acknowledgements in any order until none is missing |
| FwPlan.TiledCovers | tools/eb-fwload.c:136-170 | tiling writes cover every address of the range, and once only |
| FwPlan.Landed | tools/eb-fwload.c:94-115 | whichever cycle lands next, what is good stays good and what is missing stays under way |
| FwPlan.StoreRight | tools/eb-fwload.c:143-158 | a word stores the image bytes it was built from, in either byte order, and touches no other |
| FwWidths.PickWidths | tools/eb-fwload.c:424-444 | bulk is the widest and edge the narrowest width that device and line have in common |

## Left out

- EbFlash.Programmer.FlashTool: addresses are unbounded numbers; a read of the erase register gives what the cell at its address holds, a write of data to it is refused while programming and kept out of the probing by `FlashPlan.Setup.ProbesSafe`, which the tool does not test; the command bytes behind an erase, the polling of the chip and the retries are one erase.
- EbFlash.Programmer.FlashTool: asks, as the tool does not check it, for a given sector size that fits the bitmap and the chip (`FlashPlan.Setup.Fits`); a probed size that is believed fits the bitmap by itself if pages have at most 8 KiB, and with larger pages the same is asked for.
- EbFlash.Programmer.ChooseSectorSize: the chip has power-of-two sectors of at least a page, and the image begins at one of them.
- EbFlash.Programmer.DetectSectorSize: bus errors and segfaults end the tool and are not modelled, here and in all other phases.
- Crc32.CrcWord: the tables are represented by their generator, which `Crc32Tables` ties to 72 of the 2048 literals, from which it gives all others; lengths and addresses are unbounded numbers and the machine is little-endian, as the source says.
- Crc8.CrcWord: the same.
- BurstTasks.ToggleLeaves: asks for a positive period; with period 0 the code divides by 0.
- BurstGen.Apply: clocks, deadlines, periods and event ids are unbounded numbers, a cycle count is a signed number; the joining of two 32-bit halves and wrap-around at 64 bits are not modelled.
- BurstFirmware.Firmware.DoActionOperation: every task is continuous, as the set-up makes them; counters of ECA messages, clearing of failed actions and the run of empty instructions after a refused pass are not modelled.
- SchedPeriods.Meter.Measure: the code counts only samples of the main loop, so if exit times become unknown again the average of the IO actions has no simpler meaning than its weights; `SchedPeriods.IoAverageOfRest` covers runs in which they do not.
- MessageBuffers.RemovedIsPrefix: one interrupt does not interrupt another, and word accesses are atomic, as on the processor of the firmware.
- Histories.History.Print: the text that is printed is a list of lines; the endless loop that follows if the caller asks for it is not modelled.
- MiniSdb.SearchFinds: the records are a tree, each crossbar beginning with its interconnect record, as the format has it; where the child of a bridge lies in memory is not modelled, and neither is the address of a record itself, so two matches that read the same and have the same sums on their way count as the same location.
- FwLoad.Loader.Load: the number of cycles between flushes is a parameter; its computation from the line width, the verbose output, the error exits of the bus and the forced mode are not modelled.
- Dallas.GetId: the bus scan is a list of ids; opening the device is not modelled, and the host is little-endian.
- `add_daq_msg` and `cbDump`: the first has no test for a full ring and the second only prints.
- Consoles, displays, monitoring output, mailboxes, the timer, `eb-clock` and `eb-asmi`: plumbing or other models.
