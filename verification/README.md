# Verified model of the Ingenic boot tools

The boot tools bring up boards with Ingenic XBurst processors over USB. This project models, in Dafny, the five parts
of them whose correctness is hardest to see, and proves what each part guarantees, for every input, every fault and
every verdict of the hardware.

**Power-on self test of the SDRAM** (`BoardModel`, `DataLine`, `MemoryPost`, `PostDriver`). A board is a 64-line data
bus whose lines may be crossed, stuck or floating, an address decoder that need not be injective, and cells that may
have stuck bits. The tests are methods that write and read this board in place. The suite returns 0 exactly when the
lines, the decoder and the cells of the region are all sound (`MemoryPostTests` with `CertifiedRegion`), and never
changes a cell outside the region. The single tests are characterised too: what each of them detects, and what it
misses.

**Writing a file to the SD card** (`SdDevice`, `SdProgram`). The device has an address register, a length register, a
bulk buffer and a card; the program cuts the file into chunks, reuses one buffer, fills the tail with zeros and
optionally reads back. On success the card is the old card with the padded file spliced in; on failure only one chunk is
in doubt. With checking on, that holds even if the device stores something else than it was sent.

**PLL dividers** (`Pll`, `Pll4760`, `Pll4760Exact`, `Pll4770`). The JZ4760 search returns the setting whose decoded output
is closest to the wanted speed, in spite of its pruning and its early exit. That is first shown in the machine's own
arithmetic; in terms of true frequencies it holds, for every speed up to 1500 MHz, exactly for the crystals whose 254-fold
stays below 2^32 (`Pll4760Exact.ClosestExactly`). The JZ4770 closed form returns exactly under a stated
condition, and its register then decodes to a known multiple of the crystal frequency.

**DDR delay calibration** (`DelaySearch`, `Calibration4770`, `Calibration4760`). Against an arbitrary pass/fail oracle:
which windows the searches record, which centre they take, and that the configuration left behind is one that passed.

**DDR timing and geometry** (`DdrRounding`, `DdrTiming`, `DdrGeometry`, `DdrMap`). Delays are rounded up and packed into
words that read back to long enough waits, the refresh comes in time under an exact condition, the configuration word
gives the size of the memory back, and the two address windows show both chips under an exact condition.

`Arith` and `Bits` hold the arithmetic of quotients and the bitwise operators that all parts share.

## Where the code falls short

The model follows the code. These are places where the code does not do what its documentation or its purpose says;
each is a theorem below.

- The power-on test takes the memory to have `bank_num / (bank_num + 1)` of the configured size, although its
  documentation says that slow mode verifies the whole RAM (`PostDriver.SizesCompared`). Normal mode, besides, tests
  addresses from 0 rather than from the SDRAM base, and sees a single dead address line exactly up to bit 10, within its
  windows (`PostDriver.NormalModeSeesDeadLine`); slow mode sees each line that the tested region reaches past
  (`PostDriver.SlowModeSeesDeadLine`).
- Test 2 misses every alias at a distance that is a multiple of 32 words (`MemoryPost.WalkingBitDetectsAliases`).
- The SD program never finishes a file below 2^32 blocks that ends inside the last block of a full chunk
  (`SdProgram.IncompleteSizes`). From 2^32 blocks on it sends only what the block count wraps to, which for a multiple of
  2^32 is nothing, and succeeds without the file being on the card (`SdProgram.ImageIsPadded`,
  `SdProgram.EmptyPlanExactly`, `SdProgram.HugeFiles`).
- With any crystal whose 254-fold reaches 2^32 (about 16.9 MHz) and that allows some divider, the JZ4760 search goes wrong
  for some speed of at most 750 MHz (`Pll4760Exact.GuardNeeded`). From 24 MHz, asked for 900.516352 MHz, it ends on a
  setting of 3048 MHz (`Pll4760Exact.OverflowFakesMatch`).
- With the board's 12 MHz crystal the JZ4770 code hangs on 77 to 83 MHz (`Pll4770.BoardCrystal`); with a crystal of
  fractional MHz, and with no other, its output can exceed the wanted speed (`Pll4770.CloseExactly`).
- The JZ4770 delay search hangs on a board on which every delay works (`DelaySearch.AllPassingIsRejected`).
- `jzmemset` takes a length in bytes, and the JZ4760 search passes it the number of entries, so that it clears nothing;
  no entry is read before it is written, so the search is right all the same (`Calibration4760.SearchFirstWindow`).
- The refresh count underflows to its cap when not even one counter tick fits into the refresh interval
  (`DdrRounding.RoomMissing`), and its cap of 12 bits is wider than its register field of 8
  (`DdrRounding.RefreshCountFits`).
- Delays are long enough exactly when the cycle time was not rounded up; a clock that is not a whole number of kHz can
  break this (`DdrRounding.DelaysSafeExactly`, `DdrRounding.FractionalKilohertz`).
- A self-refresh time is covered exactly up to 129 cycles, while three of the shipped headers ask for 140
  (`DdrTiming.Timing2WaitsLongEnough`).
- A write-to-read delay of 0 fills the whole first timing word with ones (`DdrTiming.CommonRegs.ComputeTiming1`).
- With chips below 16 MB or above 512 MB the address windows do not show the memory (`DdrMap.InitMemory`).

## Assumptions

- `unsigned long` has 32 bits. Signed and unsigned operands that the code mixes are compared as unsigned.
- The hardware is deterministic: the same board gives the same readings, the same configuration the same verdict.
- What a board was told to store, in order, is kept as a record beside it that no reading depends on.
- A floating data line reads as the level that was last driven on it. A 64-bit access is two 32-bit accesses, the lower
  address first; each half word drives half of the lines.
- The firmware of the device is not part of this model. `SdDevice.Device` states what the host program relies on:
  CARD_PROGRAM stays within the addressed blocks, CARD_READ delivers what the card holds.
- `read` returns between 0 and the requested number of bytes.
- The constant EXTAL of the PLL decoders is the crystal frequency that the dividers were chosen for.
- A window of the DDR controller takes an address when its top byte, and-ed with the mask, is the base.
- A field f for tRAS, tRC or tRFC stands for 2 f + 1 cycles and a field f for tMINSR for 8 (f + 1) + 1; the header says so
  for tRAS and the rounding code implies the others.

## Model

| member | source | states |
|---|---|---|
| BoardModel.GoodLinesSense | source/fw_src/stage1/JZ4725_50_55/memory.c:41-50 | Sound lines deliver what the memory drives, whatever charge the last write left on them. |
| BoardModel.Board.Write64 | source/fw_src/stage1/JZ4725_50_55/memory.c:199-209 | A 64-bit move stores both halves, the lower address first, so that shared cells keep the later half, and leaves its levels on the lines. |
| BoardModel.Board.Read32 | source/fw_src/stage1/JZ4725_50_55/memory.c:336-336 | On sound lines a read returns what the addressed cell recalls of its contents. |
| DataLine.PatternCode | source/fw_src/stage1/JZ4725_50_55/memory.c:220-233 | Pattern i carries binary digit i of the line number on every line, and pattern 11 - i its complement. |
| DataLine.DatalineExact | source/fw_src/stage1/JZ4725_50_55/memory.c:82-91 | Over all assignments of lines, the twelve patterns read back exactly when every line reads itself and the probed cells are sound and distinct where it matters. |
| DataLine.FloatingReadsOther | source/fw_src/stage1/JZ4725_50_55/memory.c:86-91 | A floating line reads back the pattern that was written last, whatever was stored. |
| DataLine.MemoryPostDataline | source/fw_src/stage1/JZ4725_50_55/memory.c:237-281 | Returns 0 exactly when every line reads itself and the probe is sound; it stores the twelve patterns, each with the other pattern behind it, and nothing else. |
| MemoryPost.LastWriter | source/fw_src/stage1/JZ4725_50_55/memory.c:329-333 | The last word of the filled region that reaches a cell, if any does. |
| MemoryPost.FillRegion | source/fw_src/stage1/JZ4725_50_55/memory.c:364-368 | Stores the fill to every word in order, after which every cell holds the value of its last writer, and cells without one are unchanged. |
| MemoryPost.CheckRegion | source/fw_src/stage1/JZ4725_50_55/memory.c:370-387 | The second loop returns 0 exactly when every word reads as it was written, through any lines. |
| MemoryPost.FillAndReadBack | source/fw_src/stage1/JZ4725_50_55/memory.c:320-461 | Both loops together, on any board: 0 exactly when every word then reads as written; on sound lines, exactly when each word's last aliasing writer, seen through the cell's stuck bits, gave the word's own value. Nothing outside the region changes. |
| MemoryPost.MemoryPostTest1 | source/fw_src/stage1/JZ4725_50_55/memory.c:320-355 | The same for a constant. |
| MemoryPost.MemoryPostTest2 | source/fw_src/stage1/JZ4725_50_55/memory.c:357-390 | The same for a walking bit. |
| MemoryPost.MemoryPostTest3 | source/fw_src/stage1/JZ4725_50_55/memory.c:392-425 | The same for the word's index. |
| MemoryPost.MemoryPostTest4 | source/fw_src/stage1/JZ4725_50_55/memory.c:427-461 | The same for the complement of the word's index. |
| MemoryPost.FillDigits | source/fw_src/stage1/JZ4725_50_55/memory.c:135-143 | Digit by digit, the fills are one walking bit, the index, and its complement. |
| MemoryPost.AliasesAgree | source/fw_src/stage1/JZ4725_50_55/memory.c:129-143 | On sound cells a fill reads back exactly when words that share a cell were given equal values. |
| MemoryPost.ConstantsDetectStuckBits | source/fw_src/stage1/JZ4725_50_55/memory.c:477-481 | All zeros and all ones both read back exactly when no cell of the region has a stuck bit, for every decoder. |
| MemoryPost.OffsetsDetectAliases | source/fw_src/stage1/JZ4725_50_55/memory.c:392-461 | On sound cells tests 3 and 4 each pass exactly when no two words of the region share a cell. |
| MemoryPost.WalkingBitDetectsAliases | source/fw_src/stage1/JZ4725_50_55/memory.c:357-390 | On sound cells test 2 passes exactly when words that share a cell have indices congruent modulo 32. |
| MemoryPost.CompareWithTarget | source/fw_src/stage1/JZ4725_50_55/memory.c:296-304 | On sound cells one address line is reported exactly when both addresses share a cell, whatever they held before; only the tested cell is written. |
| MemoryPost.MemoryPostAddrline | source/fw_src/stage1/JZ4725_50_55/memory.c:283-318 | Ends by overflow of the shifted bit. On sound lines and cells, for a region that does not wrap, it returns -1 exactly when some word of the region lies at an address that differs from testaddr in one bit from bit 2 up and appears in its cell. |
| MemoryPost.MirrorsAreAliases | source/fw_src/stage1/JZ4725_50_55/memory.c:293-295 | The addresses that the loop compares are the words of the region one bit away, all of them and no others. |
| MemoryPost.TwoAddressLines | source/fw_src/stage1/JZ4725_50_55/memory.c:470-475 | On any board the two runs change at most two cells; on a sound region both pass exactly when neither tested cell appears at a word of the region one bit away. |
| MemoryPost.AddressLineTests | source/fw_src/stage1/JZ4725_50_55/memory.c:470-475 | The same for the first word of the region and the one eight bytes before its end, and both runs pass on every sound, injective region. |
| MemoryPost.ConstantTests | source/fw_src/stage1/JZ4725_50_55/memory.c:477-487 | The four constant tests pass exactly when no cell of the region has a stuck bit; a run that passes has stored all four constants in order. |
| MemoryPost.PatternTests | source/fw_src/stage1/JZ4725_50_55/memory.c:489-496 | Tests 2 to 4 pass, on sound cells, exactly when no two words share a cell; a run that passes has stored all three patterns in order. |
| MemoryPost.MemoryPostTests | source/fw_src/stage1/JZ4725_50_55/memory.c:463-500 | For every combination of faults of lines, decoder and cells: 0 exactly when the region is certified; in every case only cells reached from the region change, and a run that passes has gone through the stores of all tests in order. |
| MemoryPost.CertifiedRegion | source/fw_src/stage1/JZ4725_50_55/memory.c:463-500 | From 16 bytes on, certified means sound lines, sound cells and no two words of the region in one cell, and the cells that may change are exactly those of the region. |
| PostDriver.ComputeMemsize | source/fw_src/stage1/JZ4725_50_55/memory.c:510-517 | The doubling loop computes 2^(row+col) · banks · (4 or 8) modulo 2^32. |
| PostDriver.SizesCompared | source/fw_cfg_tool/fw_cfg_tool.c:272-275 | The tested size times (bank_num + 1) is the configured size times bank_num, so the test always falls short. |
| PostDriver.WindowCount | source/fw_src/stage1/JZ4725_50_55/memory.c:538-542 | Both windows of a mebibyte are tested exactly when it lies below the memory size. |
| PostDriver.WindowsSeparate | source/fw_src/stage1/JZ4725_50_55/memory.c:538-543 | The windows of normal mode are pairwise disjoint and stay below the memory size. |
| PostDriver.TestMebibyte | source/fw_src/stage1/JZ4725_50_55/memory.c:538-543 | The two windows of a mebibyte: 0 exactly when both are certified, and only cells of windows change. |
| PostDriver.TestWindows | source/fw_src/stage1/JZ4725_50_55/memory.c:536-544 | Normal mode returns 0 exactly when the first and the last 2 KiB of every whole mebibyte below the memory size are certified by themselves, and only cells that they reach change. |
| PostDriver.MemoryPostTest | source/fw_src/stage1/JZ4725_50_55/memory.c:502-547 | Either mode returns 0 exactly when the region, or each window, is certified, and changes only cells of the region, or of the windows. |
| PostDriver.ShortRegionPasses | source/fw_src/stage1/JZ4725_50_55/memory.c:145-150 | A region no longer than the weight of a dead line does not notice it, wherever the region lies. |
| PostDriver.NormalModeSeesDeadLine | source/fw_src/stage1/JZ4725_50_55/memory.c:145-150 | For each single dead address line from bit 2 up and every memory size: normal mode passes if and only if it tests no window or the line is bit 11 or above. |
| PostDriver.SlowModeSeesDeadLine | source/fw_src/stage1/JZ4725_50_55/memory.c:149-150 | For each such line, slow mode passes if and only if the tested region does not reach past the line, or for bit 29, which the base has set, past it twice. |
| SdDevice.Device.SetAddress | source/basic_cmd_lib/basic_cmd_lib.c:282-303 | The two 16-bit halves put the 32-bit address together again. |
| SdDevice.Device.Operate | source/stage2_cmd_tool/stage2_sd.c:65-67 | The assumed firmware: programming stays within the addressed blocks, reading delivers them. |
| SdProgram.SdCardWrite | source/stage2_cmd_tool/stage2_sd.c:49-78 | Changes nothing outside the addressed blocks; success on a faithful device means that they hold the buffer, and in every case that one handshake came back. |
| SdProgram.SdCardRead | source/stage2_cmd_tool/stage2_sd.c:28-46 | Success means that the buffer holds the addressed blocks; the card is unchanged. |
| SdProgram.PlanCovers | source/stage2_cmd_tool/stage2_sd.c:119-136 | For every size the counters describe the number of blocks modulo 2^32: full chunks and a last one. |
| SdProgram.ChunkPlace | source/stage2_cmd_tool/stage2_sd.c:159-204 | Chunks tile the counted blocks, and the file holds what each but the last asks for. |
| SdProgram.ImageIsPadded | source/stage2_cmd_tool/stage2_sd.c:119-136 | What the counters make of the file is the padded file below 2^32 blocks, and falls short of the file from there on. |
| SdProgram.ReadChunk | source/stage2_cmd_tool/stage2_sd.c:162-204 | The front of the buffer is the file's next bytes followed by bytes of value 0: nothing of an earlier chunk is left in it. |
| SdProgram.TransferChunk | source/stage2_cmd_tool/stage2_sd.c:206-261 | With a faithful device, or with checking, success means that the card holds the buffer. |
| SdProgram.ProgramChunk | source/stage2_cmd_tool/stage2_sd.c:159-265 | One chunk: read, written, compared; only its own blocks can change. |
| SdProgram.ChunkImage | source/stage2_cmd_tool/stage2_sd.c:165-181 | What goes out for chunk i is the matching piece of that image. |
| SdProgram.ChunkAddress | source/stage2_cmd_tool/stage2_sd.c:207-218 | The blocks of chunk i lie right behind those of the chunks before it, and end with the image. |
| SdProgram.ChunkWritten | source/stage2_cmd_tool/stage2_sd.c:206-261 | A card that holds the first i chunks, and then chunk i, holds the first i + 1. |
| SdProgram.ProgramChunks | source/stage2_cmd_tool/stage2_sd.c:158-271 | The loop: complete runs splice the image in, broken ones leave one chunk in doubt, empty plans leave the card alone, and ideal conditions lead to the end. |
| SdProgram.SdCardProgram | source/stage2_cmd_tool/stage2_sd.c:99-285 | Success below 2^32 blocks: byte by byte the card holds the file at the address, zeros up to the end of its last block, and is otherwise as it was, even without a faithful device if checking is on. In general it holds the image of the file, which is the padded file exactly below 2^32 blocks. Failure: the chunks before the doubtful one are complete and the rest is untouched. Success takes one handshake a chunk. Under ideal conditions it succeeds. |
| SdProgram.CompletesExactly | source/stage2_cmd_tool/stage2_sd.c:195-203 | The file holds all that is asked of it unless a last chunk that is full ends in a partial block, below 2^32 blocks. |
| SdProgram.IncompleteSizes | source/stage2_cmd_tool/stage2_sd.c:195-203 | The sizes that the program can never finish are exactly those below 2^32 blocks that end inside the last block of a full chunk. |
| SdProgram.CountersExactly | source/stage2_cmd_tool/stage2_sd.c:119-127 | The block count is right exactly below 2^32 blocks. |
| SdProgram.EmptyPlanExactly | source/stage2_cmd_tool/stage2_sd.c:119-136 | A plan without any transfer results exactly for multiples of 2^32 blocks. |
| SdProgram.HugeFiles | source/stage2_cmd_tool/stage2_sd.c:119-136 | A file of 2^41 bytes is one of them; with 2560 bytes more, five blocks are sent. |
| Pll.EnabledRuns | source/fw_src/stage1/jz4760(B)/board_4760.c:164-165 | A register written with stable time and enable bit counts as running. |
| Pll4760.LegalExactly | source/fw_src/stage1/jz4760(B)/board_4760.c:50-81 | The limits that the search checks, in plain numbers. |
| Pll4760.BeforeExactly | source/fw_src/stage1/jz4760(B)/board_4760.c:65-80 | Settings are visited in the order of their dividers read as the digits of one number. |
| Pll4760.PrunedN | source/fw_src/stage1/jz4760(B)/board_4760.c:75-76 | Leaving the loop at xtal / n below 1 MHz skips no legal setting. |
| Pll4760.PerfectMatch | source/fw_src/stage1/jz4760(B)/board_4760.c:95-98 | The early exit at distance 0 returns what the full search would. |
| Pll4760.VisitOne | source/fw_src/stage1/jz4760(B)/board_4760.c:80-100 | One visit keeps the first of the closest settings seen so far. |
| Pll4760.SearchBlock | source/fw_src/stage1/jz4760(B)/board_4760.c:71-102 | The middle loop, pruned, leaves the first of the closest settings up to the next output divider. |
| Pll4760.SearchAll | source/fw_src/stage1/jz4760(B)/board_4760.c:63-104 | The word is the first, in loop order, of the legal settings with the least distance, or 0 if there is none. |
| Pll4760.TwoDivisions | source/fw_src/stage1/jz4760(B)/board_4760.c:83-84 | Dividing by n and then by the output divider gives what the decoder gets by dividing once. |
| Pll4760.DecodedOutput | source/fw_src/stage1/jz4760(B)/jz4760.h:5079-5092 | Whatever setting is packed, the decoder computes from the enabled register the frequency that the search expected. |
| Pll4760.PllCalcMNOd | source/fw_src/stage1/jz4760(B)/board_4760.c:48-105 | If any setting is legal, the decoded output of the returned word is as close to the wanted speed as that of any legal setting, and closer than that of any earlier one; without a legal setting the word is 0. |
| Pll4760.BestExists | source/fw_src/stage1/jz4760(B)/board_4760.c:63-104 | Where a setting is legal, one of the legal settings is first among the closest. |
| Pll4760Exact.TrueLegalExactly | source/fw_src/stage1/jz4760(B)/board_4760.c:66-80 | The limits of exact arithmetic, in plain numbers. |
| Pll4760Exact.ExactOd | source/fw_src/stage1/jz4760(B)/board_4760.c:69-70 | Where the product with the output divider fits 32 bits, its range check is that of exact arithmetic. |
| Pll4760Exact.OutputTrueExactly | source/fw_src/stage1/jz4760(B)/board_4760.c:83-84 | What the search expects of a setting is its true frequency exactly when xtal · 2m stays below 2^32. |
| Pll4760Exact.StrayLoses | source/fw_src/stage1/jz4760(B)/board_4760.c:69-70 | A setting whose output divider is legal only because its product wrapped loses to an earlier one with divider 1. |
| Pll4760Exact.GuardSuffices | source/fw_src/stage1/jz4760(B)/board_4760.c:48-105 | For xtal · 254 below 2^32 and every speed up to 1500 MHz, the result is legal in exact arithmetic and as close to the speed, in true frequency, as any setting that is. |
| Pll4760Exact.TrueDecoded | source/fw_src/stage1/jz4760(B)/board_4760.c:48-105 | And the register then decodes to that true frequency. |
| Pll4760Exact.OnlyHit | source/fw_src/stage1/jz4760(B)/board_4760.c:83-86 | The frequency asked for in the probe of a fast crystal is met, in truth, by one setting alone. |
| Pll4760Exact.FartherThanMiddle | source/fw_src/stage1/jz4760(B)/board_4760.c:83-89 | Through its wrapped product that setting looks further off than another, so the search does not end on it. |
| Pll4760Exact.GuardNeeded | source/fw_src/stage1/jz4760(B)/board_4760.c:48-105 | Every faster crystal that allows some divider gets a setting that is not the closest, for some speed up to 750 MHz. |
| Pll4760Exact.ClosestExactly | source/fw_src/stage1/jz4760(B)/board_4760.c:48-105 | For each crystal: the search is right for all speeds up to 1500 MHz if and only if xtal · 254 stays below 2^32, or no divider is legal. |
| Pll4760Exact.OverflowFakesMatch | source/fw_src/stage1/jz4760(B)/board_4760.c:83-98 | From 24 MHz, asked for 900.516352 MHz, the search ends on a setting of 3048 MHz, although 900 MHz is legal. |
| Pll4770.ReturnsExactly | source/fw_src/stage1/jz4770/board_4770.c:70-132 | The program returns exactly when the crystal, the multiplier and the scaled output are in range. |
| Pll4770.ReturnsInNumbers | source/fw_src/stage1/jz4770/board_4770.c:70-132 | The same in plain numbers. |
| Pll4770.ReturnedFields | source/fw_src/stage1/jz4770/board_4770.c:99-127 | The fields of a returned word: M is the ratio times the output divider less one, and fits. |
| Pll4770.BandBit | source/fw_src/stage1/jz4770/board_4770.c:105-127 | Bit 31 of a returned word is set exactly when crystal times multiplier, in MHz, reaches 500. |
| Pll4770.DividerBySpeed | source/fw_src/stage1/jz4770/board_4770.c:73-99 | N is 0, and the output divider field is 0 from 301 MHz on, 1 from 156, 2 from 77 and 3 from 48. |
| Pll4770.DecoderFits | source/fw_src/stage1/jz4770/jz4770.h:4738-4751 | The range checks keep the decoder's product below 2^32, so its division is exact. |
| Pll4770.DecodedOutput | source/fw_src/stage1/jz4770/jz4770.h:4738-4751 | Whenever the program returns, the register decodes to the whole multiple of the crystal frequency that was chosen. |
| Pll4770.OutputClose | source/fw_src/stage1/jz4770/board_4770.c:70-102 | That output lies in (speed - xtal, speed] exactly when the ratio in whole MHz is the true ratio. |
| Pll4770.WholeCrystal | source/fw_src/stage1/jz4770/board_4770.c:70-71 | For a crystal of whole MHz it is, for every speed. |
| Pll4770.CloseExactly | source/fw_src/stage1/jz4770/board_4770.c:70-112 | With a crystal that the program accepts, every output lies in (speed - xtal, speed] if and only if the crystal is one of whole MHz. |
| Pll4770.FractionalCrystal | source/fw_src/stage1/jz4770/board_4770.c:70-71 | From 19.9 MHz, 190 MHz becomes 199 MHz. |
| Pll4770.BoardCrystal | source/fw_src/stage1/jz4770/board_4770.c:73-126 | From 12 MHz the program returns exactly for 48 to 76 and 84 to 1200 MHz. |
| DelaySearch.DelayAt | source/fw_src/stage1/jz4770/jz4770_ddr2.c:477-479 | Position j is msel, hl inverted and quar, as the digits of j. |
| DelaySearch.SearchRow | source/fw_src/stage1/jz4770/jz4770_ddr2.c:474-497 | One row records the first run of passes, in order, and counts it only when a fail ends it. |
| DelaySearch.VisitRow | source/fw_src/stage1/jz4770/jz4770_ddr2.c:473-500 | One round keeps the table: one entry for every row with a closed run, in order of tsel. |
| DelaySearch.SearchWindows | source/fw_src/stage1/jz4770/jz4770_ddr2.c:470-500 | The table describes exactly the closed rows up to where the search stops. |
| DelaySearch.ClosedRows | source/fw_src/stage1/jz4770/jz4770_ddr2.c:484-488 | The recorded rows are all the closed ones, with strictly increasing tsel. |
| DelaySearch.FoundExactly | source/fw_src/stage1/jz4770/jz4770_ddr2.c:498-504 | Nothing is found exactly when no row has a pass followed at once by a fail. |
| DelaySearch.AllPassingIsRejected | source/fw_src/stage1/jz4770/jz4770_ddr2.c:501-504 | A board on which every delay passes is turned away. |
| DelaySearch.MidpointPasses | source/fw_src/stage1/jz4770/jz4770_ddr2.c:522-522 | The midpoint of a recorded run passes. |
| DelaySearch.ChoiceWorks | source/fw_src/stage1/jz4770/jz4770_ddr2.c:501-528 | For every oracle the search hangs exactly when no pass is followed by a fail, and otherwise goes on with a setting that passed. |
| DelaySearch.StopsExactly | source/fw_src/stage1/jz4770/jz4770_ddr2.c:498-499 | The search stops exactly behind a row without a pass that comes after a row with a closed run. |
| DelaySearch.FoundIsListed | source/fw_src/stage1/jz4770/jz4770_ddr2.c:470-500 | The recorded rows are those with a closed run that no such stop cuts off, in order. |
| DelaySearch.ChoosesMedian | source/fw_src/stage1/jz4770/jz4770_ddr2.c:519-528 | The setting is the middle of the first closed run of the median of those rows. |
| DelaySearch.ChooseDelay | source/fw_src/stage1/jz4770/jz4770_ddr2.c:470-528 | The loops over the tables arrive at that setting, for every oracle: nothing if no row is listed, else the middle of the median row's first run. |
| Calibration4770.DqsWordRoundTrip | source/fw_src/stage1/jz4770/jz4770_ddr2.c:540-540 | The sign and magnitude word decodes to every offset that is tried, and leaves the write strobe's part alone. |
| Calibration4770.InitialInRange | source/fw_src/stage1/jz4770/jz4770_ddr2.c:530-535 | The widest offset is the reported delay plus 5, at most 31, so that the offset in force, -5, is among those that are tried. |
| Calibration4770.Half | source/fw_src/stage1/jz4770/jz4770_ddr2.c:555-555 | Division by two towards zero. |
| Calibration4770.SearchOffsets | source/fw_src/stage1/jz4770/jz4770_ddr2.c:537-554 | The loop finds the ends of the first run of passing offsets, or leaves the full range. |
| Calibration4770.MiddleOffset | source/fw_src/stage1/jz4770/jz4770_ddr2.c:555-555 | With division towards zero, the middle lies in that run, also for negative offsets. |
| Calibration4770.ChooseOffset | source/fw_src/stage1/jz4770/jz4770_ddr2.c:537-557 | The chosen offset passes if any does, and is 0 otherwise. |
| Calibration4770.Calibrate | source/fw_src/stage1/jz4770/jz4770_ddr2.c:470-569 | Both searches: unless the program hangs, the delay left behind is the middle of the median row's run, the strobe word that of the middle of the first run of offsets, and the two together have passed. |
| Calibration4760.JzMemset | source/fw_src/stage1/jz4760(B)/jz4760_ddr2.c:90-109 | Sets the whole 32-byte groups of `len` bytes and nothing else. |
| Calibration4760.CollectRun | source/fw_src/stage1/jz4760(B)/jz4760_ddr2.c:586-674 | The entries written are exactly the first run of passes of the row. |
| Calibration4760.AverageIsMidpoint | source/fw_src/stage1/jz4760(B)/jz4760_ddr2.c:681-691 | The truncated average of a run is the midpoint of its ends, the form that the JZ4770 uses. |
| Calibration4760.AverageIndex | source/fw_src/stage1/jz4760(B)/jz4760_ddr2.c:681-691 | The summing loop and the division give that midpoint, and 0 for an empty run. |
| Calibration4760.SearchFirstWindow | source/fw_src/stage1/jz4760(B)/jz4760_ddr2.c:580-696 | The search stops at the first row with a pass and takes the midpoint of its first run, which passes; without a pass it goes on with index 0 of the last row. |
| DdrRounding.Ps | source/fw_src/stage1/jz4770/jz4770_ddr2.c:354-354 | The cycle length is the most whole picoseconds whose product with the clock in kHz stays within 10^9. |
| DdrRounding.CountCovers | source/fw_src/stage1/jz4770/jz4770.h:2600-2606 | The count is the least whose cycles, in picoseconds, cover the delay. |
| DdrRounding.CountIsLongEnough | source/fw_src/stage1/jz4770/jz4770_ddr2.c:354-354 | Unless the cycle was rounded up, a count lasts at least its delay. |
| DdrRounding.DelaysSafeExactly | source/fw_src/stage1/jz4770/jz4770_ddr2.c:354-354 | For every clock from 1 kHz on, every delay is long enough exactly when picoseconds times clock do not exceed 10^12. |
| DdrRounding.WholeKilohertz | source/fw_src/stage1/jz4770/jz4770_ddr2.c:354-354 | That holds for every clock of whole kHz. |
| DdrRounding.FractionalKilohertz | source/fw_src/stage1/jz4770/jz4770_ddr2.c:354-354 | At 200.000999 MHz the 1000 cycles given for 5000 ns are over too early. |
| DdrRounding.Tick | source/fw_src/stage1/jz4770/jz4770_ddr2.c:449-449 | A counter tick is 16 times 2^DIV cycles. |
| DdrRounding.RefreshCountIsLargest | source/fw_src/stage1/jz4770/jz4770_ddr2.c:446-453 | With room for two ticks the count is the largest that fits by the rounded cycle, unless it meets the cap. |
| DdrRounding.RoomMissing | source/fw_src/stage1/jz4770/jz4770_ddr2.c:449-451 | Without room for one tick the count is the cap 0xfff and the interval is overshot. |
| DdrRounding.RefreshOnTimeExactly | source/fw_src/stage1/jz4770/jz4770_ddr2.c:446-455 | For every clock the refresh comes in time, by the count and by what its eight-bit field keeps of it, exactly when two counter ticks fit into the interval and one does by the rounded cycle. |
| DdrRounding.TwoTicksDecide | source/fw_src/stage1/jz4770/jz4770_ddr2.c:446-453 | Up to 1 GHz the two ticks alone decide. |
| DdrRounding.RefreshCountFits | source/fw_src/stage1/jz4770/jz4770.h:2552-2553 | The count fits its eight-bit field exactly when between one and 256 ticks fit into the interval. |
| DdrTiming.Count | source/fw_src/stage1/jz4770/jz4770_ddr2.c:365-365 | A count is the least number of cycles that covers its delay. |
| DdrTiming.Clamp | source/fw_src/stage1/jz4770/jz4770_ddr2.c:367-368 | A clamped count is the nearest number within its limits. |
| DdrTiming.MinsrRounds | source/fw_src/stage1/jz4770/jz4770_ddr2.c:437-440 | The self-refresh field is the least f with 8 (f + 1) + 1 cycles covering the clamped time. |
| DdrTiming.UpperFields | source/fw_src/stage1/jz4770/jz4770.h:2501-2512 | Each field of the upper half of timing1 unpacks to the value packed. |
| DdrTiming.LowerFields | source/fw_src/stage1/jz4770/jz4770.h:2513-2534 | Each field of the lower half of timing1 unpacks to the value packed. |
| DdrTiming.CommonRegs.ComputeTiming1 | source/fw_src/stage1/jz4770/jz4770_ddr2.c:364-428 | The or-ed word unpacks to the clamped cycle counts of all eight delays if tWTR is not 0, and is all ones if it is. |
| DdrTiming.UpperWaitsLongEnough | source/fw_src/stage1/jz4770/jz4770_ddr2.c:364-390 | Read back from the packed word, tRAS, tRTP, tRP and tRCD are waited in full, when their counts fit. |
| DdrTiming.LowerWaitsLongEnough | source/fw_src/stage1/jz4770/jz4770_ddr2.c:392-428 | The same for tRC, tRRD, tWR and a tWTR in nanoseconds. |
| DdrTiming.CommonRegs.ComputeTiming2 | source/fw_src/stage1/jz4770/jz4770_ddr2.c:430-442 | The second word is made of the halved tRFC count, the self-refresh field, tXP and tMRD. |
| DdrTiming.CommonRegs.InitController | source/fw_src/stage1/jz4770/jz4770_ddr2.c:292-293 | For tsel 0 to 3 the field becomes 0, 0, 1 and 2. |
| DdrTiming.SetRwcovReplaces | source/fw_src/stage1/jz4770/jz4770_ddr2.c:292-293 | Clearing and or-ing replaces bits 19 and 20 and nothing else. |
| DdrTiming.OnlyLastTselShows | source/fw_src/stage1/jz4770/jz4770_ddr2.c:292-293 | After any sequence of initialisations only the last tsel shows, only in its own bits. |
| DdrTiming.Timing2Survives | source/fw_src/stage1/jz4770/jz4770_ddr2.c:430-442 | After any sequence of initialisations the second word still unpacks to its chip's values. |
| DdrTiming.Timing2WaitsLongEnough | source/fw_src/stage1/jz4770/jz4770_ddr2.c:430-442 | Read back from the packed word, a tRFC whose count fits is waited in full, and a self-refresh time is covered exactly up to 129 cycles. |
| DdrTiming.CommonRegs.Run | source/fw_src/stage1/jz4770/jz4770_ddr2.c:430-569 | The second word computed once and passed through any number of initialisations is right for its chip, and its tRFC is waited in full. |
| DdrTiming.CommonRegs.ComputeRefcnt | source/fw_src/stage1/jz4770/jz4770_ddr2.c:444-455 | The refresh word unpacks to divider, enable bit and the low eight bits of the count; with ticks of the length that its own divider field names, the refresh comes in time by that count exactly when there is room for two ticks. |
| DdrGeometry.DdrMemInit | source/fw_src/stage1/jz4760(B)/jz4760_ddr2.c:316-320 | Every part of the configuration word unpacks to the geometry that was packed. |
| DdrGeometry.InitDram | source/fw_src/stage1/jz4760(B)/jz4760_ddr2.c:111-127 | From such a word the size comes out as rows · columns · width · banks · chips, modulo 2^32. |
| DdrGeometry.SizeFitsExactly | source/fw_src/stage1/jz4760(B)/jz4760_ddr2.c:123-126 | That is the capacity for every geometry but the largest that the fields can express. |
| DdrMap.MaskFor | source/fw_src/stage1/jz4770/jz4770_ddr2.c:304-306 | The mask of a chip of g grains of 16 MB is 256 - g, and 0 for a chip below one grain. |
| DdrMap.WindowTakes | source/fw_src/stage1/jz4770/jz4770_ddr2.c:308-309 | A window takes, of all addresses, exactly those of its own aligned range. |
| DdrMap.GoodWindows | source/fw_src/stage1/jz4770/jz4770_ddr2.c:302-309 | When the chip divides the base, both windows take exactly the addresses of their chips. |
| DdrMap.BadWindows | source/fw_src/stage1/jz4770/jz4770_ddr2.c:302-309 | A mask without the base's digit makes the first window miss the first address. |
| DdrMap.WindowsServeExactly | source/fw_src/stage1/jz4770/jz4770_ddr2.c:301-309 | For every expressible geometry the windows show both chips in full, adjacent and disjoint, exactly when a chip has 16 to 512 MB. |
| DdrMap.InitMemory | source/fw_src/stage1/jz4770/jz4770_ddr2.c:299-312 | The same for the run from geometry over configuration word and size to the registers. |

## Left out

- USB discovery, control and bulk transfers, CPU identification: input and output; a step succeeds or fails.
- Command lines, configuration parsing, opening files: input and output over libraries that are not part of this model.
- `usb_send_data_to_ingenic`, `usb_read_data_from_ingenic`: their own retry and error texts; one bulk transfer is one step.
- Serial output, busy waiting, watchdog resets, hardware polling: without effect on the results.
- The fault injection branches of the power-on test (INJECT_DATA_ERRORS, INJECT_ADDRESS_ERRORS), which are compiled out.
- Releasing buffers and file descriptors in the SD program: some exits leak them, so there is no invariant.
- The other DDR variants (`jz4770_mddr.c`, `jz4770_ddr1.c`, `jz4760_ddr1.c`, `jz4760_mddr.c`): the same searches again.
- The SDRAM controllers without DDR: register writes whose packing the DDR part already shows.
- The second chip select override for one CPU identifier (jz4760_ddr2.c:621-628): a constant written to one register.
- The DMA test behind the calibration oracle: it is one arbitrary verdict for each configuration.
- MemoryPost.FillAndReadBack: the four fill tests share one pair of loops here, where the source repeats them.
- MemoryPost.MemoryPostAddrline: its verdict is stated for sound lines and sound cells; with faults in the lines or the cells compared it depends on the values, and the suite settles those by its other tests. In terms of the region alone it is stated for regions that do not wrap.
- SdProgram.SdCardProgram: a run whose counted blocks reach past block 2^32 of the card is promised nothing but its return values; block numbers wrap in the middle of it.
- SdProgram.ReadChunk: a `read` that returns -1 is not modelled; the unsigned comparison takes it for success.
- SdDevice.Device: a device whose CARD_READ delivers something else than the card holds is not modelled.
- Pll4760Exact.ClosestExactly: frequencies are taken in whole Hz, as the decoder computes them. Above 1500 MHz no setting is legal in exact arithmetic, and what the search then comes to is described by Pll4760.PllCalcMNOd alone.
- Pll4770.PllCalcMNOd: speeds above 1200 MHz are not modelled, because the source then goes on with a divider that it never set; neither are crystals below 1 MHz, where it divides by 0.
- DdrRounding.DelaysSafeExactly: delays are those whose thousandfold fits 32 bits; below 1 kHz the source divides by 0.
- DdrGeometry.DdrMemInit: geometries outside the ranges that the fields can express would spill into neighbouring fields and are excluded; the FPGA variant of the word is not modelled.
