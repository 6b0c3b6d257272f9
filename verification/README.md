# Verified model of an entropy whitener and its boot loaders

A Dafny 4.11 model of the K7NVH random number generator software: the daemon that whitens the bits of
serial-port noise sources, its companion command-line tools, and the LUFA boot loaders for the
AVR device that produces the bits. The model is checked with `dafny verify dfyconfig.toml`.

## What is modelled

**Whitening.** `Extractor` is the recursive Advanced Multi-Level Strategy: unequal pairs give their first
bit, the pair xors and the equal bits are extracted again. `Unbiased` shows that its output is unbiased,
first as a reversible exchange between inputs of equal length and equal number of ones, then as a statement
about chances for a coin of any bias, and bounds how much can be extracted. `MixedCoins` says what becomes of a
block that several coins share. `AmlsArray` is the
implementation on sentinel-terminated arrays. `Packing` and `Stream` describe packing into bytes and the
folding of 1024-byte groups; `Daemon` is the daemon's main loop as a class, with its buffers, cursors and
counters. `Utilities` holds the tools amls, xor512, ascii_to_bin and vonneumann, and shows how they relate to
the daemon and to each other; `Agreement` puts the daemon and amls side by side on the same characters.

**Boot loaders.** `Flash` models self-programming: pages, a temporary page buffer, erasing, loading words, and
programming that can only clear bits. On it stand four loaders, each with a specification on values, a class that
works in place and is proved against it, and theorems about whole runs:

- `HexParser`, `HexOdd`, `HexTrace`, `HexBase`, `BootGuard`, `HexLoader`: the printer-class loader, which parses an
  Intel HEX file character by character.
  The records are as in the sections "General Record Format", "Extended Segment Address Record", "Extended Linear
  Address Record" and "End of File Record" of Intel's Hexadecimal Object File Format Specification.
- `Dfu`, `DfuHost`, `DfuLoader`: the request machine of the USB DFU 1.1 loader with its secure mode, and what each
  command does in the eyes of a host.
- `FatTable`, `DiskImage`, `VirtualDisk`, `DiskHost`, `DiskLoader`: the mass-storage loader, which serves the memories
  as files of a FAT12 disk, and a host that reads and writes them knowing only the FAT format.
- `Hid`, `HidText`, `HidTools`: the HID-class loader together with the host tool that feeds it.

Bits are 0 or 1, cells of the extractor's arrays are signed bytes, bytes of the whitener are bit vectors, bytes
of the flash are numbers below 256. Page size, memory size and the start of the boot section are parameters.

## Where the code falls short of what it is for

Each of these is stated exactly, as an if-and-only-if over all inputs where one is possible:

- The printer-class loader never writes an image shorter than one page (`HexParser.FileLoadsIff`), and
  shifts data records of odd length by one address (`HexOdd.OddFileIff`).
- Its check against overwriting itself looks at the address of a word, not at the page in progress. A record that
  starts below the boot section and ends at its start or behind moves that page there, and any later record for an
  address below it erases it (`BootGuard.FileSparesIff`).
- It reads the two bytes of an extended address in the wrong order (`HexBase.BaseMeantIff`). Its check against
  overwriting itself covers extended address records too, so a base at or above the boot section can never be left
  again (`HexBase.StuckAbove`).
- The daemon mixes chunks of all its devices in one block. Its output is fair if every block comes from one coin
  (`Unbiased.EqualOutputChance`, `Unbiased.FairOutput`). When the four chunks of a block come from different coins,
  the outputs 1 and 0 are equally likely exactly if the biases balance (`MixedCoins.FourCoinsFairIff`); for two
  coins, one for each half, exactly if they are the same (`MixedCoins.TwoCoinsFairIff`).
- DFU counts a page's words from the start address, so a range that starts inside a page and leaves it is
  not stored faithfully (`Dfu.RoundTripIff`).
- A DFU range of all 64 KB counts as empty (`DfuHost.ReadsSpan`).
- In its error state the DFU loader answers a request for a signature byte with an address
  (`DfuHost.ReadsSignatureIff`).
- An even FAT12 entry overwrites a nibble of the next one; this matters exactly for the layouts that
  `FatTable.ServesFlashIff` excludes.
- The host tool's range check can be passed by a sum that wraps at 32 bits; the record's bytes then do not all belong
  inside its image memory (`Hid.StoresInsideIff`).
- The host tool sends the last 256 bytes of its image memory as blanks (`Hid.ArrivesIff`), and
  addresses a part of exactly 64 KB differently from the device (`Hid.FaithfulPartsIff`).

Where the comments and the code disagree, the model follows the code. The comments above the two level arrays of
`amls` say that they are set up, but their initialisation clears the result array again; `AmlsArray.Amls` shows that this
does no harm.

## Model

| member | source | states |
|---|---|---|
| Extractor.PairCounts | software/k7nvh_rng.c:167-190 | every input is accounted for: unequal pairs are counted by the ones among the pair xors, unequal and equal pairs together are half the length, and the ones of the input are the unequal pairs, twice the ones among equal bits, and the bit left over |
| Extractor.OutputIsShorter | software/k7nvh_rng.c:159-204 | a nonempty input yields at least one bit less than it has, so an end marker always fits |
| Extractor.RebuildParts | software/k7nvh_rng.c:167-190 | pairs rebuilt from any matching parts split into exactly those parts |
| Extractor.RebuildOwnParts | software/k7nvh_rng.c:167-190 | the converse: rebuilding the parts of an input gives the input back, so the split loses nothing |
| Extractor.Steer | software/k7nvh_rng.c:167-204 | for every input and every target as long as its output: an input of the same length, with the same number of ones, whose output is the target |
| Extractor.SteerTwice | software/k7nvh_rng.c:167-204 | steering to one target and then to another is steering to the second |
| Extractor.SteerNowhere | software/k7nvh_rng.c:167-204 | steering an input to its own output changes nothing |
| Extractor.Exchange | software/k7nvh_rng.c:132-213 | unbiasedness by exchange: every output of the right length is produced by an equally likely input, and steering back recovers the original input exactly |
| Unbiased.InformationBound | software/k7nvh_rng.c:159-204 | the output never has more bits than the input carries: 2 to the output length is at most the number of inputs with the same length and ones |
| Unbiased.ConstantInputYieldsNothing | software/k7nvh_rng.c:159-204 | an input whose bits are all equal yields no output |
| Unbiased.TotalChance | software/k7nvh_rng.c:132-136 | the chances of all strings of n flips add up to one, whatever the bias of each flip, so the chances used below are a distribution |
| Unbiased.EqualChance | software/k7nvh_rng.c:132-213 | for a coin of any bias and every input length, two outputs of the same length are equally likely |
| Unbiased.FairGivenLength | software/k7nvh_rng.c:132-213 | for a coin of any bias: given the number of output bits, each output has chance exactly one in 2 to that number, so the bits are independent and fair |
| Unbiased.EqualOutputChance | software/k7nvh_rng.c:504-577 | two byte strings of the same length are equally likely to be what a whole run over n collected bits has written, if every block is flipped with one coin; the coins of different blocks may have any biases |
| Unbiased.FairOutput | software/k7nvh_rng.c:504-577 | given how many bytes a run over n collected bits has written, each string of that many bytes has chance exactly one in 256 to that number: the chance that any such number of bytes is written is 256 to that number times the chance of each |
| MixedCoins.OneBitOut | software/k7nvh_rng.c:132-213 | of any power of two of bits exactly one bit b comes out if and only if the first half is all b and the second half all 1 - b |
| MixedCoins.FourCoinsFairIff | software/k7nvh_rng.c:452-511 | a block of four chunks, each of a coin of its own: the outputs 1 and 0 are equally likely if and only if the product of the chances of 1, 1, 0, 0 for the four coins equals that of 0, 0, 1, 1 |
| MixedCoins.TwoCoinsFairIff | software/k7nvh_rng.c:452-511 | a block whose halves come from two coins, as from two devices, is debiased to equally likely outputs 1 and 0 if and only if the coins have the same bias |
| AmlsArray.BitPrefix | software/k7nvh_rng.c:168 | the longest leading part of the cells that holds bits: it is a prefix, and what follows it, if anything, is not a bit |
| AmlsArray.SplitPairs | software/k7nvh_rng.c:167-190 | the loop over the input leaves in the three arrays exactly the unequal bits, the pair xors and the equal bits of the bit prefix, and their lengths |
| AmlsArray.Append | software/k7nvh_rng.c:195-199 | the copy loop appends the bits of a level up to its end marker and keeps the result well formed |
| AmlsArray.AppendLevels | software/k7nvh_rng.c:195-204 | the two copy loops together append both levels in order |
| AmlsArray.Amls | software/k7nvh_rng.c:136-213 | the array version, for every length up to 512: stays in bounds, terminates, does not depend on unwritten level cells, and returns the pure extraction of the bit prefix followed only by -1, at least once |
| Packing.SetThenGet | software/k7nvh_rng.c:524 | setting a clear bit of a byte sets that bit and leaves the other seven |
| Packing.UnpackOfPack | software/k7nvh_rng.c:524-529 | the eight bits of a packed byte can be read back |
| Packing.PackOfUnpack | software/k7nvh_rng.c:524-529 | packing the bits of a byte gives the byte |
| Stream.DebiasAppend | software/k7nvh_rng.c:504-584 | debiasing whole blocks and then the rest is debiasing all of it |
| Stream.EmittedAppend | software/k7nvh_rng.c:530-577 | emitting for whole groups and then the rest is emitting for all of it |
| Stream.PackedAtAppend | software/k7nvh_rng.c:524-529 | one more bit changes only the byte that is being filled, least significant bit first |
| Stream.SteerStreamWorks | software/k7nvh_rng.c:504-584 | exchange for a stream of blocks: any debiased stream of the same length comes from a stream with the same ones in every block, reversibly |
| Stream.RetargetGroupMixes | software/k7nvh_rng.c:531-533 | every 512 bytes are the folding of some group that keeps the same second half |
| Stream.Retarget | software/k7nvh_rng.c:530-577 | for every debiased stream and every output of the right size, a stream of the same length for which that output is written |
| Stream.RetargetBack | software/k7nvh_rng.c:530-577 | retargeting can be undone exactly |
| Stream.OutputExchange | software/k7nvh_rng.c:504-577 | exchange for the whole pipeline: any bytes of the written length come from a collected stream with the same ones in every block, and steering back recovers the collected stream |
| Daemon.Daemon.constructor | software/k7nvh_rng.c:53-68 | the daemon starts with nothing collected or written, all counters zero for all devices, nothing reported, and every invariant in place |
| Daemon.Daemon.PushBit | software/k7nvh_rng.c:521-577 | one debiased bit is appended to the debiased stream; packing buffer, written bytes and counters keep their meaning, also when the buffer is written out |
| Daemon.Daemon.StoreBit | software/k7nvh_rng.c:524-529 | the bit lands behind the pending bits; cursor and buffer represent exactly the pending bits, all else zero |
| Daemon.Daemon.WriteOut | software/k7nvh_rng.c:530-577 | writing out a full buffer moves its bits from pending to flushed, loses none, and clears the buffer |
| Daemon.Daemon.WriteHalves | software/k7nvh_rng.c:531-572 | writes exactly the folding of the group that is pending, and counts its 512 bytes |
| Daemon.Daemon.ProcessBlock | software/k7nvh_rng.c:504-581 | a full block appends exactly its extraction to the debiased stream |
| Daemon.Daemon.ConvertChar | software/k7nvh_rng.c:485-497 | accepts exactly '0' and '1'; the cell becomes the character less '0', and the device's zeros or ones grow by one according to the character; nothing else is touched |
| Daemon.Daemon.ConvertChunk | software/k7nvh_rng.c:471-498 | accepts a chunk exactly if all 128 characters are ASCII bits; then every cell is its character less '0', behind the unfinished block, and the device's counters grow by the occurrences of '0' and of '1' |
| Daemon.Daemon.ReadDevice | software/k7nvh_rng.c:456-585 | one poll: nothing without 128 bytes, exit -9 on a short read, exit -11 on a bad character, else the chunk's bits are collected and counted for that device only |
| Daemon.Daemon.TakeChunk | software/k7nvh_rng.c:471-511 | a chunk of ASCII bits is collected and charged to its device; any other character ends the daemon with -11 and collects nothing |
| Daemon.Daemon.AdvanceBuffer | software/k7nvh_rng.c:500-584 | moving on appends the chunk to the collected stream; a completed block is debiased and the buffer starts again |
| Daemon.Daemon.Report | software/k7nvh_rng.c:399-449 | the statistics reset: all counters are zero, for all devices, and count from the present stream on; buffers and output are untouched |
| Daemon.Daemon.ReadDevices | software/k7nvh_rng.c:452-586 | one round over the devices collects what their polls offer, in order, up to the first failure; each device is charged with exactly its own chunk |
| Daemon.Daemon.RunPass | software/k7nvh_rng.c:393-589 | a pass keeps the invariant and collects what its polls offer; with an alarm the device counts start from this pass and the report mark is the stream before it, without one both go on |
| Daemon.Daemon.Run | software/k7nvh_rng.c:393-589 | any number of passes, from any state: the bytes written are the folded groups of the packed extractions of the consecutive blocks of everything collected; the daemon still runs exactly if no poll failed; zeros and ones, bytes and device counters count exactly what was debiased, written and delivered since the last alarm |
| Daemon.Daemon.WrittenSoFar | software/k7nvh_rng.c:464-583 | in every state: debiased bits = 16 times bytes written + 8 times byte cursor + bit cursor; the partial buffer packs exactly the bits not yet written with all others zero; the collecting buffer holds the unfinished block |
| Daemon.Daemon.Statistics | software/k7nvh_rng.c:399-449 | in every state: zeros plus ones is the number of bits debiased since the last report, ones the ones among them, the byte count the bytes written since, and each device's counters the zeros and ones it delivered since |
| Daemon.RecentMeans | software/k7nvh_rng.c:399-449 | the passes since the last alarm are a suffix that starts with an alarm and has none behind it, or all passes if there was none |
| Daemon.DeliveredCount | software/k7nvh_rng.c:464-498 | what a device delivered is 128 bits for every chunk it offered |
| Daemon.Gather | software/k7nvh_rng.c:393-589 | from the start of the daemon: what it has written after any passes, whether it still runs, and all its counters, the devices' as 128 times the chunks since the last alarm |
| Daemon.CollectChunk | software/k7nvh_rng.c:500-504 | one more chunk either extends the unfinished block or completes it and adds its extraction |
| Utilities.Xor512 | utilities/xor512.c:10-26 | the mixer writes every complete pair of halves xored, and of a last incomplete second half the bytes that arrived |
| Utilities.FillBuffer | utilities/xor512.c:12-16 | fills the buffer with the next 512 bytes, or reports the end of input exactly if fewer are left |
| Utilities.MixHalf | utilities/xor512.c:18-22 | writes each byte of the second half xored with its partner, as far as the input goes |
| Utilities.MixerAgrees | software/k7nvh_rng.c:530-577 | the daemon's output is a prefix of the mixer's on the packed bytes; the mixer is ahead by exactly the bytes of a second half that is still filling up, so at every flush they agree |
| Utilities.ReadUint8 | utilities/ascii_to_bin.c:6-21 | reads eight characters as a byte, most significant bit first; end of file exactly if fewer than eight are left |
| Utilities.AsciiToBin | utilities/ascii_to_bin.c:24-38 | writes the whole bytes of the text's bits |
| Utilities.VonNeumann | utilities/vonneumann.c:7-35 | writes the whole bytes, most significant bit first, of von Neumann's bits of the input |
| Utilities.TakePair | utilities/vonneumann.c:14-31 | one pair: the partial byte and the bytes written keep representing von Neumann's bits so far |
| Utilities.PipelineDebiases | utilities/vonneumann.c:10-32 | composing the two tools' outputs equals von Neumann's bits of the text's own bits, cut to whole bytes |
| Utilities.Pipe | utilities/ascii_to_bin.c:24-38 | ascii_to_bin piped into vonneumann writes the whole bytes of von Neumann's bits of the text, truncated to whole bytes |
| Utilities.VonNeumannIsPrefix | utilities/amls.c:56-93 | block by block, von Neumann's bits are a prefix of what the multi-level extractor yields |
| Utilities.AmlsTool | utilities/amls.c:103-129 | prints the extraction of every complete 512-character block, in order, and stops silently in an incomplete one |
| Utilities.PrintBlock | utilities/amls.c:115-123 | prints the extraction of one block's bit prefix |
| Utilities.ToolAgrees | utilities/amls.c:108-126 | on a text of bits the utility prints exactly the bits that the daemon packs |
| Agreement.TakenIsText | software/k7nvh_rng.c:485-497 | the bits that the daemon collects are those that the characters delivered spell to the utilities |
| Agreement.DaemonAgrees | software/k7nvh_rng.c:485-525 | the bits that the daemon packs are, one by one, what the extractor utility prints for the same characters |
| Agreement.WhitenBoth | software/k7nvh_rng.c:393-589 | running both: the daemon's output is the packing and folding of exactly the bits that the utility prints |
| Flash.ProgramBlank | firmware/LUFA/Bootloaders/MassStorage/BootloaderAPI.c:45-55 | programming can only clear bits, but on an erased page it stores the buffer exactly |
| Flash.EraseStarts | firmware/LUFA/Bootloaders/Printer/BootloaderPrinter.c:266-272 | erasing the page of an idle memory starts loading that page |
| Flash.FillAdds | firmware/LUFA/Bootloaders/Printer/BootloaderPrinter.c:275-276 | loading the next word of a page appends its two bytes |
| Flash.WriteStores | firmware/LUFA/Bootloaders/Printer/BootloaderPrinter.c:168-169 | writing a page that was erased and partly loaded stores the loaded bytes, and blanks behind them |
| Flash.StreamWord | firmware/LUFA/Bootloaders/MassStorage/Lib/VirtualFAT.c:336-353 | one turn of the page-programming loop: erase at a page start, load, write at a page end; keeps 'whole pages stored, the current page loaded' |
| Flash.FlushStores | firmware/LUFA/Bootloaders/Printer/BootloaderPrinter.c:158-175 | writing the page in progress completes the store: data at its place, blanks up to the page end, all other bytes unchanged |
| HexParser.RunAppend | firmware/LUFA/Bootloaders/Printer/BootloaderPrinter.c:183-315 | parsing a concatenation is parsing the parts one after the other |
| HexParser.HeaderParsed | firmware/LUFA/Bootloaders/Printer/BootloaderPrinter.c:186-238 | from any base, a start mark and four bytes set length, type and checksum, and the address to base plus offset in 32 bits |
| HexParser.WordLoads | firmware/LUFA/Bootloaders/Printer/BootloaderPrinter.c:259-280 | one data word: erased, loaded and flushed at the right times, for all page sizes |
| HexParser.RecordLoads | firmware/LUFA/Bootloaders/Printer/BootloaderPrinter.c:240-303 | an even data record for the next addresses loads exactly its bytes |
| HexParser.FileLoads | firmware/LUFA/Bootloaders/Printer/BootloaderPrinter.c:158-315 | for every image printed as contiguous even data records and the end record, the loader stops, and flash is as the outcome says: the image, blanks to the end of its last page, everything else unchanged; an image shorter than a page leaves page 0 erased |
| HexParser.FileLoadsIff | firmware/LUFA/Bootloaders/Printer/BootloaderPrinter.c:158-315 | so the image arrives if and only if it is empty, at least one page long, or blank itself: a shorter one is never flushed, because the end record's address is in the same page |
| HexOdd.OddRecordSlips | firmware/LUFA/Bootloaders/Printer/BootloaderPrinter.c:240-309 | a whole odd data record for the next addresses: its bytes arrive one address too high, behind the byte last left over |
| HexOdd.OddFileLoads | firmware/LUFA/Bootloaders/Printer/BootloaderPrinter.c:183-315 | a file that ends in an odd record has the outcome of the file with the first byte of the last even word pushed in before that record |
| HexOdd.OddFileIff | firmware/LUFA/Bootloaders/Printer/BootloaderPrinter.c:252-280 | the odd record's bytes are at their addresses if and only if all of them equal the byte left over, which is the last byte but one before them; or are blank, if the file ends inside the first page |
| HexOdd.OneByteFileFails | firmware/LUFA/Bootloaders/Printer/BootloaderPrinter.c:252-280 | the file ":0100000001FE:00000001FF" does not arrive |
| HexParser.EndRecordText | firmware/LUFA/Bootloaders/Printer/BootloaderPrinter.c:297-309 | the end record is ":00000001FF" |
| HexParser.StripChangesNothing | firmware/LUFA/Bootloaders/Printer/BootloaderPrinter.c:186-205 | for every stream and parser state, deleting all characters but ':' and upper-case hex digits leads to the same state, including the trace of flash operations, up to what the next line start resets |
| HexParser.StopsOnlyAtEnd | firmware/LUFA/Bootloaders/Printer/BootloaderPrinter.c:212-309 | for every stream that reaches a running loader between two records, the loader stops only after a type 01 record whose counted bytes and latest byte sum to 0 modulo 256, as read off the text by an independent line reader |
| HexParser.ChecksumDecides | firmware/LUFA/Bootloaders/Printer/BootloaderPrinter.c:297-309 | the byte behind the data of a line changes nothing if the line does not sum to zero; if it does, the loader stops if and only if the record is the end record |
| HexTrace.RunExplained | firmware/LUFA/Bootloaders/Printer/BootloaderPrinter.c:264-280 | over any stream, the flash is what its trace of erase, fill and write operations makes of the initial flash |
| HexTrace.TraceGrows | firmware/LUFA/Bootloaders/Printer/BootloaderPrinter.c:183-315 | over any stream, no operation is ever taken back from the trace |
| HexTrace.StripKeepsTrace | firmware/LUFA/Bootloaders/Printer/BootloaderPrinter.c:186-210 | for every stream, deleting insignificant characters leaves every erase, fill and write, the flash, and whether the loader goes on unchanged |
| BootGuard.StreamKeepsBoot | firmware/LUFA/Bootloaders/Printer/BootloaderPrinter.c:244-250 | for every stream, from any state that has spared it so far, the boot section is unchanged as long as the page in progress stays below it |
| BootGuard.RecordSkipped | firmware/LUFA/Bootloaders/Printer/BootloaderPrinter.c:244-250 | a data record for an address at or above the boot section adds no flash operation and leaves the page in progress where it is, but gives up what was loaded for it |
| BootGuard.RecordGuarded | firmware/LUFA/Bootloaders/Printer/BootloaderPrinter.c:244-280 | a data record of any length for an address below the boot section spares it, while the page in progress is below it; afterwards that page is the start of the boot section if and only if the record ends there or behind it |
| BootGuard.RecordErasesBoot | firmware/LUFA/Bootloaders/Printer/BootloaderPrinter.c:252-262 | once the page in progress is the start of the boot section, a data record for any address below it erases that section, whatever follows |
| BootGuard.FileSparesIff | firmware/LUFA/Bootloaders/Printer/BootloaderPrinter.c:244-280 | a file of data records for any addresses, in any order, erases and writes no page of the boot section if and only if no record that starts below it and ends at its start or behind is followed, at once or later, by a record for an address below it |
| BootGuard.FileKeepsBoot | firmware/LUFA/Bootloaders/Printer/BootloaderPrinter.c:244-280 | under that condition the file leaves the boot section as it was |
| BootGuard.FullFileThenWord | firmware/LUFA/Bootloaders/Printer/BootloaderPrinter.c:264-280 | what happens otherwise: a file that fills the application section, followed by a word for address 0, leaves that word at the start of the boot section and the rest of its first page blank |
| BootGuard.EmptyRecordMoves | firmware/LUFA/Bootloaders/Printer/BootloaderPrinter.c:297-309 | a record without data moves the page in progress to its address, wherever that is, if anything is loaded |
| HexBase.RecordFills | firmware/LUFA/Bootloaders/Printer/BootloaderPrinter.c:225-280 | a data record of any length, from any state and base: the words loaded are its own, at base plus offset and the addresses behind, up to the first at or above the boot section; an odd record pairs with the byte left over |
| HexBase.WordFillsAt | firmware/LUFA/Bootloaders/Printer/BootloaderPrinter.c:275-277 | below the boot section, word i of a record is loaded at its address plus 2 i, low byte first |
| HexBase.BaseRecord | firmware/LUFA/Bootloaders/Printer/BootloaderPrinter.c:282-290 | an extended address record sets the base to 16 or 65536 times its word, if base plus offset is below the boot section; otherwise it changes nothing |
| HexBase.BaseMeantIff | firmware/LUFA/Bootloaders/Printer/BootloaderPrinter.c:259-290 | the base set is the one that the format defines, high byte first, if and only if the two bytes are the same |
| HexBase.FileFillsAll | firmware/LUFA/Bootloaders/Printer/BootloaderPrinter.c:183-315 | from any state, all words that a file of data, extended address and end records loads, and their addresses, are those read off its records |
| HexBase.StuckAbove | firmware/LUFA/Bootloaders/Printer/BootloaderPrinter.c:244-250 | once the base is at or above the boot section no stream whatever moves it again, loads a word or erases a page; at most the page in progress is written |
| HexLoader.Loader.constructor | firmware/LUFA/Bootloaders/Printer/BootloaderPrinter.c:70-106 | the statically initialised loader is ready for a file |
| HexLoader.Loader.ParseIntelHexByte | firmware/LUFA/Bootloaders/Printer/BootloaderPrinter.c:183-315 | one character makes exactly the specified step |
| HexLoader.Loader.Receive | firmware/LUFA/Bootloaders/Printer/BootloaderPrinter.c:183-315 | a stream of characters is the run of its steps |
| HexLoader.Loader.PrintFile | firmware/LUFA/Bootloaders/Printer/BootloaderPrinter.c:183-315 | printing a file to a connected loader, with any line ends and other characters in between, has the file's outcome and stops the loader |
| HexLoader.Loader.PrintOddFile | firmware/LUFA/Bootloaders/Printer/BootloaderPrinter.c:183-315 | printing a file that ends in an odd record: it stops the loader, and the odd record arrives exactly under the stated condition |
| HexLoader.Loader.PrintRecords | firmware/LUFA/Bootloaders/Printer/BootloaderPrinter.c:183-315 | printing data records for any addresses in any order spares the boot section exactly under that condition, and then leaves it unchanged |
| HexLoader.Loader.PrintExtended | firmware/LUFA/Bootloaders/Printer/BootloaderPrinter.c:183-315 | printing records with any offsets and extended addresses, in any state of the loader, loads exactly the words read off the records |
| Dfu.FirstUsed | firmware/LUFA/Bootloaders/DFU/BootloaderDFU.c:690-713 | the blank check finds the first address that is not blank, or none |
| Dfu.EraseFromBlanks | firmware/LUFA/Bootloaders/DFU/BootloaderDFU.c:761-772 | the full erase blanks the whole application section and leaves the boot section alone |
| Dfu.LockedStep | firmware/LUFA/Bootloaders/DFU/BootloaderDFU.c:220-548 | one request to a locked device: it stays locked, in dfuIDLE or dfuERROR, with the same flash, or its application section is blank |
| Dfu.SessionKeepsFlash | firmware/LUFA/Bootloaders/DFU/BootloaderDFU.c:581-624 | over any session, as long as the device is secure its flash is what it was |
| Dfu.SessionErases | firmware/LUFA/Bootloaders/DFU/BootloaderDFU.c:759-779 | if a session unlocks the device, there is a request before which it was secure and after which its application section is blank and the rest of the flash as it was |
| Dfu.StaysUnlocked | firmware/LUFA/Bootloaders/DFU/BootloaderDFU.c:759-779 | once unlocked, no session locks the device again, so no erase can be missed in between |
| Dfu.SessionHidesFlash | firmware/LUFA/Bootloaders/DFU/BootloaderDFU.c:581-624 | over any session, two locked devices that differ only in their application sections answer every request alike, and end up equal once unlocked: nothing can be read before it was erased |
| Dfu.ProgramRuns | firmware/LUFA/Bootloaders/DFU/BootloaderDFU.c:278-383 | a program request erases the page of the first address and then programs the words |
| Dfu.ProgramStores | firmware/LUFA/Bootloaders/DFU/BootloaderDFU.c:306-348 | the programming loop, from any point of any page: what is stored in the end, every page erased before it is written |
| Dfu.ProgramsRange | firmware/LUFA/Bootloaders/DFU/BootloaderDFU.c:278-383 | a download that starts a page leaves its pages holding the data, padded with blanks, and all other pages unchanged |
| Dfu.ReadsRange | firmware/LUFA/Bootloaders/DFU/BootloaderDFU.c:390-488 | a read request and an upload answer the bytes of flash and change no memory |
| Dfu.RoundTrip | firmware/LUFA/Bootloaders/DFU/BootloaderDFU.c:278-488 | downloading a range that starts a page and uploading it returns the data |
| Dfu.RoundTripInPage | firmware/LUFA/Bootloaders/DFU/BootloaderDFU.c:278-488 | so does a range that stays inside one page, wherever it starts |
| Dfu.CrossingLoses | firmware/LUFA/Bootloaders/DFU/BootloaderDFU.c:306-348 | a range that starts inside a page and leaves it loses some data: pages are counted from the start address |
| Dfu.RoundTripIff | firmware/LUFA/Bootloaders/DFU/BootloaderDFU.c:278-488 | the round trip is faithful for all data if and only if the range starts a page or stays inside one |
| DfuHost.ProgramsEeprom | firmware/LUFA/Bootloaders/DFU/BootloaderDFU.c:278-383 | an EEPROM download, from any start address with its alignment filler, stores the data at its addresses and changes nothing else in either memory |
| DfuHost.ReadsEeprom | firmware/LUFA/Bootloaders/DFU/BootloaderDFU.c:455-483 | an EEPROM read request and an upload answer the bytes at its addresses and change no memory |
| DfuHost.EepromRoundTrip | firmware/LUFA/Bootloaders/DFU/BootloaderDFU.c:278-483 | downloading to the EEPROM and uploading returns the data; every byte outside the range, and the flash, are as before |
| DfuHost.ReadsSpan | firmware/LUFA/Bootloaders/DFU/BootloaderDFU.c:413-478 | a read request for any two addresses answers the bytes from the first on, around the end of the 16-bit address space; as many as the addresses say if and only if they are in order and do not span all 64 KB, which answers none |
| DfuHost.ShortDownload | firmware/LUFA/Bootloaders/DFU/BootloaderDFU.c:300-351 | a flash download moves the start address to the end if and only if its data stage holds all words of the range |
| DfuHost.BlankCheckReports | firmware/LUFA/Bootloaders/DFU/BootloaderDFU.c:690-713 | the blank check reports errCHECK_ERASED exactly if a byte of the application section is used, and the two bytes uploaded next, with the 64 KB page selected, are the first such address |
| DfuHost.SelectsPage | firmware/LUFA/Bootloaders/DFU/BootloaderDFU.c:619-622 | the page command selects a 64 KB page if and only if its first two parameters are 3 and 0, and changes nothing else |
| DfuHost.SelectThenRead | firmware/LUFA/Bootloaders/DFU/BootloaderDFU.c:619-622 | after selecting a 64 KB page, a read request and an upload answer the bytes of that page |
| DfuHost.UnknownDoesNothing | firmware/LUFA/Bootloaders/DFU/BootloaderDFU.c:602-623 | every command and parameter that the loader does not know changes nothing but the command last received |
| DfuHost.ReadsBootloader | firmware/LUFA/Bootloaders/DFU/BootloaderDFU.c:785-796 | a request for a boot loader byte is answered by the next upload, locked or not, unless a memory upload is pending |
| DfuHost.ReadsSignatureIff | firmware/LUFA/Bootloaders/DFU/BootloaderDFU.c:797-804 | a request for a signature byte is answered by the next upload if and only if no memory upload is pending and the device is not in its error state |
| DfuHost.RefusedThenCleared | firmware/LUFA/Bootloaders/DFU/BootloaderDFU.c:581-600 | a locked device answers a refused command with errWRITE in dfuERROR; clearing the status and aborting lead to OK in dfuIDLE, still locked and unchanged |
| DfuHost.UnlocksIff | firmware/LUFA/Bootloaders/DFU/BootloaderDFU.c:581-600 | a command unlocks a locked device if and only if it is the full erase, and then the application section is blank |
| DfuHost.JumpsToApplication | firmware/LUFA/Bootloaders/DFU/BootloaderDFU.c:722-758 | naming a start address and then an empty request leave the loader for that address; the first alone does not |
| DfuHost.OtherRequestStays | firmware/LUFA/Bootloaders/DFU/BootloaderDFU.c:237-275 | a read command as the second request keeps the loader running and is answered as usual |
| DfuHost.ResetsToApplication | firmware/LUFA/Bootloaders/DFU/BootloaderDFU.c:722-758 | the same for a start by reset: the empty request starts the watchdog, and no address is set |
| DfuLoader.Loader.constructor | firmware/LUFA/Bootloaders/DFU/BootloaderDFU.c:43-93 | the initial state is valid, locked in secure mode and ready otherwise; dfuIDLE with status OK, 64 KB page 0, and the reset vector as the application start |
| DfuLoader.Loader.ProcessMemReadCommand | firmware/LUFA/Bootloaders/DFU/BootloaderDFU.c:677-715 | accepts reads; a blank check answers by state, status and first used address |
| DfuLoader.Loader.EraseApplication | firmware/LUFA/Bootloaders/DFU/BootloaderDFU.c:761-772 | the erase loop |
| DfuLoader.Loader.ProcessWriteCommand | firmware/LUFA/Bootloaders/DFU/BootloaderDFU.c:720-780 | nothing but the full erase touches flash or lock; the full erase unlocks and leaves the application section blank and the boot section as it was |
| DfuLoader.Loader.ProcessBootloaderCommand | firmware/LUFA/Bootloaders/DFU/BootloaderDFU.c:581-624 | a locked device either stays secure with its flash unchanged, or its application section is blank |
| DfuLoader.Loader.WriteFlash | firmware/LUFA/Bootloaders/DFU/BootloaderDFU.c:300-348 | the programming loop is the specified programming of words |
| DfuLoader.Loader.WriteEepromBytes | firmware/LUFA/Bootloaders/DFU/BootloaderDFU.c:358-377 | writes consecutive EEPROM bytes and leaves the address behind them |
| DfuLoader.Loader.ProcessFirmware | firmware/LUFA/Bootloaders/DFU/BootloaderDFU.c:286-382 | skips the filler, then programs flash or EEPROM |
| DfuLoader.Loader.DownloadRequest | firmware/LUFA/Bootloaders/DFU/BootloaderDFU.c:237-389 | a DNLOAD request makes exactly the specified step |
| DfuLoader.Loader.TakeCommand | firmware/LUFA/Bootloaders/DFU/BootloaderDFU.c:259-274 | loads command and parameters from the data stage, as many as there are, and processes the command |
| DfuLoader.Loader.UploadRequest | firmware/LUFA/Bootloaders/DFU/BootloaderDFU.c:390-488 | an UPLOAD request makes exactly the specified step and answer |
| DfuLoader.Loader.ReadWords | firmware/LUFA/Bootloaders/DFU/BootloaderDFU.c:423-452 | answers the words of flash in order |
| DfuLoader.Loader.ReadEepromBytes | firmware/LUFA/Bootloaders/DFU/BootloaderDFU.c:459-478 | answers consecutive EEPROM bytes |
| DfuLoader.Loader.ControlRequest | firmware/LUFA/Bootloaders/DFU/BootloaderDFU.c:220-548 | any request makes exactly the specified step and answer |
| DfuLoader.Loader.Serve | firmware/LUFA/Bootloaders/DFU/BootloaderDFU.c:220-548 | any session: a locked device keeps its flash until a request that leaves the application section blank, and its answers are those of every device that differs only in the application section |
| DfuLoader.Loader.ProgramAndRead | firmware/LUFA/Bootloaders/DFU/BootloaderDFU.c:278-488 | programming a range and reading it back returns the data if the range starts a page or stays inside one; from a page start, the flash then holds the data, padded, and all else is unchanged |
| DfuLoader.Loader.ProgramAndReadEeprom | firmware/LUFA/Bootloaders/DFU/BootloaderDFU.c:278-483 | programming a range of the EEPROM and reading it back returns the data, and leaves the rest of the EEPROM and the flash as they were |
| FatTable.PutThenGet | firmware/LUFA/Bootloaders/MassStorage/Lib/VirtualFAT.c:245-265 | what writing an entry does to every entry: its own value is right, and an even entry also overwrites the lowest nibble of the next one, with its own middle nibble |
| FatTable.ChainEntries | firmware/LUFA/Bootloaders/MassStorage/Lib/VirtualFAT.c:277-292 | what writing a chain does to every entry of the table |
| FatTable.WalkUnique | firmware/LUFA/Bootloaders/MassStorage/Lib/VirtualFAT.c:277-292 | a host that follows the table from a cluster can walk in one way only |
| FatTable.ReservedEntries | firmware/LUFA/Bootloaders/MassStorage/Lib/VirtualFAT.c:453-457 | entries 0 and 1 are 0xFF8 and 0xFFF for every layout |
| FatTable.ServesEeprom | firmware/LUFA/Bootloaders/MassStorage/Lib/VirtualFAT.c:462-463 | the host's walk from the EEPROM file's start cluster always visits exactly its clusters in order, and ends |
| FatTable.ServesFlashIff | firmware/LUFA/Bootloaders/MassStorage/Lib/VirtualFAT.c:459-463 | the host's walk from the FLASH file's start cluster visits exactly its clusters in order, and ends, if and only if the layout is compatible: the FLASH file ends before the EEPROM file starts; or it starts behind it, not directly at an odd cluster unless it has only one; or both end together |
| FatTable.UpdateClusterEntry | firmware/LUFA/Bootloaders/MassStorage/Lib/VirtualFAT.c:245-265 | writes the entry in place: a host reads it back, all other entries are as before, except for the lowest nibble of the entry behind an even one |
| FatTable.UpdateClusterChain | firmware/LUFA/Bootloaders/MassStorage/Lib/VirtualFAT.c:277-292 | writes the chain in place |
| FatTable.ServeTable | firmware/LUFA/Bootloaders/MassStorage/Lib/VirtualFAT.c:451-465 | builds the served table in the zeroed buffer |
| VirtualDisk.DefaultLayout | firmware/LUFA/Bootloaders/MassStorage/Lib/VirtualFAT.h:44-75 | for files of any size the two default block ranges start behind the root block, are disjoint and lie below the number of media blocks |
| VirtualDisk.WriteThenRead | firmware/LUFA/Bootloaders/MassStorage/Lib/VirtualFAT.c:399-482 | writing a file block changes what is read from that block, and from no other, in either file |
| VirtualDisk.WriteElsewhere | firmware/LUFA/Bootloaders/MassStorage/Lib/VirtualFAT.c:409-427 | writes to the boot and FAT blocks and outside both files change nothing |
| VirtualDisk.OneWrite | firmware/LUFA/Bootloaders/MassStorage/Lib/VirtualFAT.c:399-482 | what any one write changes for a reader of any block |
| VirtualDisk.LastWriteWins | firmware/LUFA/Bootloaders/MassStorage/Lib/VirtualFAT.c:399-482 | after any run of block writes, every file block reads as last written and every other block as before |
| VirtualDisk.InFileBounds | firmware/LUFA/Bootloaders/MassStorage/Lib/VirtualFAT.c:307-313 | the range check bounds the block by the file's start and sectors, wherever the file starts, although the end block wraps at 16 bits; without a wrap it is exact |
| VirtualDisk.StartBlockIs | firmware/LUFA/Bootloaders/MassStorage/Lib/VirtualFAT.c:307 | cluster c starts at block 4 c - 4, in 16 bits |
| VirtualDisk.WritesBounded | firmware/LUFA/Bootloaders/MassStorage/Lib/VirtualFAT.c:399-428 | any run of block writes, writes to the directory that move the files included, leaves the flash at and above the size of the FLASH file as it was |
| VirtualDisk.DefaultTableServes | firmware/LUFA/Bootloaders/MassStorage/Lib/VirtualFAT.c:451-465 | in the default layout both served tables describe both files correctly |
| DiskHost.HostGeometry | firmware/LUFA/Bootloaders/MassStorage/Lib/VirtualFAT.c:51-72 | from the boot block a host computes 512-byte sectors, clusters of 2048 bytes, the directory in block 3 and the first cluster in block 4 |
| DiskHost.HostFindsFiles | firmware/LUFA/Bootloaders/MassStorage/Lib/VirtualFAT.c:75-182 | at power-up a host that searches the directory for FLASH.BIN and EEPROM.BIN finds their first clusters and sizes |
| DiskImage.DirectoryReads | firmware/LUFA/Bootloaders/MassStorage/Lib/VirtualFAT.c:96-182 | the same for any block that starts with the directory; the long names carry the checksums of the short ones |
| DiskHost.HostReadsFlash | firmware/LUFA/Bootloaders/MassStorage/Lib/VirtualFAT.c:303-331 | a host that computes the blocks from the boot block and follows the served table reads byte i of the flash as byte i of FLASH.BIN |
| DiskHost.HostReadsEeprom | firmware/LUFA/Bootloaders/MassStorage/Lib/VirtualFAT.c:366-386 | and byte i of the EEPROM as byte i of EEPROM.BIN |
| DiskHost.HostWritesFlash | firmware/LUFA/Bootloaders/MassStorage/Lib/VirtualFAT.c:303-353 | wherever the directory puts FLASH.BIN, writing the host's block for sector k stores that sector of the flash, and changes the EEPROM only if the files overlap there |
| DiskHost.HostWritesEeprom | firmware/LUFA/Bootloaders/MassStorage/Lib/VirtualFAT.c:366-392 | the same for EEPROM.BIN |
| DiskHost.HostCopies | firmware/LUFA/Bootloaders/MassStorage/Lib/VirtualFAT.c:399-428 | a host that replaces FLASH.BIN block by block along the served table leaves the application section holding the new image, and the rest of the flash, the EEPROM and the directory as they were |
| DiskHost.RootWriteRead | firmware/LUFA/Bootloaders/MassStorage/Lib/VirtualFAT.c:415-418 | a directory block that the host writes moves the files to the clusters it names, and reads back as written |
| DiskHost.UnusedReadsZero | firmware/LUFA/Bootloaders/MassStorage/Lib/VirtualFAT.c:435-438 | blocks that belong to no file read as zeros |
| DiskLoader.Loader.constructor | firmware/LUFA/Bootloaders/MassStorage/Lib/VirtualFAT.c:51-182 | the loader at power-up: with memories of the right sizes the disk has its default layout and the boot block that describes it |
| DiskLoader.Loader.StoreBlock | firmware/LUFA/Bootloaders/MassStorage/Lib/VirtualFAT.c:335-353 | storing a block replaces its 512 bytes of flash and no others, for every page size dividing 512 |
| DiskLoader.Loader.StoreWord | firmware/LUFA/Bootloaders/MassStorage/Lib/VirtualFAT.c:338-352 | one word: flash keeps representing the whole pages stored and the bytes loaded for the current page, now with this word |
| DiskLoader.Loader.LoadBlock | firmware/LUFA/Bootloaders/MassStorage/Lib/VirtualFAT.c:323-331 | loads the 512 bytes of flash |
| DiskLoader.Loader.ReadWriteFlashFileBlock | firmware/LUFA/Bootloaders/MassStorage/Lib/VirtualFAT.c:303-355 | transfers a block of the FLASH file; others are left alone |
| DiskLoader.Loader.ReadWriteEepromFileBlock | firmware/LUFA/Bootloaders/MassStorage/Lib/VirtualFAT.c:366-392 | transfers a block of the EEPROM file; others are left alone |
| DiskLoader.Loader.WriteEepromBytes | firmware/LUFA/Bootloaders/MassStorage/Lib/VirtualFAT.c:388-391 | writes the 512 bytes of EEPROM and no others |
| DiskLoader.Loader.WriteBlockRequest | firmware/LUFA/Bootloaders/MassStorage/Lib/VirtualFAT.c:399-428 | a block from the host makes exactly the specified change |
| DiskLoader.Loader.ReadBlockRequest | firmware/LUFA/Bootloaders/MassStorage/Lib/VirtualFAT.c:435-482 | answers exactly the specified block and changes nothing |
| DiskLoader.Loader.WriteAll | firmware/LUFA/Bootloaders/MassStorage/Lib/VirtualFAT.c:399-428 | any run of block writes makes exactly the specified change, and none to the flash behind the FLASH file |
| DiskLoader.Loader.WriteAllThenRead | firmware/LUFA/Bootloaders/MassStorage/Lib/VirtualFAT.c:399-482 | any run of block writes and then a read: file blocks read as last written, all other blocks as before |
| DiskLoader.Loader.ReplaceFlashFile | firmware/LUFA/Bootloaders/MassStorage/Lib/VirtualFAT.c:399-428 | serving a host that replaces FLASH.BIN along the served table leaves the flash holding the image, and everything else unchanged |
| Hid.ParsedAt | firmware/LUFA/Bootloaders/HID/HostLoaderApp/hid_bootloader_cli.c:837-878 | what an accepted record does at every address of image and mask, to the count and to the base, with addresses that wrap at 32 bits |
| Hid.StoresInsideIff | firmware/LUFA/Bootloaders/HID/HostLoaderApp/hid_bootloader_cli.c:837-875 | a record that passes the range check, which adds in 32 bits, has all its bytes stored inside the image memory if and only if address, base and length add up to less than 2 to the 32 |
| Hid.RangeCheckIff | firmware/LUFA/Bootloaders/HID/HostLoaderApp/hid_bootloader_cli.c:837 | the range check passes exactly for sums below 64 KB, and for those that exceed 2 to the 32 by less than 64 KB |
| Hid.StoredAt | firmware/LUFA/Bootloaders/HID/HostLoaderApp/hid_bootloader_cli.c:869-870 | byte i of a record is stored and marked at its address plus i in 32 bits, if that is in the image memory |
| Hid.ImageMeansFile | firmware/LUFA/Bootloaders/HID/HostLoaderApp/hid_bootloader_cli.c:764-808 | over any accepted file, the mask is the union of the data runs, the image holds the last byte for each address, and the count is the sum of the lengths |
| Hid.ReportPrograms | firmware/LUFA/Bootloaders/HID/BootloaderHID.c:158-182 | a report for the start of a page replaces that page and nothing else |
| Hid.ReportBytes | firmware/LUFA/Bootloaders/HID/BootloaderHID.c:140-182 | a report as bytes: the address with its low byte first, in units of 256 on wide parts, and a page; FF FF stops the loader and nothing else does |
| Hid.WordDenotesPage | firmware/LUFA/Bootloaders/HID/HostLoaderApp/hid_bootloader_cli.c:153-160 | on all parts but the 64 KB one, the address word denotes the block's own page and is never the start command |
| Hid.SendsBlocks | firmware/LUFA/Bootloaders/HID/HostLoaderApp/hid_bootloader_cli.c:146-166 | from any block on: sent blocks hold their data, unsent ones are unchanged, and no report stops the loader |
| Hid.SessionPrograms | firmware/LUFA/Bootloaders/HID/HostLoaderApp/hid_bootloader_cli.c:146-174 | the whole session: every byte as expected, program reports keep the loader running, the reboot report stops it and changes no flash |
| Hid.ArrivesIff | firmware/LUFA/Bootloaders/HID/HostLoaderApp/hid_bootloader_cli.c:895-913 | on parts other than 64 KB the image arrives if and only if the part is smaller or the last 256 bytes of image memory are blank: that block is sent blank |
| Hid.FileArrives | firmware/LUFA/Bootloaders/HID/HostLoaderApp/hid_bootloader_cli.c:146-166 | from file to flash: on every part below 64 KB, used blocks hold the last byte that the file gives each address, and blanks; all other blocks are unchanged |
| Hid.OnlyFirstPage | firmware/LUFA/Bootloaders/HID/BootloaderHID.c:140-145 | on the 64 KB part, the host sends addresses divided by 256 and the device takes them as they are, so no page but the first ever changes |
| Hid.FaithfulPartsIff | firmware/LUFA/Bootloaders/HID/HostLoaderApp/hid_bootloader_cli.c:153-160 | a part receives all images that leave the last block blank if and only if it is not the 64 KB one |
| HidText.SumsToZeroIff | firmware/LUFA/Bootloaders/HID/HostLoaderApp/hid_bootloader_cli.c:839-878 | the checksum test of a line holds if and only if its text is the one that the format prescribes for its address, type and data |
| HidText.AcceptedIff | firmware/LUFA/Bootloaders/HID/HostLoaderApp/hid_bootloader_cli.c:837-878 | a data line inside the image memory is accepted if and only if its checksum is the last two characters of the prescribed text |
| HidText.AcceptsIff | firmware/LUFA/Bootloaders/HID/HostLoaderApp/hid_bootloader_cli.c:837-878 | any line is accepted if and only if it is inside the image memory and, for a data line, standard |
| HidText.FileAcceptedIff | firmware/LUFA/Bootloaders/HID/HostLoaderApp/hid_bootloader_cli.c:764-803 | a file is accepted if and only if every line up to the end record is inside the image memory, at the base that the standard extended address lines set, and every data line is standard |
| HidText.PrintedFileAccepted | firmware/LUFA/Bootloaders/HID/HostLoaderApp/hid_bootloader_cli.c:764-803 | every file of standard data lines below the end of the image memory, with an end record, is accepted |
| HidTools.BootLoader.Receive | firmware/LUFA/Bootloaders/HID/BootloaderHID.c:134-187 | a report programs a page or stops the loader, exactly as specified |
| HidTools.HostTool.StoreBytes | firmware/LUFA/Bootloaders/HID/HostLoaderApp/hid_bootloader_cli.c:866-875 | the loop stores a record's bytes at their 32-bit addresses and marks them, touches no other address, and adds up the checksum |
| HidTools.HostTool.ParseHexLine | firmware/LUFA/Bootloaders/HID/HostLoaderApp/hid_bootloader_cli.c:819-879 | a decoded line makes exactly the specified change; it is accepted if and only if it is inside the image memory and, for a data line, is the text that the format prescribes |
| HidTools.HostTool.ReadIntelHex | firmware/LUFA/Bootloaders/HID/HostLoaderApp/hid_bootloader_cli.c:764-803 | reads up to the end record; answers the number of bytes, or -2, the first if and only if the file is good |
| HidTools.HostTool.BytesWithinRange | firmware/LUFA/Bootloaders/HID/HostLoaderApp/hid_bootloader_cli.c:881-893 | whether any byte of the range was loaded; never for a range that leaves the image memory |
| HidTools.HostTool.GetData | firmware/LUFA/Bootloaders/HID/HostLoaderApp/hid_bootloader_cli.c:895-913 | the block to send, including the blank last one |
| HidTools.HostTool.Program | firmware/LUFA/Bootloaders/HID/HostLoaderApp/hid_bootloader_cli.c:143-174 | the send loop drives the device through exactly the specified session |
| HidTools.HostTool.Load | firmware/LUFA/Bootloaders/HID/HostLoaderApp/hid_bootloader_cli.c:91-177 | the whole tool against a device below 64 KB: it answers an error if and only if the file is not good, and then changes nothing; a good file ends with the application started, every byte of flash as the file says, and the number of its bytes as the answer |

## Left out

- Operating-system work of the daemon and the tools: daemonising, signals, log and pid files, terminal settings, device opening and write failures. A poll is a parameter, and writing appends to a sequence.
- The floating-point average and Shannon estimate in the daemon's report, and the width of its counters: they are unbounded numbers here.
- Memory allocation in `amls`; an array that is dropped is simply dropped.
- A plain `char` is taken to be signed, as the end marker of the daemon's extractor requires.
- Input of `read` failures in the tools: reading answers a byte or the end of the input.
- Unbiased.EqualOutputChance: flips are independent, and every block has one bias; correlated sources are not modelled.
- MixedCoins.FourCoinsFairIff: compares the two outputs of one bit. That they are equally likely is necessary for a fair block; it is not claimed to suffice.
- USB transport in all loaders: endpoints, packets, disconnects, status stages, stalls. Requests and answers are byte sequences.
- LEDs, timers, watchdog, reset and boot-key code of the loaders, and their descriptors.
- Flash: a word loaded twice before the page is written overwrites the first one, and erasing or writing outside the memory has no effect.
- HexLoader.Loader.PrintFile: claims nothing about what an image that leaves gaps or goes backwards puts into the application section; the parser does not program it faithfully.
- HexLoader.Loader.constructor: the loader as it is switched on. A later connection resets only the parser's state, so one that is made with a page in progress is not covered by the theorems about whole files; `HexParser.StopsOnlyAtEnd` and `BootGuard.StreamKeepsBoot` cover it.
- BootGuard.FileSparesIff: for files of nonempty data records with base address 0. Empty records, whose effect `BootGuard.EmptyRecordMoves` gives, and records that set a base address, for which `HexBase.FileFillsAll` gives the words loaded, are covered only by `BootGuard.StreamKeepsBoot`, with its condition on the page in progress.
- HexBase.FileFillsAll: for even data records and extended address records of two bytes; `HexBase.RecordFills` covers odd data records one at a time.
- HexOdd.OddFileIff: for an odd last record behind even ones.
- Dfu.RoundTrip: the start must be a multiple of 32, because the number of alignment filler bytes that the loader discards depends on packet boundaries otherwise.
- Dfu.SessionHidesFlash: an index outside the two answer tables reads a byte that is a parameter of the device, the same in both runs.
- Dfu: reading flash beyond its end answers blanks; jumps to the application end the session and are not modelled further.
- FatTable.ServesFlashIff: for clusters up to 170, the last one whose table offset fits the code's 8-bit variable.
- VirtualDisk.LastWriteWins: for files of whole sectors in the default layout; writes to the root block count as long as they leave both start clusters as they are. For moved files `DiskHost.HostWritesFlash`, `DiskHost.HostWritesEeprom` and `VirtualDisk.WritesBounded` hold.
- DiskHost.HostReadsFlash: for the default layout.
- VirtualDisk.DefaultLayout: for disks whose block numbers fit 16 bits.
- Hid: decoding text lines into records, and the USB back ends of the host tool. A byte that a record with a wrapping address sum stores outside the image memory is lost in the model; in C that store is undefined.
- HidTools.HostTool.Load: for parts below 64 KB; for the others `Hid.ArrivesIff` and `Hid.FaithfulPartsIff` say what happens. Waiting for the device, and reading the file again after it, is left out.
- firmware/RNG, the boot loaders for the CDC class, and all other LUFA projects, drivers and tests: not part of this model, which keeps to the programs with the most state and the strongest promises about whole runs.
