# NAND command-protocol engine of `flashdevice.py`, in Dafny

This project models the `IO` class of `flashdevice.py`. That class drives a raw NAND
flash chip through an FTDI-style bus adapter, using the chip's ONFI command protocol.
The model covers the engine itself and leaves out the USB transport.

Each engine call appends transactions to a trace. There are five kinds: a latched
command, address cycles, data written, a data read, and a wait for ready. The chip is a
function `Device` from the trace so far and a byte index to the byte the adapter hands
back. Every operation is a pure function from a `Bus` value to a new `Bus` value. A
`Bus` holds the opaque constants, the slow-clock mode, the write-protect flag and the
trace. The operations proved about are these:

- **Address cycles.** `__send_address` becomes `Bytes.AddressCycles`, with a
  little-endian round trip.
- **Adapter frames.** The opcode lists that `__read`, `__write` and `__write_bin` build
  are modelled in `Frames`. This includes which of the CL, AL and WP lines the type
  byte raises.
- **Slow mode.** Only every other byte of the adapter's answer is kept.
- **ONFI identification.** This covers the signature probe and the parameter page
  (section 5.7.1 of the ONFI 3.0 specification) decoded into a `Geometry`. It also
  covers the sizes derived from that page and the manufacturer table.
- **Page reads.** `read_page` in large-page mode (chunks of at most 0x1000 bytes) and
  small-page mode. Also `read_page_from_block`, `check_bad_blocks` and `read_seq`.
- **Erase.** `erase_block_by_page`, `erase` and `erase_blocks`.
- **Programming.** `write_page` in both modes, including the small-page retry loops.
  Also `write_page_in_a_block`.
- **Feature registers.** `set_features`, `set_features_bin`, `get_features` and
  `get_SLC_MLC`. They are checked against a chip whose feature registers echo what was
  stored.

The constants of `flashdevice_defs` are not part of this model. Opcodes, line masks,
`LP_OPTIONS` and `NAND_STATUS_FAIL` are fields of an opaque `FlashDefs.Defs` record.
The only literal opcode is the status command 0x70.

Behaviour of the code worth noting, which the model keeps:

- **Chunked reads.** Large-page `read_page` splits its read into chunks only when
  `PageSize > 0x1000`. The length being read does not decide it. There is also no wait
  for ready between READ-START and the data phase.
- **Large-page write status.** Large-page `write_page` reads no status and always
  returns 0.
- **First small-page piece.** It is a fixed `data[0:256]`, not half the page.
- **Row address in `read_seq`.** `read_seq` latches `pageno << 8` even on a large-page
  part.
- **Set features and write protection.** `set_features` does not clear write
  protection. Its writes carry whatever flag is in force.
- **Erase.** Erase always uses three address cycles and reports its status without
  retrying.

## Model

| member | source | states |
|---|---|---|
| Bytes.AddressCycles | flashdevice.py:152-159 | exactly `count` cycles; cycle i is `(addr >> 8i) & 0xFF` |
| Bytes.AddressCyclesRoundTrip | flashdevice.py:152-159 | decoding the cycles little-endian recovers `addr` whenever `addr < 256^count` |
| Bytes.LittleEndianRoundTrip | flashdevice.py:152-159 | every cycle string is the encoding of its little-endian value, so the encoding loses nothing |
| Bytes.ShiftedAddressCycles | flashdevice.py:377 | `pageno << 8` is sent as one zero column cycle followed by the cycles of `pageno` |
| Bytes.KeepEven | flashdevice.py:100-102 | the slow-mode slice `data[0:-1:2]` keeps half the bytes, byte i being raw byte 2i |
| Bytes.BitAndBits | flashdevice.py:529 | the integer `BitAnd` the status test uses is, on bytes, exactly the bitwise `&` |
| Frames.ReadFrame | flashdevice.py:81-94 | READ_EXTENDED, the type byte and 0, then a READ_SHORT/0 pair per further byte, then SEND_IMMEDIATE |
| Frames.ReadFrameCycles | flashdevice.py:81-94 | a read frame clocks one read cycle per requested byte (one for a zero count) |
| Frames.WriteFrame | flashdevice.py:107-127 | WRITE_EXTENDED carrying the first byte, then WRITE_SHORT/0/byte for each later byte, in order |
| Frames.WriteTypeLines | flashdevice.py:107-115 | a write's type byte raises CL iff cl, AL iff al, WP iff write protection is off |
| Frames.ReadTypeLines | flashdevice.py:81-87 | a read's type byte raises CL iff cl, AL iff al, and never WP |
| Frames.WriteFramePayload | flashdevice.py:107-147 | the data bytes recovered from a write frame are exactly the payload |
| Bus.SendAddress | flashdevice.py:152-159 | one address transaction of `count` cycles under the current protection flag, decoding back to `addr` when it fits |
| Bus.ReadData | flashdevice.py:81-105 | a read of `count` bytes; byte i is the chip's raw byte i, or raw byte 2i in slow mode |
| Bus.SendCmd | flashdevice.py:149-150 | one command transaction carrying the opcode, under the protection flag in force |
| Bus.GetStatus | flashdevice.py:161-164 | latches the status command then reads one byte, which is returned |
| Bus.StatusFailedBits | flashdevice.py:529 | the FAIL test on a status byte is exactly `err & NAND_STATUS_FAIL != 0` with the bitwise `&` on bytes |
| Bus.CommandFrame | flashdevice.py:149-150 | a command goes out as one write with CL raised and AL not, carrying its opcode (0x70 for status) |
| Bus.WriteFrameWriteEnable | flashdevice.py:107-127 | any write frame's type byte raises WP exactly when it was issued with protection off |
| Bus.WritesRaiseWp | flashdevice.py:114-115 | every write of a trace issued with protection off reaches the wire with WP raised |
| Bus.ReadFrameWriteEnable | flashdevice.py:81-89 | a read frame never raises WP |
| Bus.FramePayload | flashdevice.py:152-172 | address cycles and data bytes reach the wire unchanged |
| Onfi.Manufacturer | flashdevice.py:225-246 | the vendor from the table for the ten known first ID bytes, "Unknown" exactly for any other |
| Onfi.ParseParameterPage | flashdevice.py:248-269 | page size, spare size, pages per block, blocks per LUN and LUN count from bytes 80-83, 84-85, 92-95, 96-99, 100; ID string 44-63; ID 64; bits per cell 102; 5 address cycles |
| Onfi.ParseParameterPageRoundTrip | flashdevice.py:253-269 | parsing the page a geometry presents gives that geometry back, whatever byte 101 says |
| Onfi.ProbeId | flashdevice.py:184-186 | READ-ID, the one-cycle address 0, a read of eight bytes; the bytes are the chip's answer to that read |
| Onfi.ProbeSignature | flashdevice.py:205-207 | READ-ID, the one-cycle address 0x20, a read of four bytes; the bytes are the chip's answer to that read |
| Onfi.FetchParameterPage | flashdevice.py:214-217 | READ-PARAMETER-PAGE, address 0, a wait for ready, a read of 256 bytes; the bytes are the chip's answer to that read |
| Onfi.Identify | flashdevice.py:175-271 | identified exactly when READ-ID 0x20 answers "ONFI" and the parameter page starts with "ONFI"; the geometry is then parsed from that page with the vendor of the first ID byte; a refusal leaves the bus after the signature probe, or after the page read when only the page fails |
| Onfi.OnfiChipIdentified | flashdevice.py:175-271 | any chip that answers "ONFI" to READ-ID 0x20 and presents the parameter page of a geometry is identified with exactly that geometry, named after the vendor of its first ID byte |
| Onfi.ParameterPageIgnoresVendor | flashdevice.py:248-269 | the parameter page a geometry presents does not depend on the vendor name, which comes from the ID bytes instead |
| Pages.LargePageCycles | flashdevice.py:359 | `pageno << 16` in five cycles is two zero column cycles and three row cycles that decode back to `pageno` |
| Pages.PageIndexRoundTrip | flashdevice.py:397-399 | for a page inside the block, `block * PagePerBlock + page` divides back into block and page |
| Pages.PageIndexSplit | flashdevice.py:397-399 | every flat page index is some block's page |
| Pages.ChunkSizes | flashdevice.py:362-368 | chunk lengths sum to the length; each is positive and at most 0x1000; all but the last are exactly 0x1000 |
| Pages.ReadChunks | flashdevice.py:362-368 | one read per chunk, in order, returning exactly `length` bytes; byte k is byte `k % 0x1000` of the chip's answer to chunk `k / 0x1000`, so the chunks are concatenated in order |
| Pages.ReadChunksSingle | flashdevice.py:362-370 | a length within one chunk is read the same way as the unchunked read |
| Pages.ReadPageLarge | flashdevice.py:355-370 | READ0, the five-cycle row, READ-START, then the page in chunks or in one read; every byte is the chip's answer to the read that fetched it |
| Pages.ReadPart | flashdevice.py:375-391 | one small-page access: command, wait, row, wait, read of `count` bytes; the bytes are the chip's answer to that read |
| Pages.ReadPageSmall | flashdevice.py:373-391 | READ0 and READ1 halves of the data area, then the spare area unless `remove_oob`; each part of the result is the chip's answer to its own read, in that order |
| Pages.ReadPage | flashdevice.py:351-394 | returns PageSize bytes, or PageSize + OOBSize unless `remove_oob`, with the mode's exact command script; every byte is the chip's answer to the read that fetched it, in address order |
| Pages.ReadPageFromBlock | flashdevice.py:397-399 | reads flat page `block * PagePerBlock + page`, whose five-cycle row decodes back to that block and page |
| Pages.ProbeMarker | flashdevice.py:316-319 | issues exactly the `read_page` script for the block's first page with its spare area, and reports whether that page's first spare byte is not 0xFF |
| Pages.Scan | flashdevice.py:311-326 | the scan loop lists ascending indices below the block count |
| Pages.ScanExact | flashdevice.py:314-323 | a block is listed exactly when the probe, run at its turn, marks it |
| Pages.MarkerProbe | flashdevice.py:316-319 | the probe only extends the trace and answers the marker test |
| Pages.ScanScript | flashdevice.py:311-326 | a scan whose probe of block k issues a fixed script issues those scripts for blocks 0, 1, … in order and nothing else |
| Pages.MarkerProbeIssues | flashdevice.py:316-319 | the marker probe of block k is a full `read_page` of block k's first page, spare area included |
| Pages.MarkerScanScript | flashdevice.py:304-326 | the scan `check_bad_blocks` runs issues one full first-page read per block, block 0 first |
| Pages.CheckBadBlocks | flashdevice.py:304-326 | ascending list of block indices below BlockCount; the bus carries exactly one full read of each block's first page, block 0 first |
| Pages.CheckBadBlocksExact | flashdevice.py:304-326 | a block is listed exactly when it is a block of the chip whose first page's first spare byte is not 0xFF |
| Pages.ReadChunksBlank | flashdevice.py:362-368 | an erased chip yields only 0xFF bytes from a chunked read |
| Pages.ReadPageBlank | flashdevice.py:351-394 | an erased chip yields only 0xFF bytes from `read_page` |
| Pages.CheckBadBlocksBlank | flashdevice.py:304-326 | an erased chip has no bad blocks |
| Pages.SeqPages | flashdevice.py:411-423 | PagePerBlock repetitions of a RawPageSize read followed by a wait; page i is the chip's answer to the i-th read |
| Pages.SeqBlock | flashdevice.py:402-423 | READ0, wait, the `pageno << 8` row, wait, then every page of the block; page i is the chip's answer to the i-th read |
| Pages.Concat | flashdevice.py:418-421 | the pages cut to a width and concatenated have `pages * width` bytes |
| Pages.ConcatAt | flashdevice.py:418-421 | byte j of page i sits at offset `i * width + j` |
| Pages.ReadSeq | flashdevice.py:402-439 | all or nothing: empty when page 0 or 1 has a non-0xFF byte at PageSize+5 and raw mode is off; otherwise every page, in order, cut to PageSize when `remove_oob`; the trace is exactly READ0, wait, the `pageno << 8` row, wait, then one raw-page read and wait per page of the block |
| Program.EraseBlockByPage | flashdevice.py:443-453 | ERASE1, three row cycles decoding to `pageno`, ERASE2, wait, status; all writes with protection off, protection back on, status returned |
| Program.EraseRaisesWp | flashdevice.py:443-453 | every write of an erase goes out on the wire with WP raised |
| Program.EraseRange | flashdevice.py:689-699 | erasing a run of blocks is the erases of each block in order |
| Program.ErasedRowsStep | flashdevice.py:443-453 | the row an erase latches is recovered from its transactions |
| Program.EraseScriptRows | flashdevice.py:689-699 | a run of erases latches the first page of each block of the run, in order |
| Program.EraseScriptWrites | flashdevice.py:689-699 | every write of a run of erases goes out with protection off |
| Program.Erase | flashdevice.py:689-693 | the trace is exactly one erase per block 0 .. BlockCount-1, in order: ERASE1, the first page's three row cycles, ERASE2, wait, status read; every write with protection off and protection on at the end |
| Program.EraseBlocks | flashdevice.py:695-699 | the trace is exactly one such erase per block start .. end inclusive, in order; nothing for an empty range |
| Program.EraseScriptAt | flashdevice.py:689-699 | in a run of erases, transactions 6k .. 6k+5 are the whole erase of block start+k |
| Program.Slice | flashdevice.py:526-554 | Python slicing clamped to the data: the bytes from `lo` up to `min(hi, len)` |
| Program.ProgramChunks | flashdevice.py:526-554 | three pieces: the first holds data[k] for k < 256, the second data[PageSize//2 + k] below PageSize, the third data[PageSize + k] below RawPageSize; on a raw page they have 256, the rest of the data area, and OOBSize bytes |
| Program.ProgramChunksCoverPage | flashdevice.py:526-554 | on a 512-byte page the three pieces laid end to end are exactly the raw page |
| Program.ProgramAttempt | flashdevice.py:520-528 | area command, SEQIN, wait, row, wait, piece, PAGEPROG, status |
| Program.ProgramLoop | flashdevice.py:520-532 | the attempts are repeated in order; every attempt before the last read a status with FAIL; it stops at the first status without FAIL, and gives up only after all allowed attempts failed |
| Program.RetryStep | flashdevice.py:520-532 | a failed attempt followed by a loop of n attempts whose earlier ones failed is a loop of n + 1 attempts whose earlier ones failed |
| Program.ProgramLoopRan | flashdevice.py:520-532 | a retry loop's outcome meets `LoopRan`: its attempt count, every earlier status failing, its last status and pass/give-up verdict, and the bus it leaves |
| Program.LoopRanUnique | flashdevice.py:520-532 | `LoopRan` admits one outcome only: any outcome meeting it is the loop's |
| Program.WritePageLarge | flashdevice.py:511-518 | SEQIN, wait, five-cycle row, wait, the whole page, PAGEPROG, wait, all with protection off |
| Program.ProgramPieces | flashdevice.py:519-561 | the loops in turn, each loop's attempts at its own area (READ0, READ1, READ_OOB), row and piece; a loop that gives up ends the write with its failing status and no later loop runs; otherwise every loop passed and the last passing status is reported |
| Program.ProgramPiecesRan | flashdevice.py:519-561 | each loop of a small-page write, started where the loops before it left the bus, ends as `LoopRan` describes |
| Program.PiecesScriptCons | flashdevice.py:519-561 | the script of the first k + 1 loops is the first loop's attempts followed by the script of the next k |
| Program.OutcomesCons | flashdevice.py:519-561 | a passed loop in front of the remaining loops' record is again a record of how the write ended |
| Program.ProgramPiecesLoads | flashdevice.py:519-561 | only the pieces are ever loaded, all with protection off, and a completed write loads every piece |
| Program.ScriptLoads | flashdevice.py:519-561 | any script of loops that each made an attempt loads only their pieces under one flag, and all of them when it reaches the last piece |
| Program.AttemptFacts | flashdevice.py:520-528 | one attempt loads exactly its piece |
| Program.LargeProgramFacts | flashdevice.py:511-518 | a large-page write loads exactly the page, with protection off |
| Program.RepeatFacts | flashdevice.py:520-532 | retried attempts load nothing but their piece |
| Program.WritePage | flashdevice.py:507-563 | protection off for every write and on at the end; large page: exactly the large-page script, one load of the data, result 0 and no loops; small page: the three loops in order as in `ProgramPieces`, only the pieces loaded, all of them on success, the status passes on success and fails on giving up |
| Program.WritePageRan | flashdevice.py:519-561 | on a small-page part each loop of `write_page` ends as `LoopRan` describes, starting where the previous loop left the bus |
| Program.WritePageInABlock | flashdevice.py:595-597 | writes flat page `block * PagePerBlock + page`, whose five-cycle row decodes back to that block and page |
| Features.LowByte | flashdevice.py:484-485 | `v & 0xff`: the byte congruent to v modulo 256, v itself when it is a byte |
| Features.Masked | flashdevice.py:484-485 | one low byte per value, in order |
| Features.SetPhases | flashdevice.py:476-487 | SET FEATURES, wait, the one-cycle address, wait, the value bytes, under the current protection flag |
| Features.SetFeatures | flashdevice.py:472-490 | exits with no bus traffic exactly when the list is not four long; otherwise stores the low bytes at the address and waits |
| Features.SetFeaturesBin | flashdevice.py:458-470 | exits with no bus traffic exactly when the list is not four long; otherwise stores the bytes as given |
| Features.GetFeatures | flashdevice.py:496-503 | GET FEATURES, wait, the one-cycle address, wait, then four bytes read |
| Features.CellMode | flashdevice.py:578-583 | "SLC" iff the byte is 1, "MLC" iff 2, "Unknown" otherwise |
| Features.GetSlcMlc | flashdevice.py:576-583 | the mode named by the first byte of feature 0x91 |
| Features.GetFeaturesReads | flashdevice.py:496-503 | on an echoing chip, `get_features` returns the register's current contents in either clock mode |
| Features.SetGetRoundTrip | flashdevice.py:472-503 | `get_features` after `set_features` at the same address returns the low bytes of the values set |
| Features.SetBinGetRoundTrip | flashdevice.py:458-503 | `get_features` after `set_features_bin` returns the bytes set |
| Features.SetLeavesOthers | flashdevice.py:472-503 | setting one register leaves what every other register reads unchanged |
| Features.CellModeAfterSet | flashdevice.py:576-587 | after setting 1,1,0,0 at 0x91 the mode reads "SLC"; after 2,1,0,0 (`revert_to_MLC`) it reads "MLC" |
| Findings.MarkerTestAsWritten | flashdevice.py:319 | the marker comparison as written reports bad for every byte |
| Findings.ProbeAsWritten | flashdevice.py:316-319 | the probe with the marker test as written (and the read of line 379 corrected) marks every readable block |
| Findings.CheckBadBlocksAsWritten | flashdevice.py:304-326 | the scan with the marker test of line 319 as written and the read of line 379 corrected only extends the trace |
| Findings.EveryBlockReportedBad | flashdevice.py:304-326 | with the marker test as written and the read of line 379 corrected, a block is listed exactly when it is a block of the chip, whatever the chip answers |
| Findings.BlankChipReportedBad | flashdevice.py:319 | on an erased chip the code as written lists block 0 while the corrected scan lists none |
| Findings.PageSignatureAsWritten | flashdevice.py:218 | the page-signature comparison as written is never true |
| Findings.IdentifyAsWritten | flashdevice.py:205-223 | as written, identification succeeds exactly when READ-ID 0x20 answers "ONFI", whatever the page holds |
| Findings.BlankParameterPageAccepted | flashdevice.py:205-223 | a chip with the signature but a blank parameter page is identified as written and rejected by the corrected check |
| Findings.TrueDiv | flashdevice.py:379 | `PageSize/2` is a float, even for an even page size |
| Findings.ReadDataAsWritten | flashdevice.py:91 | a float count raises a TypeError before any bus traffic |
| Findings.ReadPageSmallAsWritten | flashdevice.py:373-391 | a small-page `read_page` as written raises a TypeError, having only extended the trace and read no data |
| Findings.SmallPageReadRaises | flashdevice.py:373-391 | as written, every small-page read raises after READ0 and the row, before any data; the corrected read returns the whole page |
| Findings.SliceAsWritten | flashdevice.py:540 | a float slice bound raises a TypeError |
| Findings.SecondPieceAsWritten | flashdevice.py:540 | the second piece as written always raises a TypeError |
| Findings.SecondPieceRaises | flashdevice.py:540 | as written the second piece can never be cut; corrected it is `data[PageSize//2:PageSize]` |
| Findings.FirstLoopThenHead | flashdevice.py:520-539 | as written, the first loop then the second loop's head: when it gets that far, the first status passed and the trace ends with READ1, SEQIN, wait, row, wait |
| Findings.SmallWriteAsWritten | flashdevice.py:510-562 | a small-page write as written stops in its first loop or raises at line 540, and either way leaves write protection off |
| Findings.SmallWriteStopsAtSecondPiece | flashdevice.py:510-562 | when the first piece programs at once, the write as written raises with exactly that attempt and the second loop's head on the bus and protection off, while the corrected write turns protection back on |
| Findings.ProgramLoopAsWritten | flashdevice.py:520-532 | the unbounded loop, once finished, ends on a passing status |
| Findings.BoundedLoopAgrees | flashdevice.py:520-532 | whenever the bounded loop passes, the unbounded one finishes identically, with the same bus and status |
| Findings.AsWrittenFinishes | flashdevice.py:520-532 | given enough fuel, the loop as written finishes at the first attempt whose status lacks FAIL, after exactly that many attempts |
| Findings.RetryNeverEnds | flashdevice.py:520-560 | on a chip whose every status fails, the unbounded loop never finishes |
| Findings.FailingChipSpins | flashdevice.py:520-560 | a chip answering only the FAIL bit keeps the unbounded loop spinning, while the bounded loop gives up after its last attempt |
| Findings.AlwaysFailingGivesUp | flashdevice.py:520-560 | on a chip whose every status fails, the bounded loop spends all its attempts and gives up |

## Left out

- FTDI open, configure and close, and the disconnected-adapter paths (`None` or `''` returns at lines 96-97, 124-125, 144-145 and 425-426, and the empty-ID exit at lines 188-190 that such a return leads to). The model assumes a connected adapter.
- `__wait_ready`'s busy-wait on the adapter's status pins: it is a `WaitReady` trace entry, with no timing and no timeout.
- The two `SET_BITS_HIGH` writes at the end of `read_seq` (lines 428-429): they are pin toggles outside the NAND command stream.
- `time.sleep` settle delays, every `print` and `dump_info`. The failed-attempt messages of `write_page` are not printed; the `loops` field of `Program.WriteResult` records the outcome of each retry loop instead.
- `sys.exit(-1)`: it becomes the `Exited` result with the bus untouched.
- `read_oob`, `write_pages`, `write_all_pages_in_a_block` and `convert_to_SLC_mode`. The model covers the pieces they call.
- The `chr`/`ord` round trips of payloads and the final `chr` conversion in `read_seq`: payloads are byte sequences.
- Python's arbitrary-width integers past three row cycles: `erase_block_by_page` sends only the low 24 bits of the page index. The row claims hold for page indices below 2^24.
- Program.ProgramLoop: carries an explicit retry bound (`retries` further attempts). The code retries without limit, and that version is Findings.ProgramLoopAsWritten.
- Program.WritePage: requires every piece it writes to be non-empty. The code indexes the first byte of every write and fails on an empty one.
- Pages.ReadSeq: requires byte PageSize+5 to lie inside a raw page. The code indexes it and fails otherwise.
- Pages.CheckBadBlocks: requires byte PageSize to lie inside a full page read when there are blocks. The code indexes it and fails otherwise.
- Features.SetFeaturesBin: takes bytes. The code passes the list to an unsigned-byte array, which rejects values outside 0..255.

## Findings

| source | as written | input that shows it | evidently intended | confidence | as-written member | corrected member |
|---|---|---|---|---|---|---|
| flashdevice.py:319 | the spare byte, an int, is compared with `b'\xff'`, a bytes object, so every block is reported bad | an erased chip (every byte 0xFF) with at least one block | compare with the integer 0xFF | high; not executed | Findings.CheckBadBlocksAsWritten (Findings.BlankChipReportedBad) | Pages.CheckBadBlocks (Pages.CheckBadBlocksExact) |
| flashdevice.py:218 | the page's first four bytes (bytes) are compared with a list, which is always false, and the result is never used, so any parameter page is accepted | a chip answering "ONFI" at READ-ID 0x20 and 0xFF everywhere else | reject a parameter page without the "ONFI" signature | medium; not executed | Findings.IdentifyAsWritten (Findings.BlankParameterPageAccepted) | Onfi.Identify |
| flashdevice.py:379 | `self.PageSize/2` is a float, and `range(1, count)` in `__read` refuses it, so every small-page read raises TypeError | any small-page read, e.g. PageSize 512 | read `PageSize // 2` bytes per half | high; not executed | Findings.ReadPageSmallAsWritten (Findings.SmallPageReadRaises) | Pages.ReadPageSmall |
| flashdevice.py:540 | `data[self.PageSize/2:self.PageSize]` uses a float slice bound, so the second piece of every small-page write raises TypeError | any small-page write, e.g. PageSize 512 | slice from `PageSize // 2` | high; not executed | Findings.SecondPieceAsWritten (Findings.SecondPieceRaises, Findings.SmallWriteStopsAtSecondPiece) | Program.ProgramChunks (Program.ProgramChunksCoverPage) |
| flashdevice.py:520-560 | each retry loop repeats while the status shows FAIL, with no bound | a chip whose status byte is always the FAIL bit | give up after a bounded number of attempts and report the failure | high; not executed | Findings.ProgramLoopAsWritten (Findings.FailingChipSpins) | Program.ProgramLoop |
