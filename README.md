# Detector readout core: frame decoding, register words, pulser scan, ASIC write traces

This project models four pieces of sequential logic from the detector readout
software, and proves properties of each.

- **Coulter frame decoder** (`coulter.dfy`, module `Coulter`):
  - `CoulterFrameParser._acceptFrame`. Error frames and text frames (flag word `>> 24` non-zero) are dropped. Any other frame appends a zeroed `[256][12][16]` array to the store `d`. Its 16-byte records, from offset 16 and strictly below `len(p) - 16`, are then decoded into the array: each gives channel, last and slot from a little-endian metadata word, and eight 14-bit sub-samples from two 56-bit little-endian words.
  - The helpers `conv` and `sign_extend`.
  - The queries `pixelData` and `adcData`.
  - `AcquisitionControl._count`.
  - A decoded frame is a flat sequence in the array's row-major order. The parser is a class whose field `d` the decoder appends to. The record loop is the method `DecodeInto`, writing into an `array<int>` and proved against the decoding function `DecodeRecords`.
- **Generic register container** (`register.dfy`, module `GenericRegister`):
  - The `Register` class of `Register.cpp`: its three constructors, the masked bit-field `setIndex` and `getIndex` with their out-of-range guards, `set` and `get`, and the `stale` flag.
  - A 32-bit word is an integer in `[0, 2^32)`. The C operators `&`, `|`, `^`, `<<` and `>>` are defined on such words, with `<<` dropping the bits shifted past bit 31. Each is characterised bit by bit.
- **CPIX pulser scan** (`pulser_scan.dfy`, module `PulserScan`):
  - The frame-acceptance state machine inside `main`'s acquisition loop in `cpixPulserScan.cpp`: short frames, the `first` phase, sequence-number gaps, the counter-A and counter-B bookkeeping, and the pulser step with its `Config3` write.
  - Hardware writes and file saves are returned as actions. A `Config3` read is a parameter.
  - The loop variables are a class. Each method is proved against the function `Transition`.
- **ePix FPGA command functions** (`epix_fpga.dfy`, module `EpixFpga`):
  - `fnEvaluateSerDelay`, the pixel matrix writer with its bank-to-column address rule. `AsicDeserHrRegisters` and `AsicDeserRegisters` carry the same code, so one member models both.
  - `fnRampTestHSDac`, the high-speed DAC ramp.
  - Each is a method that builds the ordered trace of register accesses, proved equal to a trace function.

Two facts about `_acceptFrame` (`_coulter.py:374`, `396-397`) shape the decoder model:

- A record whose channel is 12 to 15, or whose slot is 256 or more, makes numpy raise `IndexError` in the slice assignment. Its writes are not silently dropped, and the rest of the frame is not decoded.
- The zeroed frame is appended to `d` before the record loop, so a frame cut short by `IndexError` stays in `d` with the records before the bad one. The model decodes into a fresh array and appends it once after the loop. Nothing reads `d` during the call, so the final state of `d` is the same.

## Model

| member | source | states |
|---|---|---|
| Coulter.Conv | software/Coulter/python/coulter/_coulter.py:352-355 | `conv(i, h, l)` is below `2^(h-l+1)` |
| Coulter.ConvExtractsField | software/Coulter/python/coulter/_coulter.py:352-355 | a field of `width` bits packed at `lowBit` under any lower and upper bits is returned exactly by `conv` |
| Coulter.SignExtend | software/Coulter/python/coulter/_coulter.py:403-405 | the result lies in `[-2^(bits-1), 2^(bits-1))`; a code below `2^bits` reads as itself below the sign bit and as itself minus `2^bits` from it |
| Coulter.SignExtendRoundTrip | software/Coulter/python/coulter/_coulter.py:403-405 | re-encoding a sign-extended code modulo `2^bits` gives the code back |
| Coulter.SignExtendOfTwosComplement | software/Coulter/python/coulter/_coulter.py:403-405 | every signed value in range is the sign extension of its two's-complement code |
| Coulter.LittleEndian | software/Coulter/python/coulter/_coulter.py:388 | `int.from_bytes(s, 'little')` is below `2^(8 len(s))` |
| Coulter.RecordAt | software/Coulter/python/coulter/_coulter.py:388-394 | channel < 16, last < 2, slot < 2048, and both data words are 56-bit |
| Coulter.RecordFieldsAreConvFields | software/Coulter/python/coulter/_coulter.py:388-391 | channel, last and slot are bits [3:0], [4:4] and [15:5] of the metadata word `p[b] + 256 p[b+1]` |
| Coulter.SubSample | software/Coulter/python/coulter/_coulter.py:396-397 | `(word >> 14i) & 0x3FFF` is at most 16383 |
| Coulter.SubSampleIsConv | software/Coulter/python/coulter/_coulter.py:396-397 | sub-sample i is the bit field [14i+13 : 14i] of the word |
| Coulter.Cell | software/Coulter/python/coulter/_coulter.py:374 | an index `[slot][channel][sub]` inside the `[256][12][16]` shape falls inside the 49152-cell frame |
| Coulter.CellInjective | software/Coulter/python/coulter/_coulter.py:374 | distinct positions of the `[256][12][16]` array occupy distinct cells of the flat frame |
| Coulter.ZeroFrame | software/Coulter/python/coulter/_coulter.py:374 | the fresh `numpy.zeros` frame has 49152 cells, each within 14 bits |
| Coulter.StoreRecord | software/Coulter/python/coulter/_coulter.py:396-397 | the two slice assignments keep the frame's 49152 cells |
| Coulter.StoreRecordWrites | software/Coulter/python/coulter/_coulter.py:396-397 | cell `last*8+i` of row [slot][channel] gets sub-sample i of `low`, and cell `last*8+4+i` gets sub-sample i of `high` |
| Coulter.StoreRecordKeeps | software/Coulter/python/coulter/_coulter.py:396-397 | every cell outside those eight keeps its value |
| Coulter.StoreRecordKeepsOtherRows | software/Coulter/python/coulter/_coulter.py:396-397 | no cell of another [slot][channel] row changes |
| Coulter.StoreRecordFrame | software/Coulter/python/coulter/_coulter.py:396-397 | a frame of 14-bit samples stays one |
| Coulter.DecodeRecords | software/Coulter/python/coulter/_coulter.py:383-399 | the record loop keeps the frame size and the 14-bit range; an `IndexError` is raised only at a record offset at or after the start and below `len(p) - 16`, and only by a record whose slot is 256 or more or whose channel is 12 or more |
| Coulter.DecodePayload | software/Coulter/python/coulter/_coulter.py:374-399 | decoding from offset 16 into a zero frame yields 14-bit samples only; an `IndexError` happens at an offset in `[16, len(p) - 16)`, at a record whose slot or channel is out of range |
| Coulter.DecodeStep | software/Coulter/python/coulter/_coulter.py:383-399 | an in-range record is stored and decoding goes on 16 bytes later |
| Coulter.DecodeStopsAt | software/Coulter/python/coulter/_coulter.py:383-399 | a record before the footer with slot 256 or more or channel 12 or more stops decoding there with `IndexError`, keeping the cells decoded so far |
| Coulter.DecodeInto | software/Coulter/python/coulter/_coulter.py:374-399 | the loop writing records into a zeroed array in place ends with the cells `DecodePayload` gives, and reports `IndexError` at the offset it gives |
| Coulter.ShortPayloadDecodesToZero | software/Coulter/python/coulter/_coulter.py:376-383 | a payload of 32 bytes or fewer leaves the frame all zero |
| Coulter.SingleRecordPayload | software/Coulter/python/coulter/_coulter.py:376-399 | a payload of 33 to 48 bytes decodes exactly the record at offset 16, or raises there |
| Coulter.FooterIgnored | software/Coulter/python/coulter/_coulter.py:376-383 | for a whole number of 16-byte blocks, payloads differing only in the last block decode alike |
| Coulter.CoveredCellDecoded | software/Coulter/python/coulter/_coulter.py:383-399 | if the loop from offset b reaches the record at offset o, and that record covers cell k while no later record before the footer does, the decoded cell holds that record's sub-sample, whether decoding completes or stops later |
| Coulter.PayloadCellDecoded | software/Coulter/python/coulter/_coulter.py:374-399 | in a whole decoded payload, a cell whose last covering record is reached holds that record's low or high sub-sample |
| Coulter.LastCoverDecides | software/Coulter/python/coulter/_coulter.py:383-399 | the record at the loop's current offset decides a cell it covers when no later record covers it |
| Coulter.NotCoveredKept | software/Coulter/python/coulter/_coulter.py:383-399 | a cell that no record from offset b up to the footer covers keeps its value, whether decoding completes or stops |
| Coulter.StoredSample | software/Coulter/python/coulter/_coulter.py:396-397 | each of a record's eight cells receives its low sub-sample 0 to 3 or its high sub-sample 0 to 3, in order |
| Coulter.UncoveredCellKept | software/Coulter/python/coulter/_coulter.py:374-399 | a cell that no decoded record covers keeps its value, so it stays 0 in a decoded frame |
| Coulter.PyIndex | software/Coulter/python/coulter/_coulter.py:437-442 | numpy axis indexing: defined exactly for `-n <= i < n`, and negative indices count from the end |
| Coulter.Count | software/Coulter/python/coulter/_coulter.py:325-330 | `_count` returns 2 plus the sum of the values, accumulated in order |
| Coulter.WriteRecord | software/Coulter/python/coulter/_coulter.py:396-397 | the in-place slice assignments leave the array equal to `StoreRecord` of its old contents |
| Coulter.StoredAsWritten | software/Coulter/python/coulter/_coulter.py:396-397 | a frame that keeps every cell but the record's eight, and holds its four low then four high sub-samples there, is `StoreRecord` of the old frame |
| Coulter.FlagChannel | software/Coulter/python/coulter/_coulter.py:367 | `flags >> 24` is the quotient of the flag word by `2^24`, below 256 for a 32-bit word |
| Coulter.PixelDataOf | software/Coulter/python/coulter/_coulter.py:437-439 | the comprehension as written: `256 len(frames)` entries, entry i the row [s][c] of frame `i mod len(frames)` |
| Coulter.AdcDataOf | software/Coulter/python/coulter/_coulter.py:441-442 | the comprehension as written: `256 * 16 len(frames)` entries, each the slab [s] of the frame its position names, the same for every slot and mck |
| Coulter.Row | software/Coulter/python/coulter/_coulter.py:437-439 | `frame[slot][channel]` is the 16 cells of that row |
| Coulter.Slab | software/Coulter/python/coulter/_coulter.py:441-442 | `frame[slot]` is the 12 x 16 cells of that slot, row-major |
| Coulter.FrameParser.constructor | software/Coulter/python/coulter/_coulter.py:345-349 | the store starts empty |
| Coulter.FrameParser.AcceptFrame | software/Coulter/python/coulter/_coulter.py:357-399 | an error or text frame leaves `d` unchanged; a data frame appends exactly one frame, the payload decoded into a zero frame, and earlier frames are untouched; the outcome reports the record that raised `IndexError` |
| Coulter.FrameParser.PixelData | software/Coulter/python/coulter/_coulter.py:437-439 | as written: `256 len(d)` entries, entry i the row [adc][mck] of frame `i mod len(d)`; `IndexError` exactly when an index is out of numpy range and `d` is not empty |
| Coulter.FrameParser.AdcData | software/Coulter/python/coulter/_coulter.py:441-442 | as written: `256 * 16 len(d)` entries, each the whole slab [adcCh] of one frame; `IndexError` exactly when adcCh is out of range and `d` is not empty |
| Coulter.FrameParser.PixelSeries | software/Coulter/python/coulter/_coulter.py:437-439 | the intended series: `256 len(d)` samples, entry i the cell [i / len(d)][channel][sub] of frame `i mod len(d)`, each in [0, 16383] |
| Coulter.ChannelSeriesOf | software/Coulter/python/coulter/_coulter.py:441-442 | the intended series: for each slot, frame and mck in comprehension order, the cell [slot][channel][mck] |
| Coulter.PixelDataIgnoresSlot | software/Coulter/python/coulter/_coulter.py:437-439 | a frame whose only non-zero cell is [1][0][0] gives an all-zero row where the series has 7, and pixel (0, 13) raises |
| Coulter.AdcDataIgnoresSlot | software/Coulter/python/coulter/_coulter.py:441-442 | with the same frame, entry 16 is the slab of slot 0 where the series has 7 |
| GenericRegister.And | software_original/generic/Register.cpp:121-122 | `x & y` is at most either operand |
| GenericRegister.Or | software_original/generic/Register.cpp:122 | the bitwise or of x and y is at least either operand and at most their sum |
| GenericRegister.Xor | software_original/generic/Register.cpp:121 | `x ^ y` is at most the sum of the operands |
| GenericRegister.OrPlusAnd | software_original/generic/Register.cpp:121-122 | the bitwise or plus `x & y` is `x + y` |
| GenericRegister.XorPlusCarries | software_original/generic/Register.cpp:121 | `x ^ y` plus twice `x & y` is `x + y`: the sum without its carries |
| GenericRegister.Shl | software_original/generic/Register.cpp:121-122 | the 32-bit `x << n` is `x * 2^n` modulo `2^32` |
| GenericRegister.Shr | software_original/generic/Register.cpp:133 | `x >> n` is x divided by `2^n`, rounded down |
| GenericRegister.BitAnd | software_original/generic/Register.cpp:121-122 | bit i of `x & y` is bit i of x and of y |
| GenericRegister.BitOr | software_original/generic/Register.cpp:122 | bit i of the bitwise or of x and y is set when either bit i is set |
| GenericRegister.BitXor | software_original/generic/Register.cpp:121 | bit i of `x ^ y` is set when exactly one of the two bits is set |
| GenericRegister.BitComplement | software_original/generic/Register.cpp:121 | `0xFFFFFFFF ^ f` has exactly the bits 0 to 31 that f lacks |
| GenericRegister.BitShl | software_original/generic/Register.cpp:121-122 | bit i of the 32-bit `x << n` is bit i-n of x for n <= i < 32, else clear |
| GenericRegister.BitShr | software_original/generic/Register.cpp:133 | bit i of `x >> n` is bit i+n of x |
| GenericRegister.FieldFitsIffShiftsBack | software_original/generic/Register.cpp:116-134 | every set bit of `mask` lies below `32 - bit` exactly when `(mask << bit) >> bit == mask` |
| GenericRegister.Merge | software_original/generic/Register.cpp:119-122 | in the written word, bits inside `mask << bit` come from `value`, and all other bits are kept |
| GenericRegister.Extract | software_original/generic/Register.cpp:133 | bit i of `(word >> bit) & mask` is set exactly when bit i of mask and bit i+bit of word are set |
| GenericRegister.MergeReadsBack | software_original/generic/Register.cpp:116-134 | for a field that fits, reading it back after writing `value` gives `value & mask` |
| GenericRegister.ReadBackIffFits | software_original/generic/Register.cpp:116-134 | that read-back holds for every word and value exactly when the field fits in 32 bits |
| GenericRegister.MergeIdempotent | software_original/generic/Register.cpp:116-127 | writing the same field value twice gives the word of one write |
| GenericRegister.MergeOfExtracted | software_original/generic/Register.cpp:116-134 | writing a field's own current value leaves the word unchanged |
| GenericRegister.MergeCommutes | software_original/generic/Register.cpp:116-122 | writes to disjoint fields commute |
| GenericRegister.Register.Copy | software_original/generic/Register.cpp:27-36 | the copy has equal address, name, stale flag, status and words, in a fresh buffer |
| GenericRegister.Register.constructor | software_original/generic/Register.cpp:39-48 | one zero word, the given name and address, not stale, status 0 |
| GenericRegister.Register.Sized | software_original/generic/Register.cpp:51-60 | `size` zero words, the given name and address, not stale, status 0 |
| GenericRegister.Register.SetAddress | software_original/generic/Register.cpp:73 | only the address changes |
| GenericRegister.Register.Size | software_original/generic/Register.cpp:76-78 | the size is the number of words |
| GenericRegister.Register.SetStatus | software_original/generic/Register.cpp:86-88 | only the status changes |
| GenericRegister.Register.ClrStale | software_original/generic/Register.cpp:96 | the stale flag is cleared, nothing else changes |
| GenericRegister.Register.SetStale | software_original/generic/Register.cpp:99 | the stale flag is set, nothing else changes |
| GenericRegister.Register.SetIndex | software_original/generic/Register.cpp:116-129 | an index past the end changes nothing; otherwise word `index` becomes the merged word, every other word is kept, and `stale` is raised exactly when the word changed |
| GenericRegister.Register.GetIndex | software_original/generic/Register.cpp:131-134 | `0xFFFFFFFF` past the end; otherwise bit i of the result is bit i of mask and bit i+bit of the word |
| GenericRegister.Register.GetAfterSet | software_original/generic/Register.cpp:116-134 | after a write of a fitting field, `getIndex` returns `value & mask` |
| GenericRegister.Register.Set | software_original/generic/Register.cpp:107-109 | `setIndex` at index 0 |
| GenericRegister.Register.Get | software_original/generic/Register.cpp:112-114 | `getIndex` at index 0 |
| PulserScan.SetupActions | software/util/cpix/cpixPulserScan.cpp:115-144 | the setup is exactly six writes: auto run off, prepare multi-config, matrix data 0x1D, prepare for read, the start pulser's Config3 word, auto run on |
| PulserScan.Config3Word | software/util/cpix/cpixPulserScan.cpp:140-141 | bits 0 to 9 of the Config3 word come from the pulser, bits 10 to 31 from the value read back |
| PulserScan.Config3IsPulserField | software/util/cpix/cpixPulserScan.cpp:140-141 | the Config3 word is the register field write (bit 0, mask 0x3FF) of the pulser into the value read back |
| PulserScan.Config3ReadsBack | software/util/cpix/cpixPulserScan.cpp:140-141 | reading field 0x3FF back from the written word gives `pulser & 0x3FF` |
| PulserScan.CounterNibble | software/util/cpix/cpixPulserScan.cpp:209 | a frame is counter A (`IsCntA` of `CounterWord`, the header word `data[HEADER_SIZE]`) exactly when bits 4 to 7 of that word are not all zero |
| PulserScan.CountFrame | software/util/cpix/cpixPulserScan.cpp:212-226 | a counter saves exactly when its event count has reached `EVENTS_PER_FRAME - 1` with at most `FRAMES_PER_FILE - 1` frames saved, then restarts its events and counts one more file; otherwise its file count stays, and its event count moves up by one while below the threshold and stays as it is once at the threshold with the file full |
| PulserScan.Accept | software/util/cpix/cpixPulserScan.cpp:209-278 | an in-sequence frame leaves `first` and `seqNum` alone; the actions start with a save exactly when the frame's counter reached its threshold, and no other action is a save |
| PulserScan.Run | software/util/cpix/cpixPulserScan.cpp:168-296 | a run over no frames, or after the scan has finished, does nothing; the pulser never moves down |
| PulserScan.NextSeq | software/util/cpix/cpixPulserScan.cpp:185 | `seqNum + 1` on a 32-bit unsigned word: one more, and 0 after `0xFFFFFFFF` |
| PulserScan.Count | software/util/cpix/cpixPulserScan.cpp:208-246 | a counter-A frame touches only counter A and a counter-B frame only counter B, and that counter's new event and frame counts are those CountFrame gives; it saves at most that frame, under the current pulser, and saves exactly when its event count has reached `EVENTS_PER_FRAME - 1` with at most `FRAMES_PER_FILE - 1` frames saved |
| PulserScan.Advance | software/util/cpix/cpixPulserScan.cpp:250-278 | nothing happens until both counters have saved; then auto run goes off and all four counters return to 0, and either the pulser steps by `PULSER_STEP` with its Config3 write and auto run back on, or `finished` is set with the pulser kept |
| PulserScan.Transition | software/util/cpix/cpixPulserScan.cpp:174-194 | a short frame changes nothing; a full frame takes over its sequence number; actions are issued only for an in-sequence frame after the first phase; `first` is left set only by the first phase or a gap; the pulser stays or steps by `PULSER_STEP` |
| PulserScan.InitialInv | software/util/cpix/cpixPulserScan.cpp:160-166 | the zeroed counters and the start pulser satisfy the loop invariant |
| PulserScan.ShortFrameIgnored | software/util/cpix/cpixPulserScan.cpp:174-286 | a frame below 1168 words changes no variable and issues nothing |
| PulserScan.FirstPhase | software/util/cpix/cpixPulserScan.cpp:179-184 | while `first` is set a frame only records its sequence number, and `first` stays set for a counter-A frame |
| PulserScan.FirstClearedOnlyByCntB | software/util/cpix/cpixPulserScan.cpp:179-184 | `first` is cleared only by a full-size counter-B frame |
| PulserScan.SequenceGapDropped | software/util/cpix/cpixPulserScan.cpp:185-191 | a frame not numbered `seqNum + 1` (32-bit) is dropped, takes over the number, and sets `first` again if it is counter A |
| PulserScan.TransitionKeepsInv | software/util/cpix/cpixPulserScan.cpp:168-278 | counters stay within their bounds, never both full between frames, and the pulser stays in [0, 1023] |
| PulserScan.SaveOnlyWhenCounted | software/util/cpix/cpixPulserScan.cpp:209-245 | a save comes only from an in-sequence frame whose counter reached `EVENTS_PER_FRAME - 1` with fewer than `FRAMES_PER_FILE` saved, and saves that frame under the current pulser |
| PulserScan.ResetWhenBothSaved | software/util/cpix/cpixPulserScan.cpp:250-276 | once both counters have saved, all four counters return to 0, then either the pulser steps with a Config3 write between auto run off and on, or the scan finishes |
| PulserScan.PulserSteps | software/util/cpix/cpixPulserScan.cpp:261-274 | the pulser stays put or moves up by `PULSER_STEP` without finishing, and stays in [0, 1023] |
| PulserScan.RunFirst | software/util/cpix/cpixPulserScan.cpp:168-170 | the loop takes the first frame of the stream, then runs on the rest |
| PulserScan.RunKeepsInv | software/util/cpix/cpixPulserScan.cpp:168-296 | over any stream the invariant holds, the pulser never decreases, and every saved frame carries a pulser between the first and the last |
| PulserScan.Scan.constructor | software/util/cpix/cpixPulserScan.cpp:115-166 | the setup writes, the counters at 0, `first` set |
| PulserScan.Scan.Step | software/util/cpix/cpixPulserScan.cpp:170-194 | one frame moves the loop variables and the action list exactly as `Transition`, keeping the invariant |
| PulserScan.Scan.AcceptFrame | software/util/cpix/cpixPulserScan.cpp:208-278 | an in-sequence frame is counted, then the end-of-step check runs |
| PulserScan.Scan.CountInSequence | software/util/cpix/cpixPulserScan.cpp:208-246 | the counter-A or counter-B bookkeeping, with the save |
| PulserScan.Scan.AdvancePulser | software/util/cpix/cpixPulserScan.cpp:250-278 | the reset, the pulser step and the finish, with their writes |
| PulserScan.Scan.RunFrames | software/util/cpix/cpixPulserScan.cpp:168-296 | the loop over a stream leaves the variables and actions of `Run`, stopping at the break |
| PulserScan.Scan.TakeFrame | software/util/cpix/cpixPulserScan.cpp:168-194 | one turn of the loop: what remains to run is the run of the rest of the stream |
| EpixFpga.ColumnInBank | software/Epix/python/ePixFpga/_ePixFpga.py:1372-1380 | for y < 384 the bank `int(y/96)` is 0 to 3 and the address is `[0x700, 0x680, 0x580, 0x380][bank] + y % 96` |
| EpixFpga.ColumnIndex | software/Epix/python/ePixFpga/_ePixFpga.py:1372-1380 | the column an address stands for is a matrix column |
| EpixFpga.Column | software/Epix/python/ePixFpga/_ePixFpga.py:1372-1380 | a column has an address exactly when y < 384, and the address reads back as y |
| EpixFpga.ColumnIndexRoundTrip | software/Epix/python/ePixFpga/_ePixFpga.py:1372-1380 | every address that names a column is that column's address |
| EpixFpga.ColumnInjective | software/Epix/python/ePixFpga/_ePixFpga.py:1374-1380 | no two columns share an address |
| EpixFpga.Trunc | software/Epix/python/ePixFpga/_ePixFpga.py:1385 | `int()` of a float rounds toward zero |
| EpixFpga.PixelWrites | software/Epix/python/ePixFpga/_ePixFpga.py:1383-1385 | one pixel gives three writes: its row to `0x6011`, a column address to `0x6013` that reads back as y, and `int(m[x][y])` to `0x5000` |
| EpixFpga.RowWritesLength | software/Epix/python/ePixFpga/_ePixFpga.py:1371-1385 | `RowWrites`, the inner loop over y pixels of a row, gives 3y writes |
| EpixFpga.MatrixWritesLength | software/Epix/python/ePixFpga/_ePixFpga.py:1370-1385 | `MatrixWrites`, the outer loop over x rows, gives 3 * 384 x writes |
| EpixFpga.RowWritesAt | software/Epix/python/ePixFpga/_ePixFpga.py:1371-1385 | in `RowWrites`, pixel y's writes sit at 3y, 3y+1 and 3y+2 of its row |
| EpixFpga.MatrixWritesAt | software/Epix/python/ePixFpga/_ePixFpga.py:1370-1385 | in `MatrixWrites`, pixel (x, y)'s writes sit at `3(384x + y)` on, in row-major order |
| EpixFpga.SerDelayTrace | software/Epix/python/ePixFpga/_ePixFpga.py:1357-1392 | R0 mode is set first; nothing else without an enabled ASIC, a .csv name and a 354 x 384 matrix; otherwise the writes at 0 and `0x8000` open the matrix and the write at 0 closes it |
| EpixFpga.SerDelayTraceShape | software/Epix/python/ePixFpga/_ePixFpga.py:1357-1392 | R0 mode is always set first. Without an enabled ASIC, a .csv name and a 354 x 384 matrix, nothing else is written. Otherwise the two opening writes, then `3 * 354 * 384` pixel writes with pixel (x, y) as row x, its column address and `int(m[x][y])`, then the closing write at 0, last |
| EpixFpga.EvaluateSerDelay | software/Epix/python/ePixFpga/_ePixFpga.py:1353-1392 | the nested loops issue exactly the trace `SerDelayTrace`; the copy at lines 1484-1523 is the same code |
| EpixFpga.RampTrace | software/Epix/python/ePixFpga/_ePixFpga.py:368-385 | the four opening writes, two accesses per iteration, and the data writer closed last |
| EpixFpga.DacStep | software/Epix/python/ePixFpga/_ePixFpga.py:361-367 | the step of either DAC kind is positive, and the ramp's last value, 65535 steps up, stays below 2^16 for the 16-bit DAC and below 2^20 for the 20-bit one |
| EpixFpga.RampStepsLength | software/Epix/python/ePixFpga/_ePixFpga.py:377-383 | `RampSteps`, n iterations of the ramp loop, issues 2n accesses |
| EpixFpga.RampStepsAt | software/Epix/python/ePixFpga/_ePixFpga.py:377-383 | in `RampSteps`, iteration i sets DacValue to `value + i * step`, then triggers |
| EpixFpga.TriggersAppend | software/Epix/python/ePixFpga/_ePixFpga.py:377-383 | triggers of a concatenated trace add up |
| EpixFpga.RampTriggers | software/Epix/python/ePixFpga/_ePixFpga.py:377-383 | exactly one trigger per iteration |
| EpixFpga.RampTraceAt | software/Epix/python/ePixFpga/_ePixFpga.py:368-385 | after the four opening writes, iteration i sets DacValue to `i * step`, then triggers |
| EpixFpga.RampTraceTriggers | software/Epix/python/ePixFpga/_ePixFpga.py:368-385 | the whole ramp issues `range` triggers |
| EpixFpga.RampShape | software/Epix/python/ePixFpga/_ePixFpga.py:368-385 | the ramp's length, its DacValue and trigger positions, and its trigger count |
| EpixFpga.RampCovers16Bits | software/Epix/python/ePixFpga/_ePixFpga.py:361-383 | with the 16-bit DAC the ramp sets DacValue to 0, 1, ..., 65535, every value within the 16-bit field |
| EpixFpga.RampTestHSDac | software/Epix/python/ePixFpga/_ePixFpga.py:357-385 | the loop issues exactly the trace `RampTrace` with step 1 and 65536 iterations |

## Left out

- `noise()` and `voltage()`: floating-point statistics, `numpy.save` file output and printing.
- Printing everywhere: the frame counters printed by `_acceptFrame`, the UTF-8 text of a text frame, the scan's messages, and the warnings of `fnEvaluateSerDelay`.
- The stream interface: `frame.read` and the rogue slave class. A frame is the triple of error bit, flag word and payload.
- `fnEvaluateSerDelay`'s file name is not modelled. It comes from the command argument or a Qt file dialog. Its `.csv` extension test is the boolean `isCsv`.
- `np.genfromtxt`: the matrix is the sequence of reals it returns.
- EpixFpga.Trunc: a NaN cell (`ValueError`) or an infinite cell (`OverflowError`) makes `int()` raise at `_ePixFpga.py:1385`; the reals of the model have neither, so these errors are not modelled.
- `reportCmd` in `fnEvaluateSerDelay` is a call into code that is not part of this model.
- The `else` branch of the bank chain (`'unexpected bank number'`) is unreachable for y < 384 (`ColumnInBank`). The method keeps it as a branch proved dead (`assert false`), so its print is not modelled.
- `fnRampTestHSDac`: `time.sleep`, the `arg` print and the ramp of the 20-bit DAC branch. `DAC_TYPE` is fixed to the 16-bit DAC in the code, so the 20-bit branch is never taken; only its step is modelled, in DacStep.
- `cpixPulserScan.cpp`:
  - PGP and shared-memory setup, `nanosleep`, signal handling and `exit`;
  - the file names with the date string;
  - the wrong-size-packet prints of frames below 1168 words.
  - The `MATRIX_TEST_ROW` and `MATRIX_TEST_COL` writes are switched off by their constants being 0, and are not modelled.
- PulserScan.Scan.constructor: `seqNum` is uninitialised in the C code. The model starts it at 0, which is never compared while `first` is set.
- GenericRegister.Register: the destructor and `data()`, the raw pointer to the word buffer, are not modelled. `name()`, `address()`, `status()` and `stale()` are plain field reads of the class.
- GenericRegister.Register.SetIndex: requires `bit < 32` for an index in range. A C shift by 32 or more is undefined behaviour, so no result can be stated for it.
- GenericRegister.Register.GetIndex: requires `bit < 32` for an index in range, because `data_[index] >> bit` with a shift of 32 or more is undefined behaviour in C.
- GenericRegister.Register.Set: requires `bit < 32` when the register has a word, as `setIndex` at index 0 does.
- GenericRegister.Register.Get: requires `bit < 32` when the register has a word, as `getIndex` at index 0 does.
- GenericRegister.Register.SetIndex: the read-back through `getIndex` is stated in the separate lemma `GenericRegister.Register.GetAfterSet`, not in the method's own postcondition.
- Coulter.FrameParser.AcceptFrame: when numpy raises `IndexError`, the exception leaves `_acceptFrame`. The model returns the outcome `RecordIndexError` with the offending offset.
- Coulter.FrameParser.AcceptFrame: a text frame whose payload is not valid UTF-8 makes `decode('utf-8')` raise `UnicodeDecodeError` at `_coulter.py:370`; the model returns `TextFrame` for every text frame.
- Coulter.Conv: `lowBit` is a `nat` and the model requires `lowBit <= highBit + 1`. In Python a negative `lowBit` makes `i >> lowBit` raise `ValueError`, and `highBit < lowBit - 1` makes `2**(highBit-lowBit+1)` a float, so the `&` raises `TypeError` (`_coulter.py:352-355`); these calls are not modelled.
- Coulter.SignExtend: requires `bits >= 1`. With `bits == 0` Python evaluates `1 << -1` and raises `ValueError` (`_coulter.py:403-405`); that call is not modelled.
- Coulter.StoreRecord: its own contract states only the frame size. What it writes and keeps is stated by `StoreRecordWrites`, `StoreRecordKeeps` and `StoreRecordFrame`.
- Coulter.FrameParser.ChannelSeries is the accessor over `d`; its properties are stated on `Coulter.ChannelSeriesOf`.
- `periodConverter` and `frequencyConverter`: float formatting around `_count`.

## Findings

| source | as written | input that shows it | evidently intended | confidence | as-written member | corrected member |
|---|---|---|---|---|---|---|
| software/Coulter/python/coulter/_coulter.py:437-439 | `frame[:][adc][mck]` indexes the slot axis with adc and the channel axis with mck. Each entry is a whole 16-sample row, the same for every slot of the comprehension, and mck 12 to 15 raise `IndexError`. | one stored frame whose only non-zero cell is [1][0][0] = 7: entry 1 of pixel (0, 0) is the all-zero row [0][0], not 7 | the sample `frame[slot][adc][mck]` for every slot and frame | high, not executed | Coulter.PixelDataIgnoresSlot | Coulter.FrameParser.PixelSeries |
| software/Coulter/python/coulter/_coulter.py:441-442 | `frame[:][adcCh][:]` is the whole [12][16] slab of slot adcCh, repeated for every slot and every mck | the same frame: entry 16 of channel 0 is the all-zero slab of slot 0, not 7 | the sample `frame[slot][adcCh][mck]` for every slot, frame and mck | high, not executed | Coulter.AdcDataIgnoresSlot | Coulter.ChannelSeriesOf |
