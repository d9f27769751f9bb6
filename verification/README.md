# UPDI programmer: model and proofs

The repository programs AVR microcontrollers over UPDI. This project models, in Dafny, three parts of it
and what connects them.

1. **The host stack and the emulated target.** `link.dfy`, `nvm.dfy` and `session.dfy` are the classes
   `UpdiLink`, `UpdiNvm` and `UpdiSession`; `emulator.dfy` is the byte-at-a-time target with its memories
   and its response ring. The emulator refines a pure state machine (`target.dfy`), link operations follow
   scripts of frames (`protocol.dfy`), and `lockstep.dfy` shows what each script does to that machine: one
   plain read or update of the memory map, with the decoder back in its idle state and nothing queued. From
   this follow erase + write + verify, fuses, and flash-then-dump.
2. **The host stack and an arbitrary target.** A `Transport` without an emulator gives any answers, fails any
   send and reads any clock. Every transport keeps a ghost transcript (`wire.dfy`); contracts say of
   it which frames an operation may send, which script it ran, how polling ended (`polling.dfy`), what flashing
   and reads leave in it (`flashing.dfy`), in what order an operation of the worker did things (`order.dfy`,
   `worker.dfy`), and that a successful NVM operation is a run of the Python class it was ported from
   (`reference.dfy`, `port.dfy`).
3. **Intel HEX** (Intel Hexadecimal Object File Format Specification, Revision A). The in-place parser and
   writer (`intel_hex.dfy`) against the record format (`hex_format.dfy`), with the round trip, checksum and
   parser laws (`hex_lemmas.dfy`, `hex_file.dfy`), and the streaming line reader against a batch reading of
   the whole text (`hex_reader.dfy`).

Definitions called sealed stand under a quantifier whose trigger is `Unsealed` with a seal of their own; they mean
their body, and a lemma named `...Means` or a mention of `Unsealed` opens them.

## What the proofs brought out

- The HEX writer uses 0xFFFF for "no segment yet". Data that starts at 0xFFFF0000 or above gets no type 04
  record; `HexFile.RoundTrip` states exactly when the round trip holds, and `HexFile.TopSegmentLost` where the
  data goes otherwise.
- The line reader cuts lines at 299 characters, so records of more than 144 bytes written by the same
  repository are rejected by it. `HexReader.ReaderRoundTrip` states exactly for which width, length and start.
- The reader accepts a file without an end-of-file record (`HexReader.AcceptedWithoutEof`), hence also an accepted
  file that was cut short after any line, exactly when a data record came before the cut
  (`HexReader.CutFileAccepted`). Whether end-of-file was seen is exact (`HexReader.EofSeenInText`), but not asked.
- Under a type 02 base the code does not wrap inside the 64K segment, unlike the specification's extended segment
  address record. The two agree exactly on records that do not cross the end of the segment
  (`HexLemmas.SegmentWrap`, `HexLemmas.SegmentWrapDiffers`).
- Blank pages are skipped. That is the same as writing them on erased flash, and differs exactly when a skipped
  page was not blank (`FlashPages.SkippingDiffers`).
- On P:3 the result of the closing NOCMD store is ignored, where the Python class raises; the frames are the
  same (`PortEquivalence.MatchesNocmd`).
- A block read of zero bytes, and a SIB read of fewer than eight, leave responses queued and lose the step
  with the target (`Lockstep.ReadDataInStep`, `Lockstep.PerformSib`).
- Activation does not bring back in step an idle target that still has responses queued: the oldest of them pass
  for STATUSA answers, and it is in step afterwards exactly if it was before (`UpdiLink.Activate`, with a stale ACK in
  `UpdiLink.ActivateOnStaleAck`).
- `UpdiErrLocked` can be mere silence (`UpdiNvmController.SilenceLooksLocked`), but not silence after a clear answer
  (`UpdiNvmController.NoAnswerWasClear`): since the reset, the lock bit was seen set exactly if any status was answered
  at all (`UpdiNvm.EnterProgmode`, `UpdiSession.Connect`). Likewise a missing status answer ends
  `UpdiNvm.WaitNvmReady` before its time limit.
- After a chip erase the C code waits up to 500 ms, the Python class 100 ms. A C run that succeeds is therefore a
  Python run exactly when that wait was short enough (`PortEquivalence.ChipErasePort`); all other waits have the same
  limit, and there a C run that succeeds never finds Python's timer expired.
- The bound check of the Python `repeat` is off by one, and it has no lower one: it would send a count of 257 as 1
  and a count of 0 as 256. The C code refuses both, and they agree on every other count (`Pymcuprog.SameRepeat`).
  Nor does `write_data_words` look at odd lengths; C and Python agree exactly on the even ones from 2 to 512 and on
  those above, which both refuse (`Pymcuprog.SameWriteDataWords`).
- With a 32-bit `size_t` the parser's range check can wrap: two bytes at address 0xFFFFFFFF pass it in any buffer at
  base 0. It is right exactly for the records of `HexLemmas.RangeCheckExact`.

## Model

| member | source | states |
|---|---|---|
| `UpdiWorker.Worker.OpFlash` | ui/updi_worker.c:117-156 | Against any target: the chip-erase key is sent only after connecting returned UpdiErrLocked, the NVMCTRL command store only after the whole HEX file parsed, every other store only between a chip erase that returned UpdiOk and the end of writing, when nothing is sent but the page commands and whole pages within the flash; UpdiOk implies that all bytes below the image end were read back equal after that. On the emulator: UpdiOk and exactly the padded image when memory and file allow it, otherwise UpdiErrParam and flash untouched |
| `UpdiWorker.Worker.FlashFile` | ui/updi_worker.c:122-156 | The part after connecting: order kept on every path, also the early returns without disconnect; on the emulator UpdiOk exactly when memory and file allow it, otherwise flash is untouched |
| `UpdiWorker.Worker.FlashImage` | ui/updi_worker.c:136-155 | Erase, write, read back: on the emulator UpdiOk always, flash is exactly the padded image, the identity of the device unchanged |
| `UpdiWorker.Worker.DoConnect` | ui/updi_worker.c:60-70 | Connects, and unlocks and reconnects only after UpdiErrLocked and only when erasing is allowed; otherwise read-only |
| `UpdiWorker.Worker.OpConnect` | ui/updi_worker.c:250-256 | Never sends a store or any key but NVMProg, whatever the target does; memories of the emulator unchanged |
| `UpdiWorker.Worker.OpVerify` | ui/updi_worker.c:160-186 | Read-only against any target; UpdiOk implies the whole image was read back; on the emulator UpdiOk exactly when flash begins with the image, else UpdiErrVerify with the least differing offset and both bytes |
| `UpdiWorker.Worker.OpDump` | ui/updi_worker.c:203-237 | Read-only against any target; UpdiOk implies that the file is the HEX text of bytes read back from the whole flash; on the emulator these are the flash, and UpdiOk means exactly that the file took all of it |
| `UpdiWorker.Worker.OpReadFuses` | ui/updi_worker.c:258-267 | Read-only against any target; UpdiOk implies that the fuses are the answers to their reads, one by one; on the emulator the first fuses, at most sixteen, with their values |
| `UpdiWorker.Worker.OpChipErase` | ui/updi_worker.c:239-248 | The command store only after a successful connect, the key only after UpdiErrLocked; on the emulator flash is erased and the device still identifies itself |
| `UpdiWorker.Worker.FlashThenDump` | ui/updi_worker.c:117-237 | Flashing a HEX file and dumping the flash gives a text that parses to the very image of the file |
| `UpdiWorker.Worker.LoadImage` | ui/updi_worker.c:123-134 | Image of the whole file in a buffer of the flash size, filled with 0xFF; fails exactly without memory, without a file, or when the text as a whole is rejected or empty |
| `UpdiWorker.Worker.VerifyStep` | ui/updi_worker.c:148-150 | The recorded mismatch is the first difference from what was read back |
| `TranscriptOrder.InOrderGrew` | ui/updi_worker.c:117-156 | A transcript in order stays in order under any frames the scope permits, once the scope has been granted |
| `TranscriptOrder.ConnectingInOrder` | ui/updi_worker.c:60-70 | A connect phase is in order for every operation |
| `TranscriptOrder.StoresStayInFlash` | ui/updi_worker.c:136-148 | In such an order no STS is sent but the command register's, while flashing the address register is only set to starts of pages within the flash, and the only command codes stored are chip erase before flashing, page buffer clear and page write during it, and NOCMD |
| `UpdiWorker.FlashingStoresNoFuse` | updi/updi_nvm.c:307-342 | So flashing never sends WRITE_FUSE on P:0, nor the EEPROM buffer clear and erase-write by which P:3 writes fuses |
| `UpdiWorker.FileImageOk` | ui/updi_worker.c:131-146 | The highest offset of an accepted file lies within the flash |
| `UpdiWorker.PowerUp` | host_test/updi_emu.c:301-368 | For every device of the table there is an emulated target that presents itself as it |
| `HexReader.ParseHexFile` | ui/updi_worker.c:74-115 | Status and image depend only on the text delivered, not on how it was cut into chunks: both equal the batch parse of the whole text; no file gives UpdiErrParam |
| `HexReader.ParseChunk` | ui/updi_worker.c:89-105 | The streaming state after a chunk is the state after its text, or an error that the text has |
| `HexReader.SplitTerminated` | ui/updi_worker.c:89-105 | Splitting inverts putting lines together: any lines without line feeds |
| `HexReader.SplitComplete` | ui/updi_worker.c:89-105 | Every text is put together from what it splits into, and no piece holds a line feed |
| `HexReader.FailedForGood` | ui/updi_worker.c:93-107 | After a rejected line the rest of the file changes neither status nor image |
| `HexReader.ReadWritten` | ui/updi_worker.c:89-110 | A written file whose records fit the line buffer parses as its records in order |
| `HexReader.LongFileRejected` | ui/updi_worker.c:101-103 | A written file with a longer record is always rejected |
| `HexReader.ReaderRoundTrip` | ui/updi_worker.c:74-115 | Write, then read through the line reader: the file is accepted and data, fill and exact bounds are restored if and only if there is data, it starts below 0xFFFF0000, and either the width is at most 144, or the data are, or the segment of the start ends within 144 bytes and at most 144 follow; a file of no data is UpdiErrParam although every line of it is accepted |
| `HexReader.WrittenFits` | hex/intel_hex.c:160-180 | No written record is too long for the reader if and only if that condition on width, length and start holds |
| `HexReader.EofSeenInText` | hex/intel_hex.c:94-96 | After any text, end-of-file was seen exactly when an end-of-file record is among the lines parsed |
| `HexReader.AcceptedWithoutEof` | ui/updi_worker.c:112-114 | A file of one data record in range is accepted although no end-of-file record was seen |
| `HexReader.AcceptedWithoutEofExample` | ui/updi_worker.c:112-114 | Such a file |
| `HexReader.CutFileAccepted` | ui/updi_worker.c:86-114 | A file whose lines are all accepted, cut after any line, is accepted if and only if a data record came before the cut |
| `HexReader.DumpReadsBack` | ui/updi_worker.c:230 | A dump of any flash, 32 bytes a line from address 0, is accepted and reproduces it |
| `HexFile.RoundTrip` | hex/intel_hex.c:153-185 | Parsing the lines of a written file, checksums included, whatever line end follows, into a fresh, large enough image restores the data at start minus base, fill elsewhere, exact bounds and end-of-file, if and only if there is no data or start is below 0xFFFF0000; any line width from 1 to 255, any 64K crossing |
| `HexFile.RecordsRoundTrip` | hex/intel_hex.c:153-185 | The same on the records before they become text |
| `HexFile.TopSegmentLost` | hex/intel_hex.c:162-171 | In the topmost segment the sentinel suppresses the type 04 record: all the data lands at the bottom of the address space if there is room for it there, and otherwise the file is rejected with an overflow |
| `HexFile.WrittenRestores` | hex/intel_hex.c:164-180 | From any point of the writer's loop, the rest of the records restores the rest of the data |
| `HexFile.ParseRecordLines` | hex/intel_hex.c:48-112 | Parsing the lines of records is applying the records |
| `HexFile.ParseAllIsPrefix` | ui/updi_worker.c:93-107 | Stopping at the first rejected line leaves the image the lines before it made |
| `HexLemmas.DecodeRecordText` | hex/intel_hex.c:128-151 | A written record, with anything after it on the line, decodes to itself |
| `HexLemmas.ChecksumStrength` | hex/intel_hex.c:55-75 | In an intact record, any digit outside the byte count replaced by one of another value gives IntelHexErrChecksum and leaves the image unchanged |
| `HexLemmas.EofSeenExactly` | hex/intel_hex.c:94-96 | After any lines, end-of-file was seen if and only if one of them is an end-of-file record |
| `HexLemmas.SegmentWrap` | hex/intel_hex.c:77-106 | Under a type 02 base all bytes of an accepted record go where the specification puts them (base * 16 plus the offset within the 64K segment) if and only if the record does not cross the end of its segment |
| `HexLemmas.SegmentWrapDiffers` | hex/intel_hex.c:77-106 | A record that does: its second byte belongs at address 0 and is stored at 0x10000 |
| `HexLemmas.ParserInvariant` | hex/intel_hex.c:48-112 | After any sequence of lines each byte is that of the last accepted data record covering it, or fill; bounds lie in the buffer and outside them all is fill |
| `HexLemmas.LineKeepsImageOk` | hex/intel_hex.c:77-111 | Each line keeps that invariant, and a rejected line leaves the whole image state as it was |
| `HexLemmas.HexTextBack` | hex/intel_hex.c:116-126 | Digits read back as the bytes they were written from, anywhere in a line |
| `HexLemmas.OneDigitChangesSum` | hex/intel_hex.c:66-75 | One digit changed changes the byte sum, by less than 256 |
| `IntelHex.IntelHexImage.constructor` | hex/intel_hex.c:31-46 | A fresh image: fill everywhere, no bounds, no base |
| `IntelHex.IntelHexImage.ParseLine` | hex/intel_hex.c:48-112 | Status and image after one line are those of the record the line decodes to |
| `IntelHex.IntelHexImage.AcceptData` | hex/intel_hex.c:77-94 | A data record inside the buffer overlays its bytes and widens the bounds; otherwise nothing changes (sizes unbounded; see the next two rows for 32-bit ones) |
| `HexLemmas.RangeCheckExact` | hex/intel_hex.c:79-82 | The range check with a 32-bit size_t decides as intended exactly when offset plus count stays below 2^32 or still exceeds the capacity after wrapping; always so from a base offset of 255 on |
| `HexLemmas.RangeCheckWraps` | hex/intel_hex.c:79-82 | It accepts two bytes at 0xFFFFFFFF into any buffer at base 0, where they are out of range |
| `IntelHex.ReadBody` | hex/intel_hex.c:61-75 | The loop over the data digits and the checksum decodes the body |
| `IntelHex.FormatRecord` | hex/intel_hex.c:128-147 | The digits put into the buffer one by one are the text of the record |
| `IntelHex.Write` | hex/intel_hex.c:153-185 | Ok exactly when the sink took everything, and then the sink holds the text of the records; otherwise a prefix of it |
| `IntelHex.HexSink.Append` | ui/updi_worker.c:195-201 | After a short write nothing more is stored |
| `UpdiProgramming.UpdiSession.Connect` | updi/updi_session.c:18-45 | Read-only against any target; UpdiOk implies that SIB and signature row were read and say what the session holds, that a NVMPROG status was seen and the signature names the device; UpdiErrLocked, that reset was toggled and everything after it is a poll of the lock status, to its time limit on the clock of this run or to its cap, without a clear answer; UpdiErrUnsupported that no row has the signature; on an emulator presenting a device it connects to that device and changes no memory |
| `UpdiProgramming.UpdiSession.Disconnect` | updi/updi_session.c:51-54 | Leaves programming mode and is disconnected, whatever the target answers |
| `UpdiProgramming.UpdiSession.Unlock` | updi/updi_session.c:47-49 | The one operation that may send the erase key; UpdiOk implies that a clear lock bit was seen last |
| `UpdiProgramming.UpdiSession.ChipErase` | updi/updi_session.c:66-69 | Stores nothing but the chip erase command and NOCMD, to the command register; on the emulator flash reads 0xFF everywhere and nothing else changes |
| `UpdiProgramming.UpdiSession.IsBlank` | updi/updi_session.c:71-75 | True exactly for bytes that are all 0xFF |
| `UpdiProgramming.UpdiSession.WriteFlash` | updi/updi_session.c:77-100 | UpdiOk implies that each page of the image that is not blank was written as the Python class of the device writes it, in order; on any target nothing is sent but commands and whole pages, within the flash when the image fits it; on the emulator, flash becomes page-wise flashing of the image with blank pages skipped |
| `UpdiProgramming.UpdiSession.VerifyFlash` | updi/updi_session.c:102-130 | UpdiOk implies the bytes read back equal the image, UpdiErrVerify reports the first difference; on the emulator it is one or the other, by the flash |
| `UpdiProgramming.UpdiSession.ReadFlash` | updi/updi_session.c:132-148 | UpdiOk implies the buffer begins with what a read of that length brought, the rest of it unchanged; on the emulator, the flash |
| `UpdiProgramming.UpdiSession.ReadFuses` | updi/updi_session.c:150-158 | Read-only; UpdiOk implies that the fuses are the answers to their reads; on the emulator their values, at most as many as there are |
| `UpdiProgramming.UpdiSession.WriteFuse` | updi/updi_session.c:160-163 | UpdiErrParam with nothing sent when not connected or the index is beyond the fuses; otherwise sends nothing but reads and stores to the fuse and the registers it is written through; a successful run is the Python write_fuse; on the emulator one fuse changes, flash does not |
| `UpdiProgramming.UpdiSession.FuseRoundTrip` | updi/updi_nvm.c:302-342 | Writing a fuse and reading it returns the value; every other fuse and all flash as before; both variants |
| `UpdiProgramming.ConfiguredPresents` | host_test/updi_emu.c:318-368 | Both emulator configurations present the devices of their variant |
| `FlashTranscripts.ReadScriptSplit` | updi/updi_nvm.c:260-270 | Reading in 256-byte steps sends what one long read sends |
| `FlashTranscripts.HasReadMore` | updi/updi_session.c:111-127 | Consecutive chunk reads make one read of the whole |
| `FlashPages.WritePagesAt` | updi/updi_session.c:85-98 | What page-wise flashing leaves at every address, on any flash |
| `FlashPages.WritePagesErased` | updi/updi_session.c:85-98 | On erased flash: exactly the image, and 0xFF everywhere else |
| `FlashPages.SkippingRefines` | updi/updi_session.c:93-96 | On erased flash, skipping blank pages leaves what writing every page leaves |
| `FlashPages.SkippingDiffers` | updi/updi_session.c:93-96 | On any flash the two agree if and only if every skipped page was already blank |
| `FlashPages.PageEndsInside` | updi/updi_session.c:85-92 | The padded last page never reaches past the flash |
| `UpdiNvmController.UpdiNvm.InProgmode` | updi/updi_nvm.c:98-102 | True exactly when the transcript ends with a status that has NVMPROG set |
| `UpdiNvmController.UpdiNvm.WaitUnlocked` | updi/updi_nvm.c:110-121 | For any answers and any wrapping clock: ends within 200000 reads; true exactly when the last answer had the lock bit clear, false only after the limit or the cap |
| `UpdiNvmController.UpdiNvm.EnterProgmode` | updi/updi_nvm.c:125-147 | UpdiOk implies the target itself reported programming mode; UpdiErrLocked, that reset was toggled and everything after it is a poll of the lock status, to its time limit on the clock of this run or to its cap, without a clear answer, the bit having been seen set exactly if anything was answered; UpdiErrProtocol, that the key status refused the key, or that after a clear lock bit the last status read did not show NVMPROG |
| `UpdiNvmController.NoAnswerWasClear` | updi/updi_nvm.c:110-123 | In a run that ended UpdiErrLocked no status answered since the reset had a clear lock bit, whatever was sent and answered meanwhile |
| `UpdiNvmController.SilenceLooksLocked` | updi/updi_nvm.c:110-123 | A run that ends UpdiErrLocked with nothing answered at all |
| `UpdiNvmController.UpdiNvm.LeaveProgmode` | updi/updi_nvm.c:149-157 | Exactly three control stores whatever fails: reset applied, reset released, UPDI disabled |
| `UpdiNvmController.UpdiNvm.Unlock` | updi/updi_nvm.c:159-174 | UpdiOk implies that the target answered that it took the erase key and that a clear lock bit was seen last; UpdiErrProtocol, that it answered that it did not take the key |
| `UpdiNvmController.UpdiNvm.ReadSibInfo` | updi/updi_nvm.c:178-196 | UpdiOk implies that family and NVM version are those of the SIB bytes received; on the emulator those of its SIB, in step |
| `UpdiNvmController.UpdiNvm.ReadSignature` | updi/updi_nvm.c:198-201 | The three bytes are the answers to a read of the signature row |
| `UpdiNvmController.UpdiNvm.WaitNvmReady` | updi/updi_nvm.c:214-228 | For any answers and any wrapping clock: ends within 200000 reads; Ok exactly when the last status shows neither error nor busy, and then no clock reading was later than the limit; ErrNvm exactly when it shows an error; a missing answer ends it at once, before limit and cap, a busy one only after the limit or at the cap |
| `UpdiNvmController.UpdiNvm.ChipErase` | updi/updi_nvm.c:232-241 | A successful run is the Python chip_erase of the variant, fed the same answers and clock readings, exactly when its second wait, which may last 500 ms, kept to Python's 100 ms; otherwise Python gives up before its end; on the emulator erased flash |
| `UpdiNvmController.UpdiNvm.EraseFlashPage` | updi/updi_nvm.c:243-256 | A successful run is the Python erase_flash_page of the variant; nothing is sent but commands and the selecting store; on the emulator only the selecting dummy byte changes |
| `UpdiNvmController.UpdiNvm.Read` | updi/updi_nvm.c:260-270 | A read of any length follows its script; on the emulator the bytes of the memory map |
| `UpdiNvmController.UpdiNvm.WriteFlashPage` | updi/updi_nvm.c:274-298 | A successful run is the Python write_flash of the variant; on the emulator the page patched into flash |
| `UpdiNvmController.UpdiNvm.ReadFuse` | updi/updi_nvm.c:302-305 | Out of range is refused unsent; otherwise the value is the answer to one read of the fuse |
| `UpdiNvmController.UpdiNvm.WriteFuse` | updi/updi_nvm.c:307-342 | A successful run is the Python write_fuse of the variant; nothing is sent but reads and stores to the registers of that path; on the emulator one I/O byte stored, by either path |
| `UpdiNvmController.RegisterFuseStored` | host_test/updi_emu.c:48-69 | WRITE_FUSE copies the DATA register to the address in the ADDR registers |
| `UpdiNvmController.PageStored` | host_test/updi_emu.c:48-69 | Words stored at a flash address patch flash and nothing else |
| `PortEquivalence.ChipErasePort` | reference/pymcuprog/serialupdi/nvmp3.py:50-74 | A successful chip erase is a run of either Python class if and only if no clock reading of its second wait is later than 100 ms; otherwise Python raises, on P:3 after NOCMD, where the C code reads the status on |
| `PortEquivalence.EraseFlashPagePort` | reference/pymcuprog/serialupdi/nvmp3.py:75-102 | A successful page erase is a run of either Python class on the same answers and clock readings, timers included |
| `PortEquivalence.WriteFlashPort` | reference/pymcuprog/serialupdi/nvmp3.py:188-241 | Likewise for a page write |
| `PortEquivalence.WriteFuseP3Port` | reference/pymcuprog/serialupdi/nvmp3.py:177-187 | Likewise for a fuse through the EEPROM path |
| `PortEquivalence.WriteFuseP0Port` | reference/pymcuprog/serialupdi/nvmp0.py:166-195 | Likewise for a fuse through ADDR and DATA |
| `PortEquivalence.MatchesNocmd` | updi/updi_nvm.c:239 | The ignored closing NOCMD: the Python run finishes exactly when that store was acknowledged, and otherwise raises having sent the same frames |
| `PortEquivalence.StoreEndsWithAck` | updi/updi_link.c:132-149 | A byte store succeeds exactly when its transcript ends with an ACK |
| `PortEquivalence.PlaysWait` | reference/pymcuprog/serialupdi/nvmp0.py:241-265 | A status poll that ended ready is the Python polling loop on the same answers and clock, when no clock reading is later than 100 ms |
| `PortEquivalence.LastWaitLate` | reference/pymcuprog/serialupdi/nvmp3.py:65-73 | When one is later, the Python method that ends with this wait gives up before the transcript ends |
| `Pymcuprog.SameFrames` | reference/pymcuprog/serialupdi/link.py:256-423 | ld, st and st_ptr with 16- and 24-bit addresses are the same bytes (ld16 has no counterpart in C) |
| `Pymcuprog.SameWord` | reference/pymcuprog/serialupdi/link.py:307-321 | st16 sends the same bytes |
| `Pymcuprog.SameRepeat` | reference/pymcuprog/serialupdi/link.py:192-206 | repeat and its C counterpart do the same if and only if the count is in 1 to 256 or both refuse it, that is unless it is 0 or 257 |
| `Pymcuprog.RepeatOffByOne` | reference/pymcuprog/serialupdi/link.py:192-206 | At 257 and at 0, which C refuses, Python sends the bytes for 1 and for 256 |
| `Pymcuprog.SameWriteData` | reference/pymcuprog/serialupdi/readwrite.py:158-193 | For every address and data write_data does in C what it does in Python if and only if there is data: of none, Python sends nothing and C refuses it |
| `Pymcuprog.SameWriteDataWords` | reference/pymcuprog/serialupdi/readwrite.py:132-157 | For every address and length write_data_words does in C what it does in Python if and only if the length is even and from 2 to 512, or above 512, where both refuse; 0 and the odd lengths below, C refuses and Python sends |
| `Pymcuprog.WaitRest` | reference/pymcuprog/serialupdi/nvmp3.py:242-266 | The Python wait consumes answers, and a clock reading before each, up to the first ready one, when no reading is late |
| `Pymcuprog.WaitLate` | reference/pymcuprog/serialupdi/nvmp3.py:252-265 | When one is late, it times out before a status read that the transcript still shows |
| `Polling.PollOnce` | updi/updi_nvm.c:110-121 | One more status read of a poll: what was asked and answered so far |
| `Polling.PollTick` | updi/updi_nvm.c:117 | Elapsed time is the wrapped difference of clock readings |
| `UpdiDataLink.UpdiLink.BuildFrame` | updi/updi_link.c:27-32 | Opcode and little-endian address, two or three bytes |
| `UpdiDataLink.UpdiLink.Ldcs` | updi/updi_link.c:47-54 | One exchange with the control space |
| `UpdiDataLink.UpdiLink.Stcs` | updi/updi_link.c:56-59 | One unanswered store to the control space |
| `UpdiDataLink.UpdiLink.CheckDatalink` | updi/updi_link.c:93-97 | True exactly when STATUSA was answered by something other than zero |
| `UpdiDataLink.UpdiLink.Activate` | updi/updi_link.c:99-113 | Ok exactly when the last STATUSA read was answered by something other than zero. From an idle emulated target with any queue: idle again, with as many responses queued (one less if the queue was full), and in step if and only if it was in step before; the two oldest responses decide the result |
| `UpdiDataLink.UpdiLink.ActivateOnStaleAck` | updi/updi_link.c:99-113 | A concrete case: with the ACK of an address frame left queued, activation returns Ok and leaves the target out of step |
| `UpdiDataLink.UpdiLink.StartSession` | updi/updi_link.c:104-105 | One attempt: it takes the oldest response for the STATUSA answer |
| `UpdiDataLink.UpdiLink.LdByte` | updi/updi_link.c:117-129 | The byte at the address; in step |
| `UpdiDataLink.UpdiLink.StByte` | updi/updi_link.c:140-149 | One byte stored; in step |
| `UpdiDataLink.UpdiLink.St16` | updi/updi_link.c:151-161 | Two bytes stored; on the emulator they are stored, in step |
| `UpdiDataLink.UpdiLink.StPtr` | updi/updi_link.c:165-176 | The address register set |
| `UpdiDataLink.UpdiLink.StPtrInc` | updi/updi_link.c:191-203 | A byte block, each byte acknowledged |
| `UpdiDataLink.UpdiLink.StPtrInc16Block` | updi/updi_link.c:205-214 | A word block without acknowledgements; they are on again afterwards |
| `UpdiDataLink.UpdiLink.Repeat` | updi/updi_link.c:218-223 | Counts 1 to 256 are sent less one, any other is refused unsent |
| `UpdiDataLink.UpdiLink.Key` | updi/updi_link.c:225-234 | The key, last byte first |
| `UpdiDataLink.UpdiLink.ReadSib` | updi/updi_link.c:236-249 | The SIB, as many bytes as asked |
| `UpdiDataLink.UpdiLink.ReadData` | updi/updi_link.c:253-262 | The bytes at the address, in one REPEAT; in step for any size from 1 to 256 |
| `UpdiDataLink.UpdiLink.ReadDataWords` | updi/updi_link.c:264-273 | The words at the address |
| `UpdiDataLink.UpdiLink.WriteDataWords` | updi/updi_link.c:275-288 | Even lengths from 2 to 512: the same memory effect as storing byte by byte, acknowledgements on again, CTRLA restored |
| `UpdiDataLink.UpdiLink.WriteData` | updi/updi_link.c:290-312 | Any length from 1: exactly one pointwise store of the sequence, one and two bytes by STS, more by REPEAT blocks of at most 256 |
| `Lockstep.PerformWriteData` | updi/updi_link.c:290-312 | Host instructions for a write of any length, on the decoder: memory changes as by one pointwise store, decoder idle, nothing queued |
| `Lockstep.PerformWords` | updi/updi_link.c:275-288 | Word writes on the decoder, although STCS comes between REPEAT and ST |
| `Lockstep.PerformRead` | updi/updi_nvm.c:260-270 | Reads of any length on the decoder bring exactly the memory |
| `Lockstep.ReadDataInStep` | updi/updi_link.c:253-262 | A read keeps host and decoder in step if and only if its size is at least one |
| `Lockstep.PerformLdcsQueued` | updi/updi_link.c:47-54 | A control read on an idle decoder takes the oldest queued response for the answer |
| `Lockstep.LivenessReadResyncs` | updi/updi_link.c:93-97 | In the middle of an STCS it can bring them back in step, with a stale answer |
| `Lockstep.LivenessReadInStep` | updi/updi_link.c:93-97 | From any decoder state, when the liveness read answers and when it leaves the target in step; from an idle one, if and only if it was in step before |
| `Lockstep.PerformSib` | updi/updi_link.c:236-249 | A SIB read of any size keeps them in step if and only if at least eight bytes are asked for |
| `Lockstep.PerformKey` | updi/updi_link.c:225-234 | The eight key bytes sent last first are compared as the key; decoder idle and nothing queued afterwards |
| `Lockstep.PushAllFits` | host_test/updi_emu.c:24-29 | Up to 2047 responses nothing is dropped |
| `Lockstep.FeedBlock` | host_test/updi_emu.c:237-240 | An unacknowledged block is stored byte by byte and ends exactly at its last byte |
| `Memory.StoreSeqSplit` | updi/updi_link.c:300-311 | Storing blocks one after the other is storing the whole |
| `Memory.StoreFlash` | host_test/updi_emu.c:48-69 | A pointwise store into flash patches it |
| `ResponseRing.RxRing.PushByte` | host_test/updi_emu.c:24-29 | Appends to the queue, or drops exactly when 2047 bytes are queued |
| `ResponseRing.RxRing.PopByte` | host_test/updi_emu.c:31-36 | Takes the oldest byte |
| `ResponseRing.QueuedPush` | host_test/updi_emu.c:24-29 | The ring is full exactly at 2047 bytes; otherwise the new byte comes last, wrapping or not |
| `UpdiEmulator.Emulator.WriteByte` | host_test/updi_emu.c:48-69 | Memory store with the command register's side effects, as in the pure map |
| `UpdiEmulator.Emulator.ApplyStcs` | host_test/updi_emu.c:73-87 | Control store with the effect of releasing reset |
| `UpdiEmulator.Emulator.DecodeOpcode` | host_test/updi_emu.c:98-178 | Every opcode moves the decoder as the pure machine does |
| `UpdiEmulator.Emulator.FeedByte` | host_test/updi_emu.c:91-264 | One byte moves the whole emulator as the pure machine does |
| `UpdiEmulator.Emulator.SendBytes` | host_test/updi_emu.c:268-275 | A frame feeds its bytes in order |
| `UpdiEmulator.Emulator.RecvBytes` | host_test/updi_emu.c:277-287 | Takes the oldest bytes queued, at most as many as asked |
| `Devices.TableSound` | updi/updi_device_table.h:15-37 | Every row has whole even pages of at most 256 bytes inside its address space, and signatures identify rows |
| `Devices.FindById` | updi/updi_device.c:11-16 | The first row with the signature, none exactly if there is none |
| `WireLog.RanThen` | updi/updi_link.c:253-262 | Transcripts compose: two scripts run one after the other are their concatenation run |
| `WireLog.RanWithin` | updi/updi_link.c:18-20 | A run sends only frames of its script |
| `UpdiWorker.Worker.ConnectOnce` | ui/updi_worker.c:63 | The result of connecting is noted right after a read-only stretch |
| `UpdiWorker.Worker.EraseStep` | ui/updi_worker.c:136-141 | The result of the chip erase is noted; order kept |
| `UpdiWorker.Worker.WriteStep` | ui/updi_worker.c:143-148 | On erased emulated flash the image, padded |
| `UpdiWorker.Worker.VerifyAndRelease` | ui/updi_worker.c:148-155 | Ok exactly if flash begins with the image, on the emulator; the device is left whatever comes of it |
| `UpdiWorker.Worker.VerifyFile` | ui/updi_worker.c:164-185 | The part of a verify after connecting, with its early return |
| `UpdiWorker.Worker.DumpConnected` | ui/updi_worker.c:208-236 | The part of a dump after connecting, with its early returns |
| `UpdiWorker.AgreesOrDiffers` | updi/updi_session.c:102-130 | Reading up to the first difference decides about the whole flash |
| `UpdiWorker.PaddedIsImage` | ui/updi_worker.c:131-148 | The image of an accepted file is its payload followed by 0xFF |
| `UpdiProgramming.UpdiSession.EnterAndIdentify` | updi/updi_session.c:24-44 | Address size and SIB from the bytes received, then programming mode and identity; UpdiErrLocked as for connecting |
| `UpdiProgramming.UpdiSession.Identify` | updi/updi_session.c:34-44 | Connected exactly when the signature received is in the table, UpdiErrUnsupported when it is not |
| `UpdiProgramming.UpdiSession.FillPageBuffer` | updi/updi_session.c:90-92 | The page of the image, padded with 0xFF |
| `UpdiProgramming.UpdiSession.WriteNextPage` | updi/updi_session.c:89-99 | One round: the next page, within the flash when the image fits |
| `UpdiProgramming.UpdiSession.ReadNextFuse` | updi/updi_session.c:153-156 | One round of the fuse loop |
| `UpdiProgramming.UpdiSession.EnterThenIdentify` | updi/updi_session.c:31-44 | Programming mode, then identity; UpdiErrLocked as for connecting |
| `UpdiProgramming.UpdiSession.WritePage` | updi/updi_session.c:93-97 | A blank page is left alone, any other patched into flash |
| `UpdiProgramming.UpdiSession.WritePagesInOrder` | updi/updi_session.c:89-99 | The page loop comes to page-wise flashing of the whole image |
| `UpdiProgramming.UpdiSession.FirstMismatch` | updi/updi_session.c:115-116 | The first differing index of a chunk |
| `UpdiProgramming.UpdiSession.VerifyChunk` | updi/updi_session.c:112-125 | One chunk read and compared, after equal ones |
| `UpdiProgramming.UpdiSession.CompareFlash` | updi/updi_session.c:110-129 | The chunk loop of a verify |
| `UpdiProgramming.UpdiSession.DumpChunk` | updi/updi_session.c:140-145 | One chunk read into its place |
| `UpdiNvmController.UpdiNvm.Reset` | updi/updi_nvm.c:93-96 | Exactly one control store that applies or releases reset |
| `UpdiNvmController.UpdiNvm.IsLocked` | updi/updi_nvm.c:104-108 | True exactly when the transcript ends with a status that has the lock bit set |
| `UpdiNvmController.UpdiNvm.OfferNvmKey` | updi/updi_nvm.c:127-136 | UpdiOk implies that the target answered that it took the key, UpdiErrProtocol that it did not |
| `UpdiNvmController.UpdiNvm.ExecuteNvmCommand` | updi/updi_nvm.c:209-212 | One store to the command register |
| `UpdiNvmController.UpdiNvm.AwaitProgmode` | updi/updi_nvm.c:140-147 | After the reset toggle UpdiErrLocked is a poll that begins at it and never sees a clear lock bit; UpdiErrProtocol, a clear lock bit and then one status read without NVMPROG |
| `UpdiNvmController.UpdiNvm.AwaitUnlocked` | updi/updi_nvm.c:168-173 | Reset, then the lock bit within the time limit |
| `UpdiNvmController.UpdiNvm.Commit` | updi/updi_nvm.c:236-240 | Command, wait, and on P:3 the closing NOCMD whatever the wait returned |
| `UpdiNvmController.UpdiNvm.ClearBuffer` | updi/updi_nvm.c:280-286 | Wait, page buffer clear, wait |
| `UpdiNvmController.UpdiNvm.LoadPage` | updi/updi_nvm.c:280-289 | The page buffer cleared and loaded |
| `UpdiNvmController.UpdiNvm.WriteFuseEeprom` | updi/updi_nvm.c:312-326 | The fuse written as an EEPROM byte |
| `UpdiNvmController.UpdiNvm.WriteFuseRegisters` | updi/updi_nvm.c:328-341 | The fuse written through ADDR and DATA |
| `UpdiDataLink.UpdiLink.EnableAck` | updi/updi_link.c:63-67 | Acknowledgements on, and remembered only if sent |
| `UpdiDataLink.UpdiLink.DisableAck` | updi/updi_link.c:69-74 | Acknowledgements off, and remembered only if sent |
| `UpdiDataLink.UpdiLink.InitSessionParams` | updi/updi_link.c:87-91 | Collision detection off, acknowledgements on |
| `UpdiDataLink.UpdiLink.StDataPhase` | updi/updi_link.c:132-138 | ACK, data, ACK |
| `UpdiDataLink.UpdiLink.LdPtrInc` | updi/updi_link.c:178-182 | Bytes at the address register |
| `UpdiDataLink.UpdiLink.LdPtrInc16` | updi/updi_link.c:184-189 | Words at the address register |
| `UpdiDataLink.UpdiLink.WriteChunks` | updi/updi_link.c:300-311 | The REPEAT loop sends the blocks of at most 256 bytes in order |
| `IntelHex.SkipWhitespace` | hex/intel_hex.c:49-50 | The first character that is not blank |
| `IntelHex.CheckBody` | hex/intel_hex.c:71-75 | The checksum byte against the sum of the others |
| `IntelHex.IntelHexImage.Accept` | hex/intel_hex.c:77-111 | The record types, each with its effect or its error |
| `IntelHex.PutByte` | hex/intel_hex.c:121-126 | Two digits appended, the sum updated modulo 256 |
| `IntelHex.EmitRecord` | hex/intel_hex.c:128-151 | The record and its line end go to the sink in one append |
| `IntelHex.WriteChunk` | hex/intel_hex.c:165-180 | One round of the loop: a new segment named if needed, then its data |
| `UpdiEmulator.Emulator.constructor` | host_test/updi_emu.c:301-312 | Erased flash, idle decoder, empty queue |
| `UpdiEmulator.Emulator.Respond` | host_test/updi_emu.c:190-198 | The bytes of the memory map queued in order |
| `UpdiEmulator.Emulator.LoadInc` | host_test/updi_emu.c:148-161 | The load loop under REPEAT, address register advanced |
| `UpdiEmulator.Emulator.FeedOperand` | host_test/updi_emu.c:190-229 | Operand bytes collected, then the instruction carried out |
| `UpdiEmulator.Emulator.FeedKeyByte` | host_test/updi_emu.c:242-258 | Key bytes collected, reversed and compared |
| `UpdiEmulator.Emulator.StoreInc` | host_test/updi_emu.c:231-240 | One byte stored at the address register |
| `UpdiTransport.Transport.Send` | updi/updi_transport.h:28-32 | An emulator is fed the frame; any other target may fail it |
| `UpdiTransport.Transport.Recv` | updi/updi_transport.h:34-39 | An emulator gives what it queued; any other target anything up to the length |
| `FlashTranscripts.PageDone` | updi/updi_session.c:89-99 | Pages written one after the other make up the run over the whole image |
| `FlashTranscripts.HasReadOneMore` | updi/updi_session.c:150-158 | One more fuse read |
| `Devices.SameIdSameDevice` | updi/updi_device_table.h:15-37 | A signature names one device |

## Left out

- GUI: scenes, the worker's thread, mutex, phases, progress callbacks, notifications and status strings.
- `transport/transport_furi.c`: serial line, echo removal and timing; the model starts at the transport interface with its echo already removed, and an optional missing clock or BREAK of that interface is not modelled.
- Storage: a file to read is a text delivered in pieces of any size, which a faulty file may cut short; a file to write takes any part of what is appended. Whether it opens, whether memory is left and whether the serial port is free are parameters.
- `ui/updi_worker.c` allocation of the transport: the session exists when the worker starts, so a second operation after a failed allocation is not modelled.
- Frames are recorded when handed to the transport, also when the transport then reports failure.
- `updi_nvm_read_revision`, the session's accessors and the emulator's capture of sent bytes: each is one call or a log.
- Table fields for EEPROM, user row and SYSCFG, and their operations in the Python code (also `nvmp2.py`, `nvmp4.py`, `nvmp5.py`): not used by the C code.
- Buffers that callers pass by reference to link and NVM reads are returned as sequences; partial contents after an error are those read so far.
- The emulator's eight-byte operand buffer: the model's buffer grows, so keys of 128 bits or more, which overrun it in C, are outside the model.
- Page buffer, lock and reset behaviour of real silicon: the emulator writes flash directly and is never busy, so lock and busy reasoning is done for arbitrary targets only.
- Activation of a target in the middle of an instruction, beyond what its liveness read does then (`Lockstep.LivenessReadInStep`).
- Python's clock: its timers are run on the clock readings of the C code, in milliseconds on the same wrapping counter, the first of which both starts a timer and serves its first test.
- IntelHex.IntelHexImage.AcceptData: does not model a 32-bit `size_t`; for which records the range check then decides alike is stated by `HexLemmas.RangeCheckExact`, and what a copy beyond the buffer does is not modelled.
- Start address records (types 03 and 05) beyond being accepted and ignored.
- UpdiWorker.Worker.OpFlash: does not claim that the device is released when parsing, erasing or writing fails, because the source returns early then.
- UpdiNvmController.UpdiNvm.EraseFlashPage: on the emulator nothing is erased, since it knows no page erase; the contract states the effect of the selecting store.
