# ZC95 verification model

The ZC95 is a four-channel pulse generator of two processors: the main board (zc95) and the output board
(zc624). This project models the parts of its firmware and of its PC tools that carry the hardest promises, and
proves those promises for all inputs and all runs. `dafny verify dfyconfig.toml` checks everything.

| file | subject |
|---|---|
| `Complex`, `Fourier`, `Inversion`, `RealTransform`, `FftViews`, `EspFft` | the fast Fourier transform of the audio input: split-radix and radix-2 recursion over strided arrays, unrolled 4- and 8-point bases, real transform and inverse, all against the plain sum |
| `Base64` | the base64 encoder and two-pass decoder, section 5.2 of RFC 1521 |
| `Bytes`, `Options`, `Sequences` | bytes, bitwise AND, C strings, little-endian numbers; optional values; sequences put together |
| `NorFlash` | flash that programming can only clear, the streaming image writer and the copy from SD card |
| `BlockLink` | the numbered, checksummed block transfer to the zc624, its I2C handler and its main loop |
| `FirmwareUpdate` | the power-fail-safe update of both firmwares as a machine with a cut possible at every primitive step, and the boot loader that refines it |
| `LuaUpload` | the two-phase upload of Lua scripts into flash slots |
| `PulseQueue`, `LinkedChannels` | the pulse queue with channel isolation, and linked channels with their follow-up pulses |
| `Uf2` | conversion of UF2 files |
| `DhcpLeases` | the lease table of the DHCP server, sections 4.3.1 and 4.3.2 of RFC 2131 |
| `SavedSettings` | crash-safe initialisation of the settings EEPROM |
| `ZeroCross` | pulses at zero crossings of the audio signal |
| `PulseStream` | pulses over Bluetooth from the sender's queue to the receiver |
| `Protocol`, `RoutineRun`, `MessageProcessor` | the messages of a client, the runner of routines, and the message processor with its three states, which answers each message once |
| `Transmission`, `SerialFraming`, `SerialTiming` | the serial port in front of the message processor: its transmit queue, its receive machine, and what comes of bytes and turns of the loop in any order |

## Where the code does not keep a promise

Each of these is stated as an exact condition in the model. `CycleAccepted`, `OddBackupDiffers`, `ShortStreamFails`,
`ShortTransferFails`, `BlockLost`, `StuckOnReadOnly`, `StartedTwice`, `ReportedBetween`, `AnswerLost`, `SecondLost`,
`FullSectionReadsOn`, `ResetInMessage` and `ThreeSymbolsFail` are inputs for which the promise fails.

- The check against chains of linked channels never runs, because two clauses of its `for` statement are
  swapped (`source/zc624/COutput.cpp:210`). `LinkedChannels` has the source's behaviour (`checksLinks` false) and
  the intended one side by side. Without the check a link keeps the table free of cycles if and only if the
  linked channel does not lead back (`LinkKeepsAcyclic`); two messages that make a cycle are accepted (`CycleAccepted`), and
  then, with isolation off, a single pulse on the cycle keeps the queue going for ever (`KeepsGoing`, `CausesAny`).
- Restoring the zc624's backup gives back the same flash only if the number of 128-byte blocks is even
  (`RestoreBackup624`); otherwise 128 zeros are added and count as firmware from then on, so that every later backup and
  restore adds a page (`RestoredBackupGrows`, and `OddBackupDiffers`). The firmware itself always comes back.
- A firmware stream of less than 256 bytes leaves a first page of zeros, and then programs it twice (`StreamRun`,
  `TransferRun`; `ShortStreamFails`, `ShortTransferFails`).
- A block is lost, without the sender being told, exactly when the zc624's main loop does not come between two
  blocks (`RunEvents`, `StoredIfDrained`).
- A write to a register that is read only leaves the handler of the zc624 stuck on the byte that it does not take
  (`ReceiveMessage`). The peer never does that.
- Received and missing packets add up to those sent since the start only if the counters were reported with the start
  message and not since, or, the start message included, if none was received before it and there was no report
  (`FromStart`); a report comes with the first packet more than a second after the last one.
- An answer that is longer than the free space of the transmit queue is dropped, although the message counts as
  answered (`AllAnswersGone`).
- Over the serial port a message is lost exactly when it begins while another one waits for the loop (`RunStream`).
- A zc624 flash whose last byte is programmed is counted as one block more than it has, and a backup of it could not be
  restored (`FullFlash`). The update is not modelled for it.
- After an OK the script in a slot reads as uploaded only if it does not end at a section boundary with old text
  behind it, and does not fill the slot (`ReadBack`, `FullSectionReadsOn`).
- A serial reset in the middle of a message leaves the bytes received so far in front of the next message
  (`AfterReset`, `ResetInMessage`), because the reset does not set the receive position back. If both together are
  too long the next message is lost.
- A base64 text whose symbol count is not a multiple of 4 can decode to fewer bytes than announced (`PromiseKept`,
  `ThreeSymbolsFail`).

## Modelling choices

- `float` and `double` are exact reals; the twiddle table holds the powers of a root of unity, and the constant
  sin(pi / 4) has the property that defines it. In the unrolled bases and butterflies the real and imaginary scalars of
  one value are one variable.
- Shifts and masks of non-negative numbers are divisions and remainders. Widths are written out where they matter: 8-bit
  block numbers, buffer positions, packet counters and sums; 16-bit block counts and expiries; 32-bit ticks and
  accumulators.
- Flash: erasing sets all bytes of the firmware region to 0xFF, programming a page is a bitwise AND. Power may fail
  between any two of: an erase, a page program, a write to a backup file, a write of the EEPROM flag. A flag
  write and the storing of one Lua section count as one step each.
- Events outside the program are parameters or free choices: what fails when reading or writing a file, how the bytes of
  an I2C message arrive, whether flash can be locked, the clock.
- The I2C link delivers every message, including the end marker whose result the source does not look at. The main
  loop of the zc624 comes between any two messages of a transfer (what happens otherwise is `RunEvents`). The static
  counters of the image writers are never reset, so each serves one transfer per boot.
- A firmware that is requested carries its magic number, and a zc624 firmware is longer than one block and ends in a
  byte other than 0xFF; both fit each other, so that the version check at boot changes nothing. The last byte of the
  zc624's flash is blank when it is backed up. Pressing keys for the boot loader menu is left out.
- Parsing of JSON is an arbitrary function from the text to a number and a message, or to neither. How many routines there
  are is an arbitrary function of the script slots, counted again whenever the source reads its list again.
- What an answer says is any text. A send that finds too little room for all of its frame, but enough for its text, waits
  until the interrupt handler has made room.
- A pulse that is taken from the queue and its follow-up are one step for the interrupts that queue further pulses.
- The constructor at `source/zc624/CPulseQueue.cpp:12` assigns a member to itself; the model takes the value it is meant to have.

## Model

| member | source | states |
|---|---|---|
| `Fourier.Decimate` | source/zc95/AudioInput/ESP32_fft.cpp:368-370 | the DFT is the DFT of the even samples plus a turned DFT of the odd ones |
| `Fourier.Radix2` | source/zc95/AudioInput/ESP32_fft.cpp:368-399 | the radix-2 butterfly: both halves of the DFT from the DFTs of even and odd samples |
| `Fourier.SplitRadix` | source/zc95/AudioInput/ESP32_fft.cpp:470-539 | the split-radix butterfly: all four quarters of the DFT from one half-size and two quarter-size DFTs |
| `Fourier.DftPeriod` | source/zc95/AudioInput/ESP32_fft.cpp:403-541 | the DFT is periodic in its frequency, so the smaller DFTs may be read modulo their sizes |
| `Fourier.DftFour` | source/zc95/AudioInput/ESP32_fft.cpp:709-735 | the additions and swaps of the 4-point base are the DFT sum |
| `Fourier.DftEight` | source/zc95/AudioInput/ESP32_fft.cpp:579-707 | the 8-point base is the DFT sum, from two 4-point DFTs and eighth turns |
| `Fourier.EighthTurns` | source/zc95/AudioInput/ESP32_fft.cpp:591-643 | multiplying by the constant sin(pi/4) in the unrolled form is an eighth turn |
| `Inversion.Primitive` | source/zc95/AudioInput/ESP32_fft.cpp:80-87 | no smaller step of the twiddle table makes a full turn, for power-of-two sizes |
| `Inversion.Orthogonal` | source/zc95/AudioInput/ESP32_fft.cpp:80-87 | over a full period the powers of any root but one cancel |
| `Inversion.InversionPrefix` | source/zc95/AudioInput/ESP32_fft.cpp:543-578 | transforming there and back, in either order, multiplies by the number of samples |
| `Inversion.InverseTransform` | source/zc95/AudioInput/ESP32_fft.cpp:543-578 | the conjugate transform divided by n undoes the DFT |
| `Inversion.TransformOfInverse` | source/zc95/AudioInput/ESP32_fft.cpp:543-578 | and the DFT undoes it |
| `RealTransform.ConjugateSymmetry` | source/zc95/AudioInput/ESP32_fft.cpp:219-269 | a real signal has a conjugate-symmetric DFT, so half of it suffices |
| `RealTransform.PairedTransform` | source/zc95/AudioInput/ESP32_fft.cpp:219-269 | the half-size DFT of the paired real signal is even part plus i times odd part |
| `RealTransform.RealPair` | source/zc95/AudioInput/ESP32_fft.cpp:219-269 | mirrored elements of the half-size and the full DFT come from one even and one odd part |
| `RealTransform.EndElements` | source/zc95/AudioInput/ESP32_fft.cpp:233-237 | DC and Nyquist from element 0, both real, so that packing them together loses nothing |
| `RealTransform.MiddleElement` | source/zc95/AudioInput/ESP32_fft.cpp:239-241 | element n/4 is a conjugate |
| `RealTransform.UnpackStep` | source/zc95/AudioInput/ESP32_fft.cpp:243-268 | one step of the post-pass of rfft gives two elements of the real DFT |
| `RealTransform.PackStep` | source/zc95/AudioInput/ESP32_fft.cpp:288-309 | one step of the pre-pass of irfft takes them back |
| `FftViews.SplitRadixViews` | source/zc95/AudioInput/ESP32_fft.cpp:470-473 | the strided views passed to the three recursive calls are the even, first and third quarter samples |
| `FftViews.StitchStep` | source/zc95/AudioInput/ESP32_fft.cpp:475-539 | one turn of the stitching loop yields four elements of the DFT, with the table index the code uses |
| `FftViews.Radix2Step` | source/zc95/AudioInput/ESP32_fft.cpp:372-399 | one turn of the radix-2 loop yields two elements of the DFT |
| `FftViews.RestoredTransform` | source/zc95/AudioInput/ESP32_fft.cpp:281-309 | the whole pre-pass, for every index pair, turns the packed DFT of a real signal into the half-size DFT |
| `FftViews.UnpackRestored` | source/zc95/AudioInput/ESP32_fft.cpp:219-312 | and the post-pass takes any pre-passed pair back to the packed cells it came from |
| `FftViews.PackedByRestored` | source/zc95/AudioInput/ESP32_fft.cpp:219-312 | so every packed spectrum whatever is the real DFT of some signal |
| `EspFft.EspFft.constructor` | source/zc95/AudioInput/ESP32_fft.cpp:42-88 | the table holds the conjugate powers of a root of unity |
| `EspFft.EspFft.Fft4` | source/zc95/AudioInput/ESP32_fft.cpp:709-735 | in place writes: the output block is the DFT of the four strided inputs, nothing else changes |
| `EspFft.EspFft.Fft8` | source/zc95/AudioInput/ESP32_fft.cpp:579-707 | the same for eight inputs |
| `EspFft.EspFft.SplitRadixFft` | source/zc95/AudioInput/ESP32_fft.cpp:403-541 | for every power of two n >= 4, every stride and input, the output is the DFT of the strided input |
| `EspFft.EspFft.SplitRadixParts` | source/zc95/AudioInput/ESP32_fft.cpp:470-473 | the three recursive calls fill disjoint parts of the output with the smaller DFTs |
| `EspFft.EspFft.SplitRadixStitch` | source/zc95/AudioInput/ESP32_fft.cpp:475-539 | the loop turns them into the DFT in place |
| `EspFft.EspFft.FftPrimitive` | source/zc95/AudioInput/ESP32_fft.cpp:314-401 | the radix-2 form computes the same DFT |
| `EspFft.EspFft.IfftPrimitive` | source/zc95/AudioInput/ESP32_fft.cpp:543-578 | transform, reversal and scaling give the inverse DFT |
| `EspFft.EspFft.Reverse` | source/zc95/AudioInput/ESP32_fft.cpp:552-568 | swapping elements j and n - j |
| `EspFft.EspFft.Fft` | source/zc95/AudioInput/ESP32_fft.cpp:174-197 | the complex entry point: the DFT of the whole input |
| `EspFft.EspFft.Ifft` | source/zc95/AudioInput/ESP32_fft.cpp:199-217 | output is the inverse DFT; it undoes the DFT and is undone by it, for every input |
| `EspFft.EspFft.Rfft` | source/zc95/AudioInput/ESP32_fft.cpp:219-269 | output is DC, Nyquist, then the positive frequencies of the DFT of the real input |
| `EspFft.EspFft.RecoverPositive` | source/zc95/AudioInput/ESP32_fft.cpp:233-268 | the post-pass, pair by pair in place |
| `EspFft.EspFft.Irfft` | source/zc95/AudioInput/ESP32_fft.cpp:271-312 | undoes Rfft and is undone by it, for every content of the input |
| `EspFft.EspFft.PreparePairs` | source/zc95/AudioInput/ESP32_fft.cpp:281-309 | the pre-pass, pair by pair in place |
| `EspFft.EspFft.Execute` | source/zc95/AudioInput/ESP32_fft.cpp:153-169 | the four cases: forward is the DFT, backward inverts it in both orders |
| `EspFft.EspFft.ComplexToMagnitude` | source/zc95/AudioInput/ESP32_fft.cpp:102-118 | in-place compaction: cell k gets the magnitude of the original pair k although pairs are overwritten; first largest magnitude found |
| `Base64.MapsAreInverse` | source/zc95/RemoteAccess/base64.c:25-51 | the two tables are inverse to each other, in both directions |
| `Base64.Alphabet` | source/zc95/RemoteAccess/base64.c:25-34 | the symbols of 0 to 63 are upper case, lower case, digits, plus and slash |
| `Base64.GroupDigits` | source/zc95/RemoteAccess/base64.c:92-118 | the four symbols of three bytes are the digits of their 24 bits in base 64; one or two missing bytes are zeros and end in padding |
| `Base64.EncodedSize` | source/zc95/RemoteAccess/base64.c:58-120 | the encoding has 4 ceil(n/3) symbols |
| `Base64.EncodedAppend` | source/zc95/RemoteAccess/base64.c:87-99 | encoding is group by group |
| `Base64.Encode` | source/zc95/RemoteAccess/base64.c:58-120 | output is the encoding and a zero if the buffer holds both; otherwise the size needed; nothing else is written |
| `Base64.PutAll` | source/zc95/RemoteAccess/base64.c:87-117 | the writing part |
| `Base64.PassesAgree` | source/zc95/RemoteAccess/base64.c:132-202 | both passes see the same symbols and padding from any point on |
| `Base64.PromiseKept` | source/zc95/RemoteAccess/base64.c:132-202 | the second pass never writes more than the first promised, and exactly that under a stated condition on symbol count and padding, which includes all multiples of 4 |
| `Base64.ThreeSymbolsFail` | source/zc95/RemoteAccess/base64.c:132-202 | three symbols promise three bytes and write none |
| `Base64.LastGroup` | source/zc95/RemoteAccess/base64.c:185-200 | whatever is left in the 32-bit accumulator, a group gives its own three bytes |
| `Base64.EncodedFeedsBack` | source/zc95/RemoteAccess/base64.c:185-200 | the second pass over an encoding writes the original bytes |
| `Base64.EncodedPasses` | source/zc95/RemoteAccess/base64.c:132-168 | the first pass accepts every encoding and counts its symbols and padding |
| `Base64.RoundTrip` | source/zc95/RemoteAccess/base64.c:58-205 | decoding an encoding gives the bytes back for every byte string, or the exact size when the buffer is small |
| `Base64.LineBreaksDoNotMatter` | source/zc95/RemoteAccess/base64.c:132-202 | LF or CRLF, each possibly after spaces, and trailing spaces do not change what decoding answers, for any symbols |
| `Base64.AcceptedLayout` | source/zc95/RemoteAccess/base64.c:132-168 | conversely every accepted text is its symbols laid out with such line breaks |
| `Base64.AcceptedSymbols` | source/zc95/RemoteAccess/base64.c:154-167 | which symbol sequences are accepted: alphabet only, padding at the end, twice at most |
| `Base64.SymbolsInTable` | source/zc95/RemoteAccess/base64.c:161-191 | every symbol let through indexes the 128-entry table |
| `Base64.DecodeInto` | source/zc95/RemoteAccess/base64.c:125-205 | the decoder equals its specification; no store beyond the size given; a refused text changes nothing |
| `Base64.CheckAndCount` | source/zc95/RemoteAccess/base64.c:132-168 | the first loop |
| `Base64.WriteSymbols` | source/zc95/RemoteAccess/base64.c:185-200 | the second loop |
| `Bytes.AndOnes` | source/zc624Bootloader/zc624Bootloader.cpp:86-91 | programming (bitwise AND) an erased byte stores the data |
| `NorFlash.ImageRun` | source/zc624Bootloader/zc624Bootloader.cpp:104-173 | on erased flash the steps of an image leave exactly the image and blank behind it |
| `NorFlash.ImageCutShort` | source/zc624Bootloader/zc624Bootloader.cpp:125-142 | after any proper prefix of the steps the first page is blank |
| `NorFlash.ImageProgramsOnce` | source/zc624Bootloader/zc624Bootloader.cpp:104-117 | no page is programmed twice |
| `NorFlash.StreamIsImage` | source/zc624Bootloader/zc624Bootloader.cpp:130-170 | the steps of the streaming writer are those of the zero-padded stream, if it fills a page |
| `NorFlash.StreamRun` | source/zc624Bootloader/zc624Bootloader.cpp:119-173 | flash at the end of a transfer: the stream zero-padded to 256 bytes if it has at least 256, and otherwise a first page of zeros; pages programmed once under the exact condition |
| `NorFlash.ShortStreamFails` | source/zc624Bootloader/zc624Bootloader.cpp:104-173 | of a stream of 128 ones nothing arrives, and the first page is programmed twice |
| `NorFlash.Flash.WriteBuffer` | source/zc624Bootloader/zc624Bootloader.cpp:104-117 | programs the page that ends at the byte counter, which is a positive multiple of 256 |
| `NorFlash.StreamWriter.Receive` | source/zc624Bootloader/zc624Bootloader.cpp:119-173 | any data in any portions: buffers, kept-back first page, counters and flash steps stay in line with the stream |
| `NorFlash.StreamWriter.ReceiveByte` | source/zc624Bootloader/zc624Bootloader.cpp:153-170 | one byte |
| `NorFlash.StreamWriter.CompletePage` | source/zc624Bootloader/zc624Bootloader.cpp:157-168 | a full buffer: first page kept back, others programmed |
| `NorFlash.StreamWriter.Begin` | source/zc95Bootloader/zc95Bootloader.c:207-211 | the zc95 variant erases the flash at the first data |
| `NorFlash.StreamWriter.FirstPageHeldBack` | source/zc624Bootloader/zc624Bootloader.cpp:125-170 | while a transfer runs the first page stays blank and the later ones hold the stream |
| `NorFlash.StreamWriter.Finish` | source/zc624Bootloader/zc624Bootloader.cpp:130-146 | the end of transmission: rest of the buffer, then the first page; the alignment assertions hold |
| `NorFlash.CopyFile` | source/zc95Bootloader/zc95Bootloader.c:389-455 | success only after all steps of the padded file; on any failure steps that never reach the first page |
| `NorFlash.CopyCutShort` | source/zc95Bootloader/zc95Bootloader.c:389-455 | a copy interrupted anywhere has not reached the first page |
| `BlockLink.ComputeChecksum` | source/zc95Bootloader/zc624.c:189-193 | the 8-bit sum of the payload |
| `BlockLink.BlockNumberWraps` | source/zc95Bootloader/zc624.c:352-362 | the k-th block carries number k modulo 256 |
| `BlockLink.I2cSlave.OnReceive` | source/zc624Bootloader/CI2cSlave.cpp:96-153 | the receive event in all its branches; a byte for a read-only register is left where it is |
| `BlockLink.I2cSlave.ReadAvailable` | source/zc624Bootloader/CI2cSlave.cpp:110-115 | the loop over available bytes, dropping what does not fit |
| `BlockLink.I2cSlave.ReceiveMessage` | source/zc624Bootloader/CI2cSlave.cpp:96-153 | a message split over receive events in any way leaves the same state; the handler gets stuck exactly on more than it reads of a read-only register or a block request, and on less than a block request |
| `BlockLink.I2cSlave.ReceiveRequest` | source/zc624Bootloader/CI2cSlave.cpp:117-128 | a block request takes its two bytes and no more |
| `BlockLink.StuckOnReadOnly` | source/zc624Bootloader/CI2cSlave.cpp:145-152 | a value for register 0x40 is never taken |
| `BlockLink.I2cSlave.OnFinish` | source/zc624Bootloader/CI2cSlave.cpp:178-189 | the callback gets the bytes after the register address, at most 130 |
| `BlockLink.I2cSlave.OnRequest` | source/zc624Bootloader/CI2cSlave.cpp:155-176 | flash block, block count or register, and the address moves on after a register only |
| `BlockLink.Bootloader.IsDataBufferValid` | source/zc624Bootloader/zc624Bootloader.cpp:176-205 | a block is taken exactly with right length, checksum and number |
| `BlockLink.Bootloader.DatablockReceived` | source/zc624Bootloader/zc624Bootloader.cpp:208-227 | the mailbox and the end flag |
| `BlockLink.Bootloader.MainLoop` | source/zc624Bootloader/zc624Bootloader.cpp:282-306 | erase, then a waiting block, then the end of transmission: the end never overtakes the last block |
| `BlockLink.Bootloader.Transaction` | source/zc624Bootloader/CI2cSlave.cpp:92-194 | what one message does, whatever its portions |
| `BlockLink.Bootloader.ReadBlock` | source/zc95Bootloader/zc624.c:293-304 | reading a flash block over the link gives its 128 bytes |
| `BlockLink.Bootloader.ReadBlockCount` | source/zc95Bootloader/zc624.c:254-272 | the 16-bit block count arrives |
| `BlockLink.FrameIsBlock` | source/zc95Bootloader/zc624.c:175-196 | what the sender frames is what the receiver takes |
| `BlockLink.SendBuffer` | source/zc95Bootloader/zc624.c:175-196 | one block: the receiver has exactly the payload more |
| `BlockLink.ClearFirmware` | source/zc95Bootloader/zc624.c:198-252 | erase by register |
| `BlockLink.SendFile` | source/zc95Bootloader/zc624.c:329-402 | the receiver writes exactly the zero-padded file, in order, for any length; on any failure the first page stays erased |
| `BlockLink.Forwarder.Data` | source/zc95Bootloader/zc624.c:132-173 | XMODEM blocks are passed on one by one |
| `BlockLink.Forwarder.Finish` | source/zc95Bootloader/zc624.c:143-157 | the end marker completes the transfer |
| `BlockLink.TransferRun` | source/zc95Bootloader/zc624.c:329-402 | flash after a transfer: the zero-padded file for files of more than 128 bytes, else a first page of zeros |
| `BlockLink.ShortTransferFails` | source/zc95Bootloader/zc624.c:329-402 | a file of 128 ones does not arrive |
| `BlockLink.TakenInStep` | source/zc624Bootloader/zc624Bootloader.cpp:194-204 | whatever blocks are lost, the k-th block taken has index k modulo 256 |
| `BlockLink.AllTaken` | source/zc624Bootloader/zc624Bootloader.cpp:194-204 | if none is lost all are taken, however many |
| `BlockLink.DamageDetected` | source/zc624Bootloader/zc624Bootloader.cpp:184-192 | a block with one damaged payload byte is refused |
| `BlockLink.KeptAreTaken` | source/zc624Bootloader/zc624Bootloader.cpp:176-205 | among any events on the link, the blocks that are not refused are those that the numbers let through |
| `BlockLink.StoredIfDrained` | source/zc624Bootloader/zc624Bootloader.cpp:295-300 | all blocks taken are stored if and only if the main loop comes between any two of them and after the last |
| `BlockLink.BlockLost` | source/zc624Bootloader/zc624Bootloader.cpp:208-227 | of two blocks without a turn of the main loop between them the first is lost |
| `BlockLink.RunEvents` | source/zc624Bootloader/zc624Bootloader.cpp:176-306 | the boot loader through any events, blocks, noise and turns of the main loop in any order: which blocks it takes and which it stores; nothing taken is lost if and only if the main loop comes between any two and after the last |
| `BlockLink.HandleEvent` | source/zc624Bootloader/zc624Bootloader.cpp:176-306 | one such event |
| `FirmwareUpdate.FwBlockCount` | source/zc624Bootloader/CI2cSlave.cpp:200-211 | the backward scan, with the unsigned wrap when the region is blank |
| `FirmwareUpdate.FullFlash` | source/zc624Bootloader/CI2cSlave.cpp:200-211 | with the last byte of flash programmed one block too many is counted, and its backup does not fit any more |
| `FirmwareUpdate.OnlyFullFlash` | source/zc624Bootloader/CI2cSlave.cpp:200-211 | and in no other case |
| `FirmwareUpdate.RestoreBackup624` | source/zc95Bootloader/zc624.c:274-402 | restoring a backup gives the same flash if and only if the block count is even; the firmware itself always comes back |
| `FirmwareUpdate.OddBackupDiffers` | source/zc95Bootloader/zc624.c:274-402 | flash with 300 bytes of firmware is not the same after backup and restore |
| `FirmwareUpdate.RestoredBackupGrows` | source/zc624Bootloader/CI2cSlave.cpp:200-211 | with an odd count every backup and restore adds a page to what counts as firmware |
| `FirmwareUpdate.CopyRun` | source/zc95Bootloader/zc95Bootloader.c:389-455 | a complete copy installs the padded file whatever the flash held |
| `FirmwareUpdate.IncompleteBlank` | source/zc95Bootloader/zc95Bootloader.c:389-455 | an attempt that stops early leaves a blank first page |
| `FirmwareUpdate.AttemptAt` | source/zc95Bootloader/zc95Bootloader.c:389-455 | flash at any step of an attempt: as before, no first page, or complete |
| `FirmwareUpdate.SendIsCopy` | source/zc95Bootloader/zc624.c:329-402 | sending has the same steps as copying |
| `FirmwareUpdate.Backup95Safe` | source/zc95Bootloader/zc95Bootloader.c:342-387 | power may fail at any write of a backup |
| `FirmwareUpdate.Backup624Safe` | source/zc95Bootloader/zc624.c:274-327 | the same for the zc624 |
| `FirmwareUpdate.BackupsRestorable` | source/zc95Bootloader/zc95Bootloader.c:490-504 | once both backups are written the flag may change to RESTORE_PREV |
| `FirmwareUpdate.Copy95Safe` | source/zc95Bootloader/zc95Bootloader.c:389-455 | power may fail at any step of a copy |
| `FirmwareUpdate.Send624Safe` | source/zc95Bootloader/zc624.c:329-402 | the same for a transfer |
| `FirmwareUpdate.BootSafe` | source/zc95Bootloader/zc95Bootloader.c:475-536 | every boot, with any failures, keeps the invariant between all its steps, and launches only complete pairs |
| `FirmwareUpdate.BootEnds` | source/zc95Bootloader/zc95Bootloader.c:475-536 | what a boot leaves behind, whatever fails on the way: without both backups nothing but the flag and the backup files changes; with them the backups are those of both flashes, and each copy that succeeds is installed |
| `FirmwareUpdate.EventSound` | source/zc95/zc95.cpp:147-157 | every event of a run, with the confirmation by running firmware, keeps the system sound |
| `FirmwareUpdate.OnlyByRequest` | source/zc95/zc95.cpp:147-157 | the good pair changes only to the one that an update installs, and an update begins with a request |
| `FirmwareUpdate.AlwaysSound` | source/zc95Bootloader/zc95Bootloader.c:475-536 | over all runs with power cut anywhere: NORMAL or RESTORE_PENDING means both boards hold the good pair, RESTORE_PREV that the backups do; what passes for firmware is complete; old pair or requested pair |
| `FirmwareUpdate.Recovers` | source/zc95Bootloader/zc95Bootloader.c:475-536 | from any reachable state one undisturbed boot runs the good pair, or the requested one |
| `FirmwareUpdate.Board.BackupZc95` | source/zc95Bootloader/zc95Bootloader.c:342-387 | success exactly if every file operation works, and then the file holds the whole region |
| `FirmwareUpdate.Board.BackupZc624` | source/zc95Bootloader/zc624.c:274-327 | success exactly if every file operation works, and then the file holds the counted blocks |
| `FirmwareUpdate.Board.Copy` | source/zc95Bootloader/zc95Bootloader.c:389-455 | the steps of the copy within a boot; success exactly if the whole file can be read |
| `FirmwareUpdate.Board.Send` | source/zc95Bootloader/zc624.c:329-402 | the steps of the transfer within a boot; success exactly if the whole file can be read |
| `FirmwareUpdate.Board.Update` | source/zc95Bootloader/zc95Bootloader.c:482-515 | the pending case takes exactly the steps of the machine |
| `FirmwareUpdate.Board.CheckEepromFlag` | source/zc95Bootloader/zc95Bootloader.c:475-536 | the boot loader refines the machine: same steps, same resulting world, same decision to launch; each part succeeds exactly if it is reached and its own file operations work |
| `FirmwareUpdate.SoundBootable` | source/zc95Bootloader/zc95Bootloader.c:475-536 | in every reachable state a boot finds the files that its flag asks for, and needs no others |
| `FirmwareUpdate.DeliveredSound` | source/zc95Bootloader/zc95Bootloader.c:475-536 | a box without any backup is in such a state |
| `FirmwareUpdate.BootFrom` | source/zc95Bootloader/zc95Bootloader.c:475-536 | the boot loader itself, from every reachable state: power may fail at every step it takes, and what it launches is complete; in terms of the file operations, when it launches, the flag and the backups it leaves, and which copies are in flash, so that a backup that cannot be written launches the firmware that is there |
| `LuaUpload.Storage.StoreSection` | source/zc95/CLuaStorage.cpp:59-109 | a section is stored in range or nothing changes; no store may leave a slot that reads as an unvalidated script |
| `LuaUpload.Storage.DeleteScript` | source/zc95/CLuaStorage.cpp:111-131 | a deleted slot reads as absent; others unchanged |
| `LuaUpload.LuaLoad.Start` | source/zc95/RemoteAccess/CLuaLoad.cpp:96-126 | nothing is written; the upload begins with a zero byte; it fails exactly for an index out of the table or a slot that cannot be written |
| `LuaUpload.LuaLoad.FlushSection` | source/zc95/RemoteAccess/CLuaLoad.cpp:138-161 | a full buffer is stored; too large a script is rejected |
| `LuaUpload.LuaLoad.Line` | source/zc95/RemoteAccess/CLuaLoad.cpp:127-172 | the characters of the line are appended across sections, or the slot reads as before or as absent; unless flash cannot be locked, exactly the lines that fit succeed |
| `LuaUpload.LuaLoad.StoreLast` | source/zc95/RemoteAccess/CLuaLoad.cpp:175-185 | first phase: everything stored, first byte still zero |
| `LuaUpload.LuaLoad.Publish` | source/zc95/RemoteAccess/CLuaLoad.cpp:194-209 | second phase: the validated script appears in one step |
| `LuaUpload.LuaLoad.End` | source/zc95/RemoteAccess/CLuaLoad.cpp:173-223 | OK exactly publishes what was uploaded and validated; an error leaves the previous script or none; answered once in every branch |
| `LuaUpload.ReadsAsValidated` | source/zc95/CLuaStorage.cpp:155-173 | what a slot reads as is the script that was validated |
| `LuaUpload.ReadBack` | source/zc95/CLuaStorage.cpp:155-173 | after OK the slot reads as newline and lines if and only if they do not fill the slot and do not end at a section end with old text behind |
| `LuaUpload.FullSectionReadsOn` | source/zc95/CLuaStorage.cpp:155-173 | lines that fill one section of a slot with longer old text do not read back |
| `LuaUpload.LuaLoad.Process` | source/zc95/RemoteAccess/CLuaLoad.cpp:86-240 | each message to the loader is answered once, under its number; what it does to the slot of the upload, and that no other changes |
| `LuaUpload.LuaLoad.Unfinished` | source/zc95/RemoteAccess/CLuaLoad.cpp:25-31 | an upload that is given up leaves the previous script, or none |
| `PulseQueue.Queue.QueuePulse` | source/zc624/CPulseQueue.cpp:24-38 | a pulse is queued at the end, or dropped when ten wait |
| `PulseQueue.QueuedIs` | source/zc624/CPulseQueue.cpp:24-38 | pulses are queued in order as long as there is room for ten |
| `PulseQueue.Queue.GetQueuedPulse` | source/zc624/CPulseQueue.cpp:40-81 | first in first out, never before its time, and under isolation not before the previous pulse has ended; exactly when it is released |
| `PulseQueue.NoOverlap` | source/zc624/CPulseQueue.cpp:66-76 | after an isolated release no later pulse overlaps the one before it, on any channel |
| `LinkedChannels.AtMostThree` | source/zc624/COutput.cpp:148-179 | without cycles no pulse has more than three follow-ups |
| `LinkedChannels.RemovalKeepsAcyclic` | source/zc624/COutput.cpp:242-249 | removing links makes no cycle |
| `LinkedChannels.LinkKeepsAcyclic` | source/zc624/COutput.cpp:198-229 | a new link keeps the table free of cycles if and only if the linked channel does not lead back |
| `LinkedChannels.UnlinkedNotReached` | source/zc624/COutput.cpp:207-217 | the check the comment describes is sufficient |
| `LinkedChannels.FollowUpLighter` | source/zc624/COutput.cpp:170-176 | a follow-up has one follow-up less |
| `LinkedChannels.FollowUpDue` | source/zc624/COutput.cpp:170-176 | a follow-up is queued exactly without isolation, with a link and with room; with the widths of its pulse, on the linked channel, after the configured part of the pulse's duration, rounded down |
| `LinkedChannels.WeightBound` | source/zc624/COutput.cpp:148-179 | a queue is worth at most four times its length |
| `LinkedChannels.CycleNeverEnds` | source/zc624/COutput.cpp:148-179 | from a channel on a cycle the links lead on for ever |
| `LinkedChannels.EndlessIfCyclic` | source/zc624/COutput.cpp:148-179 | the links lead on for ever from some channel if and only if there is a cycle |
| `LinkedChannels.Output.KeepsGoing` | source/zc624/COutput.cpp:148-179 | with a pulse on a cycle queued and isolation off, after any turns of the loop such a pulse is queued, whatever is requested meanwhile |
| `LinkedChannels.Output.CausesAny` | source/zc624/COutput.cpp:148-179 | so it causes more pulses than any number |
| `LinkedChannels.CycleAccepted` | source/zc624/COutput.cpp:210-217 | as written, 0 to 1 and 1 to 0 are both accepted |
| `LinkedChannels.Output.ResetChannel` | source/zc624/COutput.cpp:90-97 | a link is dropped |
| `LinkedChannels.Output.UnlinkIfLinked` | source/zc624/COutput.cpp:242-249 | exactly the links to a channel are dropped |
| `LinkedChannels.Output.On` | source/zc624/COutput.cpp:131-138 | a channel that is switched on is linked to by none |
| `LinkedChannels.Output.SyncChannel` | source/zc624/COutput.cpp:198-229 | when a link is made, changed or refused, and exactly when the table stays free of cycles |
| `LinkedChannels.Output.MakeLink` | source/zc624/COutput.cpp:225-228 | the link itself, and that the linked channel does not run on its own |
| `LinkedChannels.Output.CheckIsolation` | source/zc624/COutput.cpp:154-162 | a change of isolation drops all links |
| `LinkedChannels.Output.Loop` | source/zc624/COutput.cpp:148-179 | which pulse is released and when; a follow-up is queued exactly if isolation is off, the channel has a link and the queue has room, with the widths of the pulse and due after the configured part of its duration; and the decreasing number of pulses to come |
| `LinkedChannels.Output.Drain` | source/zc624/COutput.cpp:148-179 | the queue runs empty after at most the pulses still to come |
| `LinkedChannels.Output.IsLinkedChannel` | source/zc624/COutput.cpp:231-240 | whether a channel is linked to |
| `Uf2.PayloadsAre` | misc/firmware_uploader/firmware_uploader/uf2.py:80-83 | the payload table has exactly the addresses of the blocks |
| `Uf2.SameBlocksSamePayloads` | misc/firmware_uploader/firmware_uploader/uf2.py:54-92 | acceptance and payloads depend only on which blocks there are |
| `Uf2.SortedOnce` | misc/firmware_uploader/firmware_uploader/uf2.py:94 | sorting addresses has one result |
| `Uf2.SameBlocksSameImage` | misc/firmware_uploader/firmware_uploader/uf2.py:45-104 | any order and repetition of blocks gives the same image and base, or fails in both cases |
| `Uf2.PayloadInPlace` | misc/firmware_uploader/firmware_uploader/uf2.py:99-102 | payloads that do not overlap lie at their addresses |
| `Uf2.GapFilled` | misc/firmware_uploader/firmware_uploader/uf2.py:97-102 | gaps hold 0xFF |
| `Uf2.WrittenParses` | misc/firmware_uploader/firmware_uploader/uf2.py:41-78 | reading back the fields of a written block |
| `Uf2.SplitConverts` | misc/firmware_uploader/firmware_uploader/uf2.py:45-104 | converting any split of an image, in any order, gives the image back |
| `Uf2.Uf2ToBinBytes` | misc/firmware_uploader/firmware_uploader/uf2.py:45-104 | an image for acceptable files, an error for all others |
| `Uf2.AcceptableIs` | misc/firmware_uploader/firmware_uploader/uf2.py:45-92 | which files are accepted: well-formed blocks, all naming as many blocks as there are different ones, with equal payloads at equal addresses |
| `Uf2.HigherOnTop` | misc/firmware_uploader/firmware_uploader/uf2.py:94-102 | the image reaches from the lowest address to the highest end, and of overlapping payloads the one with the higher address is seen |
| `Uf2.CheckBlock` | misc/firmware_uploader/firmware_uploader/uf2.py:56-87 | the checks of one block: magic numbers, payload size, and a number below the total |
| `Uf2.Assemble` | misc/firmware_uploader/firmware_uploader/uf2.py:94-104 | the image is filled and overwritten in address order |
| `Uf2.SortedAddresses` | misc/firmware_uploader/firmware_uploader/uf2.py:94 | the addresses sorted |
| `DhcpLeases.ExpiryExact` | source/zc95/RemoteAccess/dhcpserver.c:221-222 | the 16-bit expiry test is exact within the signed 32-bit window: more than 24 hours and a rounding of at most 65535 ms |
| `DhcpLeases.ExpiryBounds` | source/zc95/RemoteAccess/dhcpserver.c:263 | never before 24 hours, always after 24 hours and 65535 ms |
| `DhcpLeases.SearchKeeps` | source/zc95/RemoteAccess/dhcpserver.c:209-228 | the search only clears expired entries, never the client's own |
| `DhcpLeases.RecordedOffered` | source/zc95/RemoteAccess/dhcpserver.c:210-214 | a client in the table is always offered its recorded address |
| `DhcpLeases.FreeOffered` | source/zc95/RemoteAccess/dhcpserver.c:215-232 | others get the first free or expired entry; none only if there is none |
| `DhcpLeases.Server.Discover` | source/zc95/RemoteAccess/dhcpserver.c:207-236 | the DISCOVER branch |
| `DhcpLeases.Server.Request` | source/zc95/RemoteAccess/dhcpserver.c:238-270 | the REQUEST branch: acknowledged exactly if it names this subnet and an entry of the pool that is the client's own or nobody's; the entry is then the client's with the expiry of now, and all others stay |
| `DhcpLeases.HeldUntilCleared` | source/zc95/RemoteAccess/dhcpserver.c:207-270 | over any run an entry stays with its holder until a DISCOVER finds it expired |
| `DhcpLeases.GrantedInThePast` | source/zc95/RemoteAccess/dhcpserver.c:263 | over any run every lease was granted in the past |
| `DhcpLeases.NeverTwoHolders` | source/zc95/RemoteAccess/dhcpserver.c:207-270 | with a clock that does not run backwards, an address goes to another client only after a DISCOVER found the lease expired, more than 24 hours after it was last granted |
| `DhcpLeases.OfferAcknowledged` | source/zc95/RemoteAccess/dhcpserver.c:207-270 | over any run, what a DISCOVER offers a client is acknowledged to its REQUEST, unless another client is granted it in between |
| `DhcpLeases.OfferThenRequest` | source/zc95/RemoteAccess/dhcpserver.c:207-270 | the server itself: whoever is offered an address and asks for it has it, its lease beginning anew; a client in the table gets the address it has |
| `SavedSettings.Settings.Save` | source/zc95/CSavedSettings.cpp:63-77 | cells are written in order; every state on the way is new up to a cell and old behind it |
| `SavedSettings.Settings.EepromInitialise` | source/zc95/CSavedSettings.cpp:658-720 | every state on the way that reads as initialised is untouched or complete |
| `SavedSettings.Settings.Load` | source/zc95/CSavedSettings.cpp:32-56 | an uninitialised EEPROM ends complete, an initialised one is left alone |
| `SavedSettings.NeverHalfInitialised` | source/zc95/CSavedSettings.cpp:32-56 | however often it is cut short, a blank EEPROM never reads as initialised before it is |
| `ZeroCross.CrossBounds` | source/zc95/AudioInput/CAudio3Process.cpp:181-200 | the interpolated crossing lies within the sample interval |
| `ZeroCross.CrossOnLine` | source/zc95/AudioInput/CAudio3Process.cpp:196-199 | it is the zero of the straight line, rounded down |
| `ZeroCross.OutputLevel` | source/zc95/AudioInput/CAudio3Process.cpp:153-178 | the level is at most 1000, and covers the largest deviation below that |
| `ZeroCross.SpacedApart` | source/zc95/AudioInput/CAudio3Process.cpp:125-141 | any two pulses are more than 2666 us apart |
| `ZeroCross.Audio3Process.ProcessSample` | source/zc95/AudioInput/CAudio3Process.cpp:110-147 | which samples cause a pulse and when; the unsigned difference never underflows |
| `ZeroCross.Audio3Process.ProcessSamples` | source/zc95/AudioInput/CAudio3Process.cpp:53-108 | a capture within 6 of the zero point changes nothing; any other causes the pulses of `CausedIs`, all with 8 times the largest deviation as their level, up to 1000 |
| `ZeroCross.CausedIs` | source/zc95/AudioInput/CAudio3Process.cpp:53-147 | from the samples: every new pulse is a crossing (a sample below the zero point after one that is not, two in that direction on a low-frequency signal) of the straight line, 25 ms later; and every crossing has a pulse at it or at most 2666 us before it |
| `ZeroCross.BelowIs` | source/zc95/AudioInput/CAudio3Process.cpp:66-88 | a signal is of low frequency if the samples not above the zero point differ in number from the others by more than 50 |
| `PulseStream.OnlyItsChannel` | misc/PythonBle/lib/ZcBle.py:19-27 | a channel's mask selects both polarities of that channel and no other |
| `PulseStream.UnpackPack` | misc/PythonBle/lib/ZcBle.py:29-30 | packing is undone by the receiver's structure |
| `PulseStream.PacketBytes` | misc/PythonBle/lib/ZcBle.py:29-30 | where each field of a message lies in a packet, byte by byte |
| `PulseStream.ReadAsQueued` | source/zc95/RemoteAccess/CBtGatt.cpp:510-513 | the receiver reads each message of a packet as it was queued |
| `PulseStream.PulseQueue.SendPulses` | misc/PythonBle/lib/ZcPulseQueue.py:25-38 | a packet of 4 + 16 k bytes, at most 228, with count k and the packet number |
| `PulseStream.PulseQueue.AddToOutboundQueue` | misc/PythonBle/lib/ZcPulseQueue.py:41-49 | every pulse is queued once; a full queue is sent |
| `PulseStream.PulseQueue.SendIfOld` | misc/PythonBle/lib/ZcPulseQueue.py:19-22 | pulses that are due soon do not wait |
| `PulseStream.Receiver.ProcessPacket` | source/zc95/RemoteAccess/CBtGatt.cpp:458-533 | a packet of the wrong size is refused; otherwise the start time and the queues are those after its messages in order, each at its own time; packets received and missing are counted, and counted anew exactly when more than a second has passed since the last report |
| `PulseStream.Receiver.ProcessPulse` | source/zc95/RemoteAccess/CBtGatt.cpp:535-575 | a pulse that is late or stronger than 1000 changes no queue; any other is added to each queue that has room and that one of its two mask bits selects, with the widths of exactly the polarities selected |
| `PulseStream.QueuedIs` | source/zc95/RemoteAccess/CBtGatt.cpp:458-575 | over any messages, on time or not: a queue gains exactly the first of the pulses that are in time, not too strong and for its channel, in order, until it holds 50 |
| `PulseStream.StartIs` | source/zc95/RemoteAccess/CBtGatt.cpp:517-523 | times count from when the last start message was handled |
| `PulseStream.DeliverAll` | source/zc95/RemoteAccess/CBtGatt.cpp:458-533 | if none is lost every pulse appears once and in order, and none counts as missing |
| `PulseStream.QueuedForTheirChannels` | source/zc95/RemoteAccess/CBtGatt.cpp:535-575 | pulses that are on time and find room are queued in order, each for its own channel only, with its own widths and level |
| `PulseStream.StartStream` | misc/PythonBle/lib/ZcBle.py:151-160 | the start message makes its time the start and its packet the reference; received packets are counted on over it, itself included, unless they are just reported |
| `PulseStream.Deliver` | source/zc95/RemoteAccess/CBtGatt.cpp:458-533 | any of the packets of a sender, lost in runs below 256: exactly their pulses are seen, in order; received and missing together are those sent since the counters were last reported, by the readings of the clock |
| `PulseStream.ReportedIfLate` | source/zc95/RemoteAccess/CBtGatt.cpp:490-508 | the counters are reported exactly if a packet comes more than a second after the last report |
| `PulseStream.FromStart` | source/zc95/RemoteAccess/CBtGatt.cpp:458-533 | since the start message: received and missing add up to the packets sent after it if and only if the counters were reported with it and not since; and to those with it if and only if none was received before and there was no report |
| `PulseStream.StartedTwice` | source/zc95/RemoteAccess/CBtGatt.cpp:515-523 | a stream started twice in the first second counts two packets, with none sent |
| `PulseStream.ReportedBetween` | source/zc95/RemoteAccess/CBtGatt.cpp:490-508 | a pulse more than a second after the start is not counted |
| `PulseStream.DeliverOnTime` | source/zc95/RemoteAccess/CBtGatt.cpp:458-575 | pulses of a sender that arrive on time and find room are in the queues of their own channels, in order, and in no other |
| `PulseStream.DeliverAny` | source/zc95/RemoteAccess/CBtGatt.cpp:458-575 | any packets that reach the receiver: every entry is of a pulse that was sent, in time, not too strong, with the widths its mask selects; and every such pulse has its entry unless the queue is full |
| `SerialFraming.SerialConnection.OnReceive` | source/zc95/RemoteAccess/CSerialConnection.cpp:93-139 | the receive machine, byte by byte |
| `SerialFraming.SerialConnection.Loop` | source/zc95/RemoteAccess/CSerialConnection.cpp:152-191 | a complete message is handed over, handled and answered; a reset stops what runs and makes a new processor |
| `SerialFraming.SerialConnection.Frame` | source/zc95/RemoteAccess/CSerialConnection.cpp:93-167 | a frame of at most 300 bytes is delivered, a longer one dropped, ready for the next either way |
| `SerialFraming.Stream` | source/zc95/RemoteAccess/CSerialConnection.cpp:93-167 | a stream of frames delivers exactly the messages that are not too long, in order; each is handled as its own text, with nothing of an earlier one, and answered once under its own number; all answers go out if and only if each was no longer than the free space it found |
| `SerialFraming.AfterReset` | source/zc95/RemoteAccess/CSerialConnection.cpp:169-190 | after a reset in any state a message of at most 300 bytes arrives unchanged if and only if no bytes of another were being received; otherwise with those bytes, or not at all if that is too long |
| `SerialFraming.ResetInMessage` | source/zc95/RemoteAccess/CSerialConnection.cpp:169-190 | a reset after one byte, which is then part of the next message |
| `SerialTiming.RunInputs` | source/zc95/RemoteAccess/CSerialConnection.cpp:93-191 | whatever bytes come in, and whenever the loop has its turn, the connection does what the machine does |
| `SerialTiming.RunStream` | source/zc95/RemoteAccess/CSerialConnection.cpp:93-191 | of a stream of frames, with turns of the loop anywhere, all messages are taken if and only if none begins while another waits for the loop |
| `SerialTiming.SecondLost` | source/zc95/RemoteAccess/CSerialConnection.cpp:93-191 | of two frames without a turn between them the second is lost |
| `Transmission.Send` | source/zc95/RemoteAccess/CSerialConnection.cpp:193-211 | a text goes out as one whole frame, or not at all if it is longer than the free space of the queue |
| `Transmission.Transmit` | source/zc95/RemoteAccess/CSerialConnection.cpp:95-102 | the interrupt handler sends some of the queue, in order |
| `Transmission.Flush` | source/zc95/RemoteAccess/CSerialConnection.cpp:173 | everything queued goes out before a reset |
| `Transmission.TooLongToSend` | source/zc95/RemoteAccess/CSerialConnection.cpp:198-203 | a text of 2001 bytes is dropped even if the queue is empty |
| `Protocol.Outbox.SendText` | source/zc95/RemoteAccess/CSerialConnection.cpp:193-211 | what is handed to send is gone, whole and in order, exactly if it fits |
| `Protocol.AllAnswersGone` | source/zc95/RemoteAccess/CSerialConnection.cpp:193-211 | all answers go out if and only if each was no longer than the free space it found; otherwise fewer, none in part |
| `Protocol.Outbox.AnswerLost` | source/zc95/RemoteAccess/CSerialConnection.cpp:193-211 | pattern details in 2001 bytes are never sent, and the processor counts them as an answer |
| `RoutineRunning.RoutineRun.Process` | source/zc95/RemoteAccess/CRoutineRun.cpp:75-152 | each message to the runner is answered once, the start followed by power levels nobody asked for; which messages it accepts, and for each of them what the other core is told |
| `RoutineRunning.RoutineRun.Loop` | source/zc95/RemoteAccess/CRoutineRun.cpp:154-199 | what the runner reports by itself answers no message |
| `RoutineRunning.RoutineRun.Destroy` | source/zc95/RemoteAccess/CRoutineRun.cpp:64-73 | nothing runs, and no channel has power |
| `MessageProcessing.MessageProcessor.constructor` | source/zc95/RemoteAccess/CMessageProcessor.cpp:34-45 | nothing pending, no loader and no runner |
| `MessageProcessing.MessageProcessor.Destroy` | source/zc95/RemoteAccess/CMessageProcessor.cpp:47-68 | what runs is stopped |
| `MessageProcessing.MessageProcessor.TakeMessage` | source/zc95/RemoteAccess/CMessageProcessor.cpp:73-111 | taken in, or answered with an error at once, under its own number if it can be read |
| `MessageProcessing.MessageProcessor.SetState` | source/zc95/RemoteAccess/CMessageProcessor.cpp:113-170 | loader and runner exist exactly in their own states; the runner stops what runs when it goes |
| `MessageProcessing.MessageProcessor.LoaderMessage` | source/zc95/RemoteAccess/CMessageProcessor.cpp:218-225 | a message to the loader: the upload goes on exactly after an OK that does not end it |
| `MessageProcessing.MessageProcessor.RunnerMessage` | source/zc95/RemoteAccess/CMessageProcessor.cpp:226-233 | a message to the runner: after a stop, or a start that fails, nothing runs and no channel has power; after any other the runner stays |
| `MessageProcessing.MessageProcessor.OwnMessage` | source/zc95/RemoteAccess/CMessageProcessor.cpp:234-259 | a message the processor answers itself: with what, and when it succeeds |
| `MessageProcessing.MessageProcessor.Dispatch` | source/zc95/RemoteAccess/CMessageProcessor.cpp:208-259 | one answer, of the kind and under the number that belong to the message; the next state, case by case, and that nothing runs outside its own state; the only slot that may change; a start in the middle of an upload leaves the previous script or none |
| `MessageProcessing.MessageProcessor.StartLoad` | source/zc95/RemoteAccess/CMessageProcessor.cpp:209-225 | the start of an upload, in any state: when it succeeds, and that flash is untouched |
| `MessageProcessing.MessageProcessor.StartRoutine` | source/zc95/RemoteAccess/CMessageProcessor.cpp:213-233 | the start of a routine, in any state; an upload it interrupts leaves the previous script or none |
| `MessageProcessing.MessageProcessor.Loop` | source/zc95/RemoteAccess/CMessageProcessor.cpp:190-270 | the pending message is handled as a C string with nothing of earlier ones, and answered once, with this kind and number; the next state, case by case; a stop is acknowledged and nothing runs after it |
| `MessageProcessing.MessageProcessor.PowerFails` | source/zc95/RemoteAccess/CLuaLoad.cpp:25-31 | power failing loses the upload, not the slots |
| `MessageProcessing.MessageProcessor.Upload` | source/zc95/RemoteAccess/CLuaLoad.cpp:86-240 | a whole upload: what reads back after OK, what is there after an error, and exactly when it is acknowledged |
| `MessageProcessing.Converse` | source/zc95/RemoteAccess/CMessageProcessor.cpp:73-270 | over any messages and turns of the loop, in any order, every message is answered exactly once under its own number; loader, runner and running routine exist only in their own states; after a stop is handled nothing runs until the next start |

## Left out

- Hardware access: I2C and SPI drivers, UART, PIO, DMA, ADC, DAC, GPIO, timers, and the libraries behind XMODEM, SD card, lwIP, btstack, ArduinoJson and Lua.
- Floating-point rounding; the sizes 1 and 2 of the transforms, for which the recursion has no base case; strides of the output other than 2, which no caller uses.
- `removeDC` and `hammingWindow` of the transform: single loops over the input.
- EspFft.EspFft.constructor: takes cosine and sine as functions with the laws of a root of unity instead of computing them, and is given its buffers.
- Base64.DecodeInto: counts symbols without the limits of `size_t`, that is for texts shorter than 2^32 / 6 bytes.
- FirmwareUpdate.AlwaysSound: requested firmware is assumed proper as described above, a backup file is written completely or an error is reported, and a full SD card is not modelled.
- FirmwareUpdate.Board.BackupZc624: assumes that the last byte of the flash is blank; beyond it the source would read past the firmware region.
- BlockLink.Bootloader.MainLoop: the register that launches the firmware, and a second transfer in one boot.
- BlockLink.ClearFirmware: the polling and its timeout are one turn of the main loop.
- Downloading a firmware to SD card, the menus and the API of the boot loader, progress text and LEDs.
- The choice of a matching zc624 firmware from the SD card by version.
- LuaUpload.LuaLoad.End: validation is an arbitrary predicate on the script's text; a crash inside the erase and program of one section is not modelled.
- MessageProcessing.MessageProcessor.OwnMessage: what is in a list, a pattern's details or the version; of the error texts only that there is an error.
- RoutineRunning.RoutineRun.Loop: when power levels count as changed; notices of script output and of menu changes that a script makes, which answer no message.
- LinkedChannels.Output.Loop: power, calibration and the LED of a channel; the delay of a follow-up is computed exactly and rounded down.
- Uf2.Uf2ToBinBytes: error texts; `extract_firmware_info` reads fixed fields and is left out.
- DhcpLeases.Server.Discover: parsing of options and the layout of replies.
- DhcpLeases.NeverTwoHolders: beyond 24 hours and 2^31 ms without a DISCOVER the difference wraps and the test can again say not expired.
- SavedSettings.Settings.Load: the layout of the settings and the reaction to a device that does not answer.
- ZeroCross.Audio3Process.ProcessSamples: the computation of sample times from the capture; they are given, strictly increasing.
- PulseStream.Receiver.ProcessPacket: debug counters other than received and missing packets, and the 32 bits of these two; the core that takes pulses from the queues.
- SerialFraming.SerialConnection.Loop: bytes that arrive while a reset is carried out.
- Transmission.Put: whether the interrupt handler comes at all while a send waits for it.
- Bluetooth pairing, WiFi, web server, display, hardware check, front panel, battery gauge, rotary encoder, `csv_convert.py`: one-branch register access or plumbing over libraries.
