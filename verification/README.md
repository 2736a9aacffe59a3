# STM32 download: bootloader client, ST-LINK flasher and Intel HEX decoder in Dafny

This project is a Dafny model of the three engines of a browser-based STM32
flashing tool, together with proofs about them:

- **The USART bootloader client** (`UARTISP`, the protocol of ST application
  note AN3155). It covers:
  - the sync-byte handshake with its retry budget;
  - Get ID;
  - mass erase;
  - Write Memory, with its XOR-checksummed address and data blocks;
  - the `downloadBin` loop, which writes 256-byte chunks at
    `baseAddress + offset` and reports progress after each one.
- **The ST-LINK flasher** (`STLink`). Every command goes out as a frame
  zero-padded to 16 bytes. The model covers:
  - the fixed debug commands and the little-endian SWD frequency command;
  - the word-aligned memory write, sent as 128-byte sub-chunks in 16-byte
    packets;
  - the `downloadBin` sequence: version, SWD, force debug, frequency, halt,
    erase, chunk writes, then reset.
- **The Intel HEX decoder** (`hexToBin`). It splits the text into lines,
  trims them, decodes the records and applies the extension records. It then
  lays the bytes out as one image between a running minimum and maximum of
  the addresses written, with the gaps filled with 0xFF. The running minimum
  starts at 0xFFFFFFFF and the maximum at 0, so the image spans the lowest to
  the highest address written only when those start values do not win (see
  Findings for the case where they do).

Time is taken out of the model:

- The serial port (`SerialLink.Link`) is a script of what successive
  single-byte reads observe: a byte, a timeout, or a hang-up. It also keeps
  the trace of every byte written. A timeout (`Silence`) stands for reads
  that return nothing usable until the deadline has passed; a line on which
  the pending read never returns is not modelled (see Left out).
- The ST-LINK probe (`ProbeLink.Probe`) is a queue of reply packets and the
  list of frames sent.
- The progress callback is a function `(written, total) -> bool`. It returns
  true when the callback throws, which cancels the download.
- Both download loops are one generic function, `Download.Drive`, over the
  link type and the chunk writer. The properties common to both are proved
  once, about `Drive`.

Each protocol operation is a pure function from a link to a result and the
link afterwards. Its contract says which bytes were sent and which replies
were consumed. For the single exchanges (a read, an ACK wait, one Get ID
exchange, erase, Write Memory) and for the download loops it also says
when the operation succeeds, in both directions. The two retry loops are
characterised by lemmas instead: `handshake` by the attempt on which it
succeeds, stops or gives up, and `getChipId` against the reference run of
back-to-back Get ID exchanges, `UartIsp.Attempts`.

Every encoder has a decoder partner, and the round trip is proved:

- the bootloader's view of a Write Memory frame;
- the probe's view of a memory write;
- the record parser's view of an encoded HEX line;
- the line splitter against line joining.

Points of the code's behaviour worth knowing, all modelled as written:

- `eraseAll` sends `0xFF` and then its complement `0x00`.
- `getChipId` retries after any error, a disconnection included;
  `handshake` stops early on a disconnection.
- `handshake` reports a disconnection on its last attempt as exhaustion.
- The HEX base address is a signed 32-bit value when the linear extension is
  0x8000 or more (see Findings).

The modules are:

- `Seqs`, `Bytes`, `Results` and `Chunking`: shared definitions.
- `SerialLink`, `UartIsp` and `UartDownload`: the USART client.
- `ProbeLink` and `StLink`: the ST-LINK flasher.
- `Download`: the shared chunking loop.
- `IntelHex`: the decoder.

## Model

| member | source | states |
|---|---|---|
| Bytes.CalculateChecksum | uart_isp.js:55-61 | the XOR loop computes the left fold of XOR over the data starting from 0, and 0 for no data |
| Bytes.ChecksumSeals | uart_isp.js:312-331 | a block followed by its checksum XORs to zero, the check the bootloader applies to each block |
| Bytes.ChecksumAppend | uart_isp.js:327-330 | the checksum of a concatenation is the XOR of the parts' checksums |
| Bytes.XorCancels | uart_isp.js:55-61 | XOR of two octets is symmetric, XORing the second operand again gives back the first, and the result is zero if and only if the operands are equal |
| Bytes.ChecksumOrderFree | uart_isp.js:55-61 | the checksum of two parts is the same in either order |
| Bytes.Complement | uart_isp.js:234 | an opcode's checksum `op ^ 0xFF` is its one's complement `255 - op` |
| Bytes.Be32RoundTrip | uart_isp.js:306-310 | the four big-endian address bytes decode back to the address modulo 2^32, for every integer address |
| Bytes.Be32OfDecode | uart_isp.js:306-310 | any four bytes are the big-endian encoding of the value they decode to, so the address encoding misses no byte pattern |
| Bytes.Le32RoundTrip | stlink.js:124-129 | the four little-endian bytes decode back to the value modulo 2^32 |
| Bytes.Le32Injective | stlink.js:124-129 | two values share a little-endian encoding if and only if they agree modulo 2^32 |
| SerialLink.Send | uart_isp.js:64-72 | writing appends exactly the bytes to the trace and leaves the replies untouched |
| SerialLink.ReadByte | uart_isp.js:75-113 | a read yields the next byte and consumes it, or times out on a `Silence` event, or reports a disconnection that stays in place |
| SerialLink.ReadBytes | uart_isp.js:116-122 | `count` reads succeed if and only if the next `count` events all deliver bytes; the result is exactly those bytes, and they are consumed |
| UartIsp.Command | uart_isp.js:233-234 | a command is its opcode followed by a byte that XORs with it to 0xFF |
| UartIsp.WaitForAck | uart_isp.js:157-168 | success if and only if the next byte is ACK; NACK, another byte, a timeout and a disconnection each give their own error; nothing is sent |
| UartIsp.WaitForHandshakeResponse | uart_isp.js:125-154 | both ACK and NACK count as success; a disconnection is told apart from the retryable failures |
| UartIsp.Handshake | uart_isp.js:179-222 | at most `maxRetries` sync bytes are sent; the result is success, exhaustion or a fatal disconnection; no attempts means success with nothing sent |
| UartIsp.HandshakeSucceedsOnAttempt | uart_isp.js:182-202 | if attempts before `k` fail retryably and attempt `k` is answered, the handshake succeeds after exactly `k` sync bytes |
| UartIsp.HandshakeStopsOnDisconnect | uart_isp.js:203-215 | a hang-up on attempt `k` stops the retries there: fatal before the last attempt, exhausted on it |
| UartIsp.HandshakeFrom | uart_isp.js:182-221 | from a given attempt on, at most one sync byte per remaining attempt is sent; the result is success, exhaustion or a fatal disconnection; with no attempt left it returns normally with nothing sent |
| UartIsp.HandshakeExhausts | uart_isp.js:203-209 | a script of retryable events (`Silence` or a byte other than ACK and NACK) uses every attempt, one sync byte each, and the handshake fails |
| UartIsp.DefaultHandshakeGivesUp | uart_isp.js:179-209 | with the default budget, a script of ten retryable events costs exactly ten sync bytes and a handshake failure |
| UartIsp.GetIdAttempt | uart_isp.js:232-250 | one Get ID exchange succeeds if and only if the replies are ACK, a length L, L + 1 bytes and ACK; the result is those bytes |
| UartIsp.GetChipIdFrom | uart_isp.js:228-262 | from a given attempt on, at most one Get ID command per remaining attempt; a failure comes after every remaining command was sent and wraps an attempt's error; with no attempt left the result is undefined (`None`) |
| UartIsp.GetChipId | uart_isp.js:225-263 | at most `maxRetries` Get ID commands; an ID has 1 to 256 bytes; no attempts returns undefined (`None`); a failure comes after all `maxRetries` commands |
| UartIsp.GetChipIdSucceedsOnAttempt | uart_isp.js:228-250 | if exchanges before `i` fail and exchange `i` succeeds, `getChipId` returns exactly that exchange's bytes and stops after `i + 1` commands |
| UartIsp.GetChipIdFails | uart_isp.js:251-262 | `getChipId` fails if and only if every one of the `maxRetries` exchanges fails, whatever the error; the error wraps the last exchange's |
| UartIsp.GetChipIdFirstAttempt | uart_isp.js:228-250 | a complete first reply gives exactly its L + 1 ID bytes after one command |
| UartIsp.GetChipIdRetriesDisconnect | uart_isp.js:251-262 | a closed port does not stop the retries: every attempt sends its command before the failure |
| UartIsp.MassErase | uart_isp.js:276-278 | the mass-erase parameter is 0xFF followed by its complement 0x00 |
| UartIsp.EraseAll | uart_isp.js:266-284 | erase succeeds if and only if both blocks are acknowledged; the parameter is sent only after the first ACK; a failure is the acknowledgement failure `waitForAck` raised |
| UartIsp.AddressBlock | uart_isp.js:305-314 | the address block is the four big-endian address bytes and a fifth byte, and the five XOR to zero |
| UartIsp.LengthByte | uart_isp.js:319-321 | the length byte is N - 1 for 1 to 256 bytes, and wraps to 0xFF for none |
| UartIsp.DataBlock | uart_isp.js:319-331 | the data block is the length byte, then the data, then one more byte, and the whole block XORs to zero |
| UartIsp.WriteMemory | uart_isp.js:287-335 | more than 256 bytes is refused before anything is sent; otherwise each block is sent only after the previous ACK; success if and only if all three ACKs arrive; a failure is an acknowledgement failure |
| UartIsp.WriteFrameRoundTrip | uart_isp.js:298-331 | for 1 to 256 bytes, the bootloader's decoding of the frame gives back the address modulo 2^32 and exactly the data |
| UartIsp.EmptyWriteIsMalformed | uart_isp.js:319-331 | an empty write sends the length byte 0xFF and no data, a frame the bootloader cannot accept |
| Chunking.Split | uart_isp.js:350-352 | the slicing loop's pieces are non-empty, at most `size` long, all full but the last, none for empty data, and together they are the data |
| Download.Plan | uart_isp.js:350-353 | chunk `i` starts at `baseAddress + size * i` and holds the next `min(size, n - size * i)` bytes; all chunks but the last are full; together they are the data |
| Download.ProgressOfPlan | uart_isp.js:350-361 | on 256-byte chunks, step `j` of the schedule writes the slice `data[256 j .. min(256 (j + 1), n)]` at `baseAddress + 256 j` and then reports `min(256 (j + 1), n)` out of `n`; the last report is `n`. The ST-LINK loop at stlink.js:248-254 runs the same schedule |
| Download.Drive | uart_isp.js:350-362 | the loop's actions are a prefix of write, report, write, report, ...; success if and only if the whole schedule ran and no report aborted; a report that aborts is the last action and gives `Cancelled` |
| UartDownload.DownloadBin | uart_isp.js:338-374 | the USART download follows the schedule of 256-byte chunks; it fails only on a cancellation or a missing ACK; empty data sends nothing |
| UartDownload.DownloadAcked | uart_isp.js:350-361 | if every block is acknowledged and nothing aborts, the link carries exactly the chunks' Write Memory frames in address order, and three ACKs per chunk are consumed |
| UartDownload.ProgressIncreases | uart_isp.js:357-361 | the reported byte counts strictly increase from one chunk to the next |
| UartDownload.NoWriteAfterAbort | uart_isp.js:359-361 | no chunk is written after a report on which the callback throws, and the download ends cancelled |
| ProbeLink.PadCmd | stlink.js:22-27 | a command shorter than 16 bytes is zero-filled to 16; a longer one is unchanged; the command is a prefix of the frame |
| ProbeLink.PadCmdIdempotent | stlink.js:22-27 | padding an already padded frame changes nothing |
| ProbeLink.PadCmdInjective | stlink.js:22-27 | two commands of equal length up to 16 give the same frame if and only if they are equal |
| ProbeLink.Send | stlink.js:91-95 | a bulk-out transfer appends the padded command to the frames sent and consumes no reply |
| ProbeLink.Receive | stlink.js:97-101 | a bulk-in transfer returns the next queued reply if and only if there is one |
| StLink.FixedFrames | stlink.js:103-155 | the version, SWD, force-debug, halt, reset and erase frames are their command bytes followed by zeros to 16 bytes, and no two are the same |
| StLink.SetFreqCmd | stlink.js:122-136 | the frequency command is 0xF2 0x43 followed by four bytes that decode to the frequency modulo 2^32 |
| StLink.DefaultFreqFrame | stlink.js:227 | the default 1.8 MHz goes out as the bytes 40 77 1B 00 after 0xF2 0x43, padded to 16 |
| StLink.EraseIsSetFreq | stlink.js:145-155 | the erase command equals the frequency command for a frequency if and only if that frequency is 0xFFFFFFFF modulo 2^32 |
| StLink.PadTo4 | stlink.js:159-163 | data is zero-padded to the next multiple of four bytes, with the data first |
| StLink.SubChunks | stlink.js:181-187 | the padded data is cut into sub-chunks of at most 128 bytes at `address + 128 * k`; each is a positive multiple of four bytes; together they are the padded data |
| StLink.HeaderFields | stlink.js:181-200 | a sub-chunk's write command is 0xF2 0x0D, the address modulo 2^32 and the byte count, both little-endian, padded to 16 |
| StLink.PacketsCarry | stlink.js:202-205 | a sub-chunk goes out as `ceil(n / 16)` packets of 16 bytes whose leading bytes are exactly the data |
| StLink.SendPackets | stlink.js:202-205 | the inner loop sends each packet as one padded frame, in order, and consumes no reply |
| StLink.SendSubChunks | stlink.js:178-207 | the outer loop sends, for each sub-chunk in order, its write command and then its packets, and consumes no reply |
| StLink.WriteMemory | stlink.js:158-209 | a memory write sends, for each sub-chunk, the write header and its 16-byte data packets, and consumes no reply |
| StLink.WriteMemoryRoundTrip | stlink.js:158-209 | the probe's parse of the frames of a write gives the sub-chunks at their addresses modulo 2^32, whose data together are the padded data and start with the data |
| StLink.Prepare | stlink.js:229-241 | without a reply to the version request only that request is sent; with one, the SWD, force-debug, frequency, halt and erase commands follow in that order |
| StLink.Flash | stlink.js:244-256 | the chunk loop follows the schedule of 256-byte chunks; it fails only by cancellation; the reset is sent if and only if the loop succeeded |
| StLink.DownloadBin | stlink.js:223-262 | the whole sequence: frames sent in order, success if and only if the probe answers and the loop completes, and failures are a disconnection or a cancellation |
| StLink.FlashCompletes | stlink.js:244-256 | with a callback that never throws, every chunk's frames are sent in address order, followed by the reset |
| StLink.DownloadCompletes | stlink.js:223-256 | with an answering probe and a callback that never throws, the frames are the version request, the set-up commands, every chunk's write and the reset |
| IntelHex.SplitLines | uart_isp.js:383-384 | the lines contain no line feed, there is at least one, and joined with line feeds they give back the text |
| IntelHex.SplitJoin | uart_isp.js:383-384 | splitting lines joined with line feeds gives back those lines |
| IntelHex.Trim | uart_isp.js:394 | trimming removes JavaScript white space from both ends only, and leaves the ends of the result non-blank |
| IntelHex.TrimFixed | uart_isp.js:394 | a line trims to itself if and only if it is empty or neither end is white space |
| IntelHex.Candidates | uart_isp.js:383-385 | a line is kept if and only if it starts with ':' after trimming |
| IntelHex.CandidatesOne | uart_isp.js:383-385 | a single line is kept exactly when it starts with ':' after trimming |
| IntelHex.CandidatesAppend | uart_isp.js:383-385 | the filter of a concatenation is the concatenation of the filters, so kept lines stay in their order |
| IntelHex.ParseRecord | uart_isp.js:397-399 | a record is read from count, address and type at columns 1, 3 and 7, with payload byte `i` at column `9 + 2i` |
| IntelHex.ParseEncoded | uart_isp.js:397-407 | parsing an encoded record gives back the fields the decoder reads, whatever the checksum byte, because the checksum is never verified |
| IntelHex.Put | uart_isp.js:409-412 | storing one byte keeps every stored address inside the running bounds |
| IntelHex.Place | uart_isp.js:406-413 | a data record adds exactly its address range, stores its bytes there, leaves other addresses unchanged and widens the bounds to cover it |
| IntelHex.Apply | uart_isp.js:401-451 | a data record places its bytes at the base plus its address; a two-byte type 02 or 04 record sets the segment or linear extension; every other record changes nothing |
| IntelHex.ApplyAll | uart_isp.js:393-452 | applying records keeps every placed address within the running minimum and maximum, and each bound is a placed address unless it still holds its start value (always, with unsigned addresses) |
| IntelHex.DecodeEncodedLines | uart_isp.js:393-452 | the loop over encoded lines gives the same state as applying their records in order |
| IntelHex.Step | uart_isp.js:393-395 | a line shorter than 11 characters after trimming changes nothing |
| IntelHex.DecodeEmpty | uart_isp.js:393-456 | nothing is placed if and only if no kept line is a data record with at least one byte |
| IntelHex.Layout | uart_isp.js:454-468 | no data is an error; otherwise the image runs from the lower bound to the upper bound and holds each placed byte at its offset, with 0xFF elsewhere |
| IntelHex.HexToBin | uart_isp.js:378-487 | decoding fails if and only if no data record carries a byte; otherwise the image starts at the running minimum, is maximum - minimum + 1 bytes long, holds every placed byte at its address minus the base, and holds 0xFF everywhere else |
| IntelHex.DecodeText | uart_isp.js:383-452 | a text of encoded records decodes to the state of applying those records in order, and its image is that state's layout |
| IntelHex.IntendedBounds | uart_isp.js:458-468 | with unsigned addresses, both the first and the last byte of the image are placed bytes |
| IntelHex.AsWrittenBounds | uart_isp.js:387-468 | as written, the image covers every placed byte; it starts at a placed byte unless its start is 0xFFFFFFFF, and ends at a placed byte unless its end is 0 |
| IntelHex.ToInt32 | uart_isp.js:404-405 | the shift result is a signed 32-bit value congruent to the exact product modulo 2^32 |
| IntelHex.BaseModes | uart_isp.js:404-405 | below a linear extension of 0x8000 the signed shift gives the exact base `linear * 2^16 + segment * 16`; from 0x8000 on it gives that base minus 2^32 |
| IntelHex.FlashImageText | uart_isp.js:397-407 | the three records of the example image encode to `:020000040800F2`, `:0400000001020304F2` and `:00000001FF`, one per line |
| IntelHex.FlashImageBase | uart_isp.js:378-487 | a linear extension of 0x0800 followed by four data bytes decodes to those four bytes at 0x08000000, under both arithmetics |
| IntelHex.HighImageAsWritten | uart_isp.js:404-405 | as written, a linear extension of 0x8000 and one byte at offset 0 give base -2^31 and an image of 2^31 + 1 bytes |
| IntelHex.HighImageText | uart_isp.js:404-405 | the example of the finding is the text `:020000048000` + `7A` then `:0100000000FF` |
| IntelHex.HighImageIntended | uart_isp.js:404-405 | with unsigned arithmetic the same text gives the one byte at 0x80000000 |

## Left out

- Timing is not modelled: delays, per-read deadlines and the 30 s and 5 s waits. A timeout is a `Silence` event in the read script.
- `SerialLink.ReadByte`: a `Silence` event stands for reads that return without a usable byte until the deadline has passed. The source checks the deadline only when `reader.read()` returns, so on a line that stays silent the pending read never returns and the source blocks for ever. The model has no such case: every read observes a byte, a timeout or a hang-up.
- `ProbeLink.Receive`: an empty reply queue stands for a `transferIn` that rejects because the device has gone away, and gives `Disconnected`. `transferIn` has no timeout, so on a probe that stays attached but never answers, the source's `getVersion` and so `downloadBin` block for ever. The model has no such case, and `StLink.Prepare` and `StLink.DownloadBin` inherit this: their outcomes assume every transfer either returns a reply or fails.
- `open`, `close`, `connect` and `disconnect` are left out: Web Serial and WebUSB device selection, interface claiming and endpoint discovery are host I/O.
- The `fetch` of the HEX file is left out. The decoder takes the text.
- Console logging is not modelled.
- Error messages are not modelled. The source tells errors apart by matching message text, such as "断开" for a disconnection; the model uses the constructors of `Results.Error`.
- `clearSerialBuffer` is not modelled. The script already lists what each read returns after the buffer was cleared.
- The "port not initialised" check at the start of each `handshake` attempt is left out, because the model always has a link. In the source its error is retryable: the message contains neither "断开" nor "null", so the attempt is retried until the budget runs out and the handshake then fails.
- The "null" match in `handshake`'s fatal-error test is left out. It catches runtime errors on a closed port, such as a call on a writer that `close()` set to null. The model cannot produce these because it always has a link; only a disconnection is fatal in the model.
- The missing-device checks in `send` and `receive` are left out for the same reason.
- A failing bulk-out transfer is not modelled: sends never fail, on the serial port or on the probe.
- `StLink.Prepare`: the contents of the version reply are ignored, as the source ignores them. Only whether a reply arrives is modelled.
- `UartDownload.DownloadBin`: a null progress callback is modelled as a callback that never throws. The log still records the reports it would have made.
- The `requestAnimationFrame` pause between chunks is left out. It only yields to the UI.
- The unused commands and constants are left out: GET, GO, read-out protection, RUNCORE, READCOREID, the vendor and product IDs, and the unused `addrBytes` and `lenBytes` of the ST-LINK write.
- `IntelHex.HexToBin`: the text must have hex digits wherever `parseInt` reads. The source would store `NaN` or a partial value for a malformed field; this is not modelled.
- `IntelHex.Trim`: JavaScript string lengths count UTF-16 code units, but Dafny characters are code points. The length test can differ for text outside the Basic Multilingual Plane.
- `IntelHex.HexToBin`: the allocation limit of `ArrayBuffer` is not modelled. An image too large to allocate is returned as a sequence.
- `UartDownload.DownloadBin`: `writeMemory` is never called with an empty chunk here. `UartIsp.EmptyWriteIsMalformed` records what an empty write would send.

## Findings

| source | as written | input that shows it | evidently intended | confidence | as-written member | corrected member |
|---|---|---|---|---|---|---|
| uart_isp.js:404-405 | `extendedLinearAddress << 16` is a signed 32-bit shift, so an extension of 0x8000 or more gives a negative base. The running maximum starts at 0, so the image stretches from that negative base up to address 0 | `:020000048000` + `7A` then `:0100000000FF`: one byte at 0x80000000 | the byte at base 0x80000000 with size 1, using unsigned addresses and bounds taken from the addresses written | not executed | IntelHex.HighImageAsWritten | IntelHex.HighImageIntended |
