# anytone-emu, modelled in Dafny

anytone-emu stands in for a handheld radio on a serial link. The vendor's
codeplug programming software (CPS) talks to it as it would to real hardware.
The emulator frames the CPS requests out of the receive buffer and answers
from a model's ROM. It records what the CPS writes as codeplug images. It can
then dump those images, diff them, and annotate them with a codeplug pattern.

This project models the byte-level and sequential parts of that system:

- the AnyTone wire codec (`lib/anytoneprotocol.cc`) and the AnyTone session
  handler (`plugins/anytone/device.cc`);
- the Rust rewrite's reply encoder, DJ-MD5X memory table, rotating hex dump
  writer and prefix matcher (`src/response.rs`, `src/djmd5x.rs`,
  `src/hexwriter.rs`, `src/main.rs`);
- the MD-32UV, Radtel and OpenGD77 framers and encoders;
- the segment ROM (`lib/modelrom.cc`), the codeplug image
  (`lib/image.cc`) and the per-session image collector (`lib/model.cc`);
- bit-addressed arithmetic (`lib/offset.cc`);
- hex dump and diff building (`lib/hexdump.cc`) and image differences
  (`lib/imagedifference.cc`);
- the pattern tree (`lib/pattern.cc`) and the annotator (`lib/annotation.cc`).

Each source file is one module. Parts of the source that change state in
place are classes with `modifies` clauses: the device, the ROM, the image,
the collector, the hex writer and the pattern containers. Each of their
methods is specified by a pure function on the old state. Framers are pure
`Parse` functions that give the request and the number of bytes consumed. A
`FromBuffer` method (with the checksum loop where the source has one) is
proved equal to `Parse`. Encoders are `Encoding` functions, and `Serialize`
methods append an encoding to a buffer. Loops are `while` loops with their
invariants. Bytes are `byte` (0..255), and 16- and 32-bit words are `u16` and
`u32`. Where the source truncates or wraps, the model does so explicitly.

The model follows the code where it departs from the protocol's documented
behaviour:

- A DeviceInfo request (0x02) consumes up to seven bytes, not one.
- An AnyTone write takes its payload length from the length byte; it is not
  fixed at 16 bytes. The C++ reply to a DeviceInfo request is 4 bytes plus
  the model and version lengths, not a fixed 16 bytes.
- The C++ handler never enters an Error state. A request that is not
  allowed in the current state gets no reply and changes nothing. END
  returns the handler to Initial.
- The C++ read reply carries a length byte and a checksum. The Rust read
  reply has neither.

## Model

| member | source | states |
|---|---|---|
| BufferMatch.BufferMatchString | src/main.rs:9-19 | true exactly when the pattern is a prefix of the buffer: false when the buffer is shorter, and the empty pattern always matches |
| RustResponse.ProgramOkResponse | src/response.rs:18-23 | a ProgramOk response whose packet is exactly "QX" followed by ACK |
| RustResponse.DeviceInfoResponse | src/response.rs:25-38 | always 16 bytes: "ID", then the first min(6, model length) model bytes at offset 2 and version bytes at offset 9, zeros elsewhere, ACK at offset 15 |
| RustResponse.ReadResponse | src/response.rs:40-53 | min(16, payload length) + 6 bytes: 'W', the address big-endian at 1-4 (it reads back), the payload truncated to 16 bytes from offset 5, ACK last |
| RustResponse.ReadReplyEncodersDiffer | src/response.rs:43-47 | for the same read, the C++ reply is two bytes longer than the Rust one and has the length byte at offset 5; the header, the payload and the final ACK agree |
| Djmd5x.ModelId | src/djmd5x.rs:18-20 | the model identifier is "JMD5X" and a zero byte |
| Djmd5x.VersionId | src/djmd5x.rs:22-24 | the version identifier is "V100" and two zero bytes |
| Djmd5x.ReadDomain | src/djmd5x.rs:26-62 | a read succeeds exactly for 16-aligned addresses from 0x02fa0000 to 0x02fa00f0 and returns 16 bytes; every other address is an unknown-address error |
| Djmd5x.DJMD5X.constructor | src/djmd5x.rs:10-14 | the handler keeps the writer it is given (or none) |
| Djmd5x.DJMD5X.Write | src/djmd5x.rs:64-69 | without a writer it fails with NoWriter; otherwise it succeeds exactly when the writer's separator write (if one is needed) and line write succeed, and then the file grows by the separator and the block's data line and the next expected address is the address plus 16 (mod 2^32); on failure the writer's I/O error is passed on, the expected address is kept, and a separator already written stays in the file; the counter and file name never change |
| Djmd5x.DJMD5X.End | src/djmd5x.rs:71-76 | without a writer it succeeds and does nothing; otherwise it resets the writer once (the file counter goes up by one) and passes on its result: on success the writer names the next file and its output is empty, on an I/O error file name and output are unchanged; the current address is kept either way |
| HexWriterModel.HexRoundTrip | src/hexwriter.rs:41 | a number below 16^width, written as width hex digits, reads back as the same number |
| HexWriterModel.DecimalRoundTrip | src/hexwriter.rs:15 | a zero-padded decimal numeral reads back as its number, and is exactly width digits when the number fits |
| HexWriterModel.FileNameLayout | src/hexwriter.rs:30 | a dump file name is the prefix, the counter as four decimal digits, then ".hex" |
| HexWriterModel.Separator | src/hexwriter.rs:38 | the separator line is 56 dashes and a newline |
| HexWriterModel.ColumnsAt | src/hexwriter.rs:40 | byte i of a data line's columns is a space and then its two hex digits |
| HexWriterModel.DataLineLayout | src/hexwriter.rs:40-41 | a data line for 16 bytes is 59 characters: the address in 8 hex digits (it reads back), ":  ", each byte's two hex digits (each reads back), and a newline |
| HexWriterModel.HexWriter.constructor | src/hexwriter.rs:17-23 | the writer that HexWriter::new builds has counter 0, current address 0, the file prefix followed by "0000.hex", and an empty file |
| HexWriterModel.HexWriter.Create | src/hexwriter.rs:14-24 | when the first file cannot be created the result is an I/O error; otherwise a fresh writer with counter 0, current address 0, the file prefix followed by "0000.hex", and an empty file |
| HexWriterModel.HexWriter.Reset | src/hexwriter.rs:28-34 | the counter goes up by one; on success a new empty file is named after the new counter, and on an I/O error the file is unchanged |
| HexWriterModel.HexWriter.Write | src/hexwriter.rs:36-44 | succeeds exactly when the separator write (needed when the address is not the current one) and the line write succeed; then the file grows by the separator and the data line, and the current address becomes the address plus 16 (mod 2^32). A failed separator write leaves the file unchanged; a failed line write leaves the separator in the file; either failure keeps the current address |
| Model.ImageCollector.constructor | lib/model.cc:10-14 | a new collector has no images |
| Model.ImageCollector.First | lib/model.cc:27-32 | null exactly when there are no images, otherwise the first image |
| Model.ImageCollector.Last | lib/model.cc:34-39 | null exactly when there are no images, otherwise the last image |
| Model.ImageCollector.Previous | lib/model.cc:41-46 | null exactly when there are fewer than two images, otherwise the one before the last |
| Model.ImageCollector.Read | lib/model.cc:49-53 | a read always fails and returns no data |
| Model.ImageCollector.Write | lib/model.cc:55-63 | succeeds exactly when there is an image; the last image then gets the data appended (as Image::append does) and is non-empty, and the other images keep their bytes (WroteLast) |
| Model.ImageCollector.StartProgram | lib/model.cc:66-74 | adds a fresh empty image after the existing ones unless the last image is already empty, in which case nothing changes; afterwards the last image is empty, earlier images keep their bytes (Started), and the only new object is the new image |
| Model.ImageCollector.EndProgram | lib/model.cc:76-82 | reports an image received exactly when the last image exists and is non-empty |
| AnytoneProtocol.Parse | lib/anytoneprotocol.cc:28-60 | never consumes more than the buffer; consumes nothing when it finds no request; only a write can fail its checksum |
| AnytoneProtocol.Crc8 | lib/anytoneprotocol.cc:6-11 | the checksum is the sum of all bytes modulo 256 |
| AnytoneProtocol.FromBuffer | lib/anytoneprotocol.cc:28-60 | returns Parse's request and leaves the buffer minus exactly the bytes Parse consumes; reports a checksum mismatch but still returns the request |
| AnytoneProtocol.Serialize | lib/anytoneprotocol.cc:135-197 | appends the reply's encoding to the buffer |
| AnytoneProtocol.ProgramAndEndFrames | lib/anytoneprotocol.cc:29-34 | "PROGRAM" gives a program request and consumes 7 bytes; "END" gives an end request and consumes 3 |
| AnytoneProtocol.DeviceInfoConsumesUpToSeven | lib/anytoneprotocol.cc:35-37 | a leading 0x02 gives a device-info request and consumes min(7, buffer length) bytes, more than one whenever more are there |
| AnytoneProtocol.ReadFrame | lib/anytoneprotocol.cc:38-42 | 'R' with at least 6 bytes gives a read of the big-endian address in bytes 1-4 and the length in byte 5, and consumes 6 |
| AnytoneProtocol.WriteFrame | lib/anytoneprotocol.cc:43-56 | 'W' waits while fewer than length + 8 bytes are there; then the payload is bytes 6 to 6 + length, length + 8 bytes are consumed, and the checksum is correct exactly when the byte after the payload is the sum of the address, length and payload bytes |
| AnytoneProtocol.UnknownLeavesBuffer | lib/anytoneprotocol.cc:59 | any other prefix, or an empty buffer, gives no request and consumes nothing |
| AnytoneProtocol.DeviceInfoSwallowsProgram | lib/anytoneprotocol.cc:35-37 | 0x02 followed by "PROGRAM" is framed as one device-info request that eats "PROGRA" and leaves only "M" |
| AnytoneProtocol.ReadReplyLayout | lib/anytoneprotocol.cc:171-181 | the read reply is 'W', the address big-endian (it reads back), the length byte, the payload, the checksum over address, length and payload, and ACK: 8 + length bytes |
| AnytoneProtocol.ReadReplyFramesAsWrite | lib/anytoneprotocol.cc:171-181 | a read reply with a payload under 256 bytes, framed by the same parser, is a write of the same address and payload with a correct checksum, consuming exactly the reply whatever follows it |
| AnytoneProtocol.FixedReplies | lib/anytoneprotocol.cc:135-197 | the program reply is "QX" and ACK; the write reply is ACK; the device-info reply is "ID", the model's first 6 bytes, a zero, the version's first 6 bytes and ACK |
| AnytoneDevice.AnyToneDevice.constructor | plugins/anytone/device.cc:10-25 | a new device is in Initial with empty buffers and no signals, and keeps its ROM, handler and identity |
| AnytoneDevice.NextState | plugins/anytone/device.cc:54-89 | the device is in Program after a request exactly when it was a program request, or the device was in Program and it was not END; in Initial exactly when it was END, or the device was in Initial and it was not a program request |
| AnytoneDevice.Reply | plugins/anytone/device.cc:54-89 | a program request is always answered with the program reply; any other reply is given only in Program; END is never answered; a read reply is for the requested address and carries at most the requested length; in Program a write is answered exactly when the collector has an image, with the write ACK |
| AnytoneDevice.ReadReplyIsRomContent | plugins/anytone/device.cc:65-73 | in Program a read is answered exactly when a ROM segment starts at the address and holds the requested length, and the reply then carries that segment's first bytes |
| AnytoneDevice.Emitted | plugins/anytone/device.cc:56-85 | start-program is emitted exactly for a program request from Initial, end-program exactly for END from Program, and image-received exactly when END from Program finds the last image holding data |
| AnytoneDevice.AnyToneDevice.HandleProgram | plugins/anytone/device.cc:56-61 | enters Program from any state; the start-program signal fires, and the collector starts a session (Started), only when coming from Initial; otherwise the collector is untouched |
| AnytoneDevice.AnyToneDevice.HandleRead | plugins/anytone/device.cc:65-73 | replies with a read reply of the ROM data when the ROM holds the range, and gives no reply when the ROM read fails |
| AnytoneDevice.AnyToneDevice.HandleWrite | plugins/anytone/device.cc:74-78 | the write is appended to the collector's last image and the other images keep their bytes; a write ACK follows exactly when that write succeeds |
| AnytoneDevice.AnyToneDevice.HandleEnd | plugins/anytone/device.cc:79-85 | returns to Initial; only when coming from Program does the end-program signal fire, followed by image-received when the last image holds data |
| AnytoneDevice.AnyToneDevice.Handle | plugins/anytone/device.cc:54-89 | the new state is NextState, the reply is Reply, the signals grow by Emitted (start-program only from Initial, end-program and image-received only from Program) and the collector changes as ImagesAfter says (a session start on PROGRAM from Initial, an append on WRITE in Program, nothing otherwise); spelled out: a program request always gets the program reply; END never gets a reply; outside Program, device-info, read and write keep the state and signals and get no reply; in Program a device-info gets the identity reply, a read the ROM data, and a write the ACK when the collector has an image |
| AnytoneDevice.AnyToneDevice.OnBytesWritten | plugins/anytone/device.cc:44-51 | drops exactly the accepted byte count (none when the interface reports an error) from the head of the transmit buffer; no byte is lost or reordered |
| AnytoneDevice.AnyToneDevice.Respond | plugins/anytone/device.cc:32-39 | the reply, new state, signals and collector are those of Handle (Reply, NextState, Emitted, ImagesAfter); the bytes sent plus the transmit buffer grow by exactly the encoding of the reply, if there is one |
| AnytoneDevice.AnyToneDevice.Transmit | plugins/anytone/device.cc:36-38 | serializing a reply and offering it to the interface extends sent-plus-pending bytes by exactly the reply's encoding |
| AnytoneDevice.AnyToneDevice.NextRequest | plugins/anytone/device.cc:32 | takes Parse's request off the receive buffer, removing exactly the consumed bytes; a request always consumes at least one byte |
| AnytoneDevice.AnyToneDevice.OnBytesAvailable | plugins/anytone/device.cc:28-41 | appends the incoming bytes and handles requests until none can be framed; the receive buffer that is left is a suffix of the input, and transmitted bytes only grow |
| Md32uvProtocol.Frame | lib/md32uvprotocol.cc:17-76 | never consumes more than the buffer |
| Md32uvProtocol.FromBuffer | lib/md32uvprotocol.cc:17-76 | always reports ok; returns Parse's request and removes exactly the bytes it consumes |
| Md32uvProtocol.SearchModel | lib/md32uvprotocol.cc:120-127 | the model name padded with zeros or truncated to exactly 7 bytes |
| Md32uvProtocol.Capped | lib/md32uvprotocol.cc:204-209 | the payload truncated to at most the cap |
| Md32uvProtocol.Serialize | lib/md32uvprotocol.cc:99-326 | always succeeds and appends the reply's encoding |
| Md32uvProtocol.CommandFrames | lib/md32uvprotocol.cc:20-36 | ACK consumes 1 byte; "PSEARCH", "PASSSTA", "SYSINFO" and "PROGRAM" each consume exactly 7 and give their request |
| Md32uvProtocol.ValueFrame | lib/md32uvprotocol.cc:37-43 | 'V' with at least 5 bytes consumes 5: a little-endian word at 1-2, then byte 3 and byte 4 |
| Md32uvProtocol.ReadFrames | lib/md32uvprotocol.cc:44-59 | 'G' and 'R' consume 6: flags at 1, field little-endian at 2-3 and length little-endian at 3-4, sharing byte 3 |
| Md32uvProtocol.WriteFrame | lib/md32uvprotocol.cc:60-68 | 'W' waits until length + 6 bytes are there, then consumes length + 6 with the payload from byte 6 |
| Md32uvProtocol.FillerAndLeftovers | lib/md32uvprotocol.cc:69-75 | a leading 0xff is dropped without a request; any other unknown byte is left in place |
| Md32uvProtocol.PartialFramesWait | lib/md32uvprotocol.cc:37-68 | a value frame of fewer than 5 bytes, and a read-info, read or write frame of fewer than 6 bytes, gives nothing and consumes nothing |
| Md32uvProtocol.SearchReplyLayout | lib/md32uvprotocol.cc:120-134 | the search reply is ACK and the model padded or truncated to exactly 7 bytes |
| Md32uvProtocol.ValueReplyLayout | lib/md32uvprotocol.cc:204-217 | the value reply is 'V', the field, the payload length capped at 255, and the capped payload |
| Md32uvProtocol.ReadReplyLayout | lib/md32uvprotocol.cc:249-326 | read and read-info replies are 'W' or 'S', the flags, the field and the capped length little-endian, and the capped payload: 6 + length bytes |
| Md32uvProtocol.WriteReplyRoundTrip | lib/md32uvprotocol.cc:60-68 | with the length read from bytes 4-5, a read reply frames back as the write of the same flags, field and payload, consuming the whole reply |
| Md32uvProtocol.WriteReplyAsWrittenWaits | lib/md32uvprotocol.cc:60-68 | as written, the read reply for field 0x0100 with an empty payload is taken to announce a 1-byte payload, so the framer waits forever |
| RadtelProtocol.Parse | plugins/radtel/protocol.cc:28-81 | never consumes more than the buffer; a request comes only with ok and at least one byte consumed |
| RadtelProtocol.CheckCrc | plugins/radtel/protocol.cc:7-12 | true exactly when the last byte is the sum, modulo 256, of all bytes before it |
| RadtelProtocol.FromBuffer | plugins/radtel/protocol.cc:28-81 | returns Parse's request and ok flag, and removes exactly the bytes Parse consumes |
| RadtelProtocol.ReadAddress | plugins/radtel/protocol.cc:131-134 | the read address is the page times 1024 |
| RadtelProtocol.WriteAddressSplits | plugins/radtel/protocol.cc:158-161 | for a segment below 16 and a page below 0x4000, the write address holds the segment in its top byte and the page's read address below |
| RadtelProtocol.WriteAddressOverlap | plugins/radtel/protocol.cc:158-161 | page 0x4000 of segment 0 and page 0 of segment 1 have the same write address |
| RadtelProtocol.PagePayload | plugins/radtel/protocol.cc:190-197 | the payload zero-padded or truncated to exactly 1024 bytes |
| RadtelProtocol.Serialize | plugins/radtel/protocol.cc:179-208 | always succeeds and appends the reply's encoding |
| RadtelProtocol.ChecksumRange | plugins/radtel/protocol.cc:205 | the checksum loop computes the sum, modulo 256, of the given range |
| RadtelProtocol.RequestRoundTrip | plugins/radtel/protocol.cc:28-81 | every command and read request, and every write with a segment below 16 and a 1024-byte page, encoded with its checksum, is framed back as itself, consuming exactly its encoding whatever follows |
| RadtelProtocol.ShortFramesWait | plugins/radtel/protocol.cc:31-63 | an empty or short command, read or write frame gives no request, ok, and nothing consumed |
| RadtelProtocol.BadChecksumKeepsBuffer | plugins/radtel/protocol.cc:37-68 | a complete frame whose checksum fails gives no request, not ok, and nothing consumed |
| RadtelProtocol.UnknownDiscardsBuffer | plugins/radtel/protocol.cc:76-80 | an unknown first byte, or a valid command with an unknown code, gives not ok and clears the whole buffer |
| RadtelProtocol.AcceptedFrameSizes | plugins/radtel/protocol.cc:42-73 | every accepted frame has a correct checksum: commands consume 5 bytes, reads 4, and writes 1028 with a 1024-byte payload and a segment below 16 |
| RadtelProtocol.ReadReplyChecks | plugins/radtel/protocol.cc:190-208 | the read reply is 1028 bytes: 'R', the page big-endian, the page payload, and a checksum that checkCRC accepts |
| Opengd77Protocol.Sector | plugins/opengd77/protocol.cc:324-326 | the intended sector number from three bytes is below 2^24 |
| Opengd77Protocol.ParseCommand | plugins/opengd77/protocol.cc:50-78 | never consumes more than the buffer |
| Opengd77Protocol.ParseRead | plugins/opengd77/protocol.cc:240-256 | never consumes more than the buffer |
| Opengd77Protocol.ParseWrite | plugins/opengd77/protocol.cc:278-304 | never consumes more than the buffer |
| Opengd77Protocol.Parse | plugins/opengd77/protocol.cc:19-38 | never consumes more than the buffer |
| Opengd77Protocol.CommandFromBuffer | plugins/opengd77/protocol.cc:50-78 | the command decoder returns ParseCommand's request, ok flag and remaining buffer |
| Opengd77Protocol.ReadFromBuffer | plugins/opengd77/protocol.cc:240-256 | the read decoder returns ParseRead's request, ok flag and remaining buffer |
| Opengd77Protocol.WriteFromBuffer | plugins/opengd77/protocol.cc:278-304 | the write decoder returns ParseWrite's request, ok flag and remaining buffer |
| Opengd77Protocol.FromBuffer | plugins/opengd77/protocol.cc:19-38 | the top-level decoder returns Parse's request, ok flag and remaining buffer |
| Opengd77Protocol.Serialize | plugins/opengd77/protocol.cc:410-457 | always succeeds and appends the reply's encoding |
| Opengd77Protocol.DispatchEdges | plugins/opengd77/protocol.cc:21-37 | an empty buffer gives nothing and leaves ok unset; an unknown first byte gives not ok and consumes nothing |
| Opengd77Protocol.PartialFramesWait | plugins/opengd77/protocol.cc:53-56 | a command or write under 2 bytes, or a read under 8, waits with ok and nothing consumed |
| Opengd77Protocol.TwoByteCommands | plugins/opengd77/protocol.cc:61-69 | ping, the GPS-enable code and the four screen commands consume exactly 2 bytes and give their request, leaving ok unset |
| Opengd77Protocol.DisplayAndControlClear | plugins/opengd77/protocol.cc:144-212 | display and control consume the whole buffer and leave ok unset; their fixed bytes are read even when missing, in bounds exactly when 7 (display) or 3 (control) bytes are there, and then the request carries them |
| Opengd77Protocol.UnknownCodesClear | plugins/opengd77/protocol.cc:70-77 | an unknown command or write section gives not ok and clears the buffer |
| Opengd77Protocol.RequestRoundTrip | plugins/opengd77/protocol.cc:240-383 | read, write-data and write-sector requests, encoded, are framed back as themselves, consuming exactly their encoding |
| Opengd77Protocol.WriteDataTakesWhatArrived | plugins/opengd77/protocol.cc:372-383 | a write-data frame shorter than its announced length is taken at once with the bytes that are there, and the buffer is cleared |
| Opengd77Protocol.SetSectorFrame | plugins/opengd77/protocol.cc:318-331 | set-sector consumes min(5, buffer length) bytes and decodes the sector as the code does |
| Opengd77Protocol.SectorAsWrittenAgrees | plugins/opengd77/protocol.cc:323-326 | the code's sector equals the intended one when all three bytes are below 0x80 |
| Opengd77Protocol.SectorAsWrittenSignExtends | plugins/opengd77/protocol.cc:324-326 | as written, the bytes 00 00 80 give sector 0xffffff80 instead of 0x80 |
| Opengd77Protocol.SectorRoundTrip | plugins/opengd77/protocol.cc:324-326 | the corrected decoding recovers every sector number below 2^24 from its three bytes |
| Opengd77Protocol.ShortReplies | plugins/opengd77/protocol.cc:410-437 | the command reply is '-' on success and 'E' otherwise; the write reply is 'W' or 'X' and the section |
| Opengd77Protocol.ReadReplyLayout | plugins/opengd77/protocol.cc:450-457 | the read reply is 'R', the data length big-endian (mod 2^16) and the data |
| ModelRomModel.ContainsMeaning | lib/modelrom.cc:18-22 | a segment contains a range exactly when the range starts at or after the segment and ends within it |
| ModelRomModel.CoversAsWrittenOverruns | lib/modelrom.cc:64-66 | as written, 256 bytes at the start of a 16-byte segment pass the overwrite check, because the size is narrowed to 8 bits |
| ModelRomModel.CountBelowSplits | lib/modelrom.cc:60 | the lower bound splits the sorted segments into those starting below the address and those starting at or above it |
| ModelRomModel.WrittenSorted | lib/modelrom.cc:58-72 | a write keeps the segments sorted by start address |
| ModelRomModel.WrittenCount | lib/modelrom.cc:62-70 | the segment count stays the same exactly when a segment starting at the address covers the data or is empty; otherwise it goes up by one |
| ModelRomModel.OverwriteFits | lib/modelrom.cc:64-66 | an overwrite keeps the segment count and the segment's length, and puts the data at its start |
| ModelRomModel.LookupMeaning | lib/modelrom.cc:75-88 | a read succeeds exactly when a segment starts at the address and holds at least the length, and returns that segment's first bytes; it fails on an empty ROM |
| ModelRomModel.ReadBackFresh | lib/modelrom.cc:62-63 | data under 256 bytes written at an address where no segment starts reads back unchanged |
| ModelRomModel.RewriteLongerUnreadable | lib/modelrom.cc:67-70 | writing 4 bytes over a 2-byte segment at the same address adds a second segment, and reading the 4 bytes then fails |
| ModelRomModel.AdjacentWritesNotMerged | lib/modelrom.cc:60-63 | "abc" at 0x100 and "def" at 0x103 stay two segments, so a 6-byte read at 0x100 fails |
| ModelRomModel.WrittenAllSorted | lib/modelrom.cc:36-51 | writing another ROM's segments in order keeps the segments sorted |
| ModelRomModel.ModelRom.constructor | lib/modelrom.cc:29-33 | a new ROM has no segments |
| ModelRomModel.ModelRom.LowerBound | lib/modelrom.cc:60 | the binary search returns the first segment starting at or above the address |
| ModelRomModel.ModelRom.Write | lib/modelrom.cc:58-72 | the segments become Written of the old segments, and stay sorted (corrected, see ## Findings) |
| ModelRomModel.ModelRom.Read | lib/modelrom.cc:75-88 | returns Lookup of the segments and changes nothing |
| ModelRomModel.ModelRom.PlusAssign | lib/modelrom.cc:45-51 | the segments become those of the ROM with each of the other ROM's segments written in order |
| ModelRomModel.ModelRom.Plus | lib/modelrom.cc:36-43 | a fresh ROM holding this ROM with the other's segments written in order; this ROM is unchanged |
| ImageModel.DataAt | lib/image.cc:60-66 | an element's byte at an address exists exactly when the address lies inside the element, and is the byte at that offset |
| ImageModel.EqualityOperators | lib/image.cc:28-38 | Equal (operator==) holds exactly when address and data are equal, i.e. for identical elements, and NotEqual (operator!=) is its negation |
| ImageModel.Appended | lib/image.cc:68-72 | appending keeps the address, grows the data by the new bytes, keeps the old bytes as the prefix and puts the new ones after |
| ImageModel.FindInsertionIndexAsWrittenDiverges | lib/image.cc:131-146 | as written, the bisection never returns once the address equals an element's start inside the range |
| ImageModel.FindInsertionIndexAsWrittenHangs | lib/image.cc:139-145 | one element at 0x10 and the address 0x10: the bisection runs out of any fuel |
| ImageModel.FindInsertionIndex | lib/image.cc:131-146 | the corrected bisection returns the index between the elements starting at or below the address and those starting above it |
| ImageModel.FindInsertionIndexAgrees | lib/image.cc:131-146 | when no element starts at the address, the code's bisection terminates with the corrected index |
| ImageModel.InsertKeepsSorted | lib/image.cc:115-121 | inserting an element at its insertion index keeps the image sorted |
| ImageModel.FindPred | lib/image.cc:123-129 | the predecessor is absent exactly when the insertion index is 0; otherwise it is the last element starting at or below the address |
| ImageModel.AppendedImageMeaning | lib/image.cc:104-113 | append extends the predecessor, leaving every other element unchanged, exactly when the predecessor ends at the address; otherwise it inserts a new element at the insertion index; the image stays sorted |
| ImageModel.AppendedImageNonEmpty | lib/image.cc:104-113 | after an append the image has at least one element |
| ImageModel.Image.constructor | lib/image.cc:79-83 | a new image has no elements |
| ImageModel.Image.Data | lib/image.cc:95-102 | the byte comes from the element found before the insertion index, and is that element's byte at the address; for non-overlapping elements there is a byte exactly when some element covers the address, and it is that element's byte (corrected, see ## Findings) |
| ImageModel.ByteOf | lib/image.cc:95-102 | a byte found is the byte of some element that covers the address |
| ImageModel.ByteOfMeaning | lib/image.cc:95-102 | for sorted, non-overlapping elements, a byte is found exactly when some element covers the address, and it is the byte of every such element |
| ImageModel.Image.Add | lib/image.cc:115-121 | the element is inserted at its insertion index, and the image stays sorted (corrected, see ## Findings) |
| ImageModel.Image.Append | lib/image.cc:104-113 | the elements become AppendedImage of the old elements, and stay sorted (corrected, see ## Findings) |
| Offsets.ByteAlignedIsBitSeven | lib/offset.cc:31-34 | ByteAligned (Address::byteAligned) holds exactly when the address's bit is 7 |
| Offsets.AddressByte | lib/offset.cc:66-69 | byte() is the index of the byte holding the address, taken modulo 2^32 bytes (the narrowing to unsigned int) |
| Offsets.AddressToString | lib/offset.cc:76-81 | the text reads back as the byte in hex, 'h', and ":" with the octal bit exactly when the bit is not 7 |
| Offsets.OffsetToString | lib/offset.cc:185-190 | for a non-negative offset, the text reads back as the byte in hex, 'h', and ":" with the bit exactly when it is not 0 |
| Offsets.SizeToString | lib/offset.cc:253-258 | the text reads back as the byte in hex, 'h', and ":" with the bit exactly when it is not 0 |
| Offsets.AddressBit | lib/offset.cc:71-74 | the bit of an address is below 8 |
| Offsets.AddressFromByte | lib/offset.cc:41-45 | an address made from a byte and a bit is valid and below 2^32 bits |
| Offsets.AddressFromByteRoundTrip | lib/offset.cc:41-74 | for a byte below 2^29 and a bit below 8, byte() and bit() return them, and the address is byte-aligned exactly when the bit is 7 |
| Offsets.AddressFromByteValue | lib/offset.cc:41-45 | the value of that address is 8 times the byte plus 7 minus the bit |
| Offsets.AddressFromByteWraps | lib/offset.cc:41-45 | the 32-bit arithmetic makes byte 2^29 the same address as byte 0 |
| Offsets.AddressPlus | lib/offset.cc:91-96 | adding an offset gives the invalid address instead of going below zero, and wraps at 2^64 |
| Offsets.AddressMinus | lib/offset.cc:106-111 | subtracting a larger offset gives the invalid address, and otherwise the difference |
| Offsets.AddressDiff | lib/offset.cc:113-116 | the difference of two addresses is their signed bit difference |
| Offsets.AddressPlusMinus | lib/offset.cc:83-116 | adding and then subtracting an offset returns the address; the difference recovers the offset; adding equals subtracting the negated offset |
| Offsets.OffsetFromByte | lib/offset.cc:156-159 | an offset from a byte count and bits is 8 times the bytes plus the bits, and is valid |
| Offsets.OffsetFromBits | lib/offset.cc:161-164 | an offset from an unsigned bit count is that count read as a signed 64-bit number |
| Offsets.AddressFromOffset | lib/offset.cc:20-24 | a non-negative offset becomes the address with the same value |
| Offsets.OffsetFromAddress | lib/offset.cc:140-144 | an address below 2^63 becomes the offset with the same value |
| Offsets.OffsetFromSize | lib/offset.cc:134-138 | a size below 2^63 becomes the offset with the same value |
| Offsets.OffsetAddressRoundTrip | lib/offset.cc:20-24 | offset to address and back returns the offset |
| Offsets.SizeFromOffset | lib/offset.cc:208-212 | a size from an offset is valid exactly when the offset is positive, and then has its value |
| Offsets.SizeOffsetRoundTrip | lib/offset.cc:134-138 | a positive offset to size and back returns the offset |
| Offsets.SizeFromByte | lib/offset.cc:224-227 | a size from bytes and bits is 8 times the bytes plus the bits, and is valid |
| Offsets.SizeMinus | lib/offset.cc:260-267 | subtracting a larger size gives the invalid size rather than wrapping, and otherwise the difference |
| Offsets.SizeMinusValid | lib/offset.cc:260-267 | the difference is valid exactly when the subtrahend is not larger, except that the invalid size minus zero stays invalid |
| Offsets.Sentinels | lib/offset.cc:14-18 | the invalid address, offset and size are not valid, zero is, and byte constructors give valid values |
| Offsets.PositionStringReadsBack | lib/offset.cc:76-81 | the printed position is the byte in hex without leading zeros, 'h', and ":bit" only when the bit is not the default; all of it reads back |
| Offsets.AddressTestExamples | test/address_test.cc:13-29 | the address differences and sums checked by the address test hold |
| Numerals.NumeralRoundTrip | lib/offset.cc:79 | a numeral in any base from 2 to 16 reads back as its number and has no leading zero |
| Bytes.BE32Inverse | lib/anytoneprotocol.cc:39 | four bytes read big-endian and written back give the same bytes |
| HexDump.DumpRowShowsData | lib/hexdump.cc:13-29 | the bytes a dump row keeps, read past its padding, are exactly the data |
| HexDump.DumpLine | lib/hexdump.cc:10-30 | a dump line starts at the address rounded down to 16, has 16 left bytes: Unused padding, then min(16 - address mod 16, data length) kept data bytes, then Unused padding; it has no right side and no diff |
| HexDump.AppendKept | lib/hexdump.cc:21-23 | the loop appends the first n data bytes as Keep bytes |
| HexDump.AppendPadding | lib/hexdump.cc:26-29 | the loop appends n Unused bytes |
| HexDump.DiffLine | lib/hexdump.cc:32-65 | a diff line consumes the larger of the two sides' counts; left and right have equal length, the leading padding is Unused on both, each position is tagged from the two bytes, and the line has a diff exactly when some position differs |
| HexDump.DiffLineTags | lib/hexdump.cc:45-63 | a position is Remove on the left or Add on the right exactly when the bytes differ or one is missing; it is Keep on one side exactly when it is Keep on the other |
| HexDump.DumpElement | lib/hexdump.cc:138-150 | the lines' consumed counts add up to the data size, each is at least 1, and the lines show exactly the element's data |
| HexDump.Mid16 | lib/hexdump.cc:170-172 | the slice is at most 16 bytes from the position, empty past the end |
| HexDump.MismatchIffDiffer | lib/hexdump.cc:177 | some position differs exactly when the two byte sequences differ |
| HexDump.DiffElement | lib/hexdump.cc:152-179 | a diff element takes the right element's address when there is one; it has a diff exactly when the two data differ, and its lines consume the longer data |
| HexDump.DumpImage | lib/hexdump.cc:224-230 | one dump element per image element, in order, with the same address and showing the same data, and no diff |
| HexDump.PairingCoversEach | lib/hexdump.cc:232-260 | every element of each image appears in exactly one entry, in order, and every entry has at least one side |
| HexDump.PairingAscending | lib/hexdump.cc:232-260 | for sorted images the entries come in ascending address order |
| HexDump.PairingStrictlyAscending | lib/hexdump.cc:232-260 | for strictly sorted images the entries' addresses strictly increase |
| HexDump.PairingMatchesAddresses | lib/hexdump.cc:245-249 | an entry with both sides pairs two elements at the same address |
| HexDump.PairingAt | lib/hexdump.cc:235-259 | each merge step takes the lower left element, the lower right element, or both when the addresses are equal |
| HexDump.NextPair | lib/hexdump.cc:235-259 | one step of the two-index merge yields the next entry of the pairing and advances at least one index |
| HexDump.DiffImage | lib/hexdump.cc:232-260 | one diff element per entry of the pairing, each rendering its pair; the image has a diff exactly when one of its elements does |
| ImageDifferenceModel.AddChange | lib/imagedifference.cc:48-51 | an addition at the offset (IsAdd, the isAdd of lib/imagedifference.hh:69, holds): nothing before, the byte after |
| ImageDifferenceModel.RemChange | lib/imagedifference.cc:53-56 | a removal at the offset (IsRem, the isRem of lib/imagedifference.hh:70, holds): the byte before, nothing after |
| ImageDifferenceModel.ModChangeAsWritten | lib/imagedifference.cc:58-61 | as written, a modification records both bytes at the offset |
| ImageDifferenceModel.ModChangeAsWrittenIsRemoval | lib/imagedifference.cc:58-61 | as written, a modification is typed as a removal, so it is never a modification and has no byte after |
| ImageDifferenceModel.ModChange | lib/imagedifference.cc:58-61 | the corrected modification (IsMod, the isMod of lib/imagedifference.hh:71, holds): the old byte before, the new byte after |
| ImageDifferenceModel.ModifyElement | lib/imagedifference.cc:67-83 | the loop produces the changes of the specification ChangesFrom (corrected, see ## Findings) |
| ImageDifferenceModel.ChangeCount | lib/imagedifference.cc:70-82 | the number of changes is the number of differing common positions plus the difference in length |
| ImageDifferenceModel.ChangesReplay | lib/imagedifference.cc:67-83 | replaying the changes on the old data gives back the old byte before and the new byte after, at every position |
| ImageDifferenceModel.ModifyAsWrittenLosesByte | lib/imagedifference.cc:58-61 | as written, the change for [1] against [2] loses the new byte 2 |
| ImageDifferenceModel.RecordPair | lib/imagedifference.cc:103-107 | one merge entry gives the difference of its pair |
| ImageDifferenceModel.ComputeDifferences | lib/imagedifference.cc:95-115 | the two-index loop gives the differences of the pairing of the two images (corrected, see ## Findings) |
| ImageDifferenceModel.SelfDifferenceEmpty | lib/imagedifference.cc:103-106 | an image compared with itself has no differences |
| ImageDifferenceModel.DifferenceMeaning | lib/imagedifference.cc:95-115 | for strictly sorted images, a deletion is an element of the first image with no element at its address in the second, an addition the reverse, and a modification two unequal elements at the same address with their byte changes |
| ImageDifferenceModel.LoneLeftAbsent | lib/imagedifference.cc:97-99 | an entry with only a left element has no right element at its address |
| ImageDifferenceModel.LoneRightAbsent | lib/imagedifference.cc:100-102 | an entry with only a right element has no left element at its address |
| ImageDifferenceModel.DeletionReported | lib/imagedifference.cc:95-115 | for strictly sorted images, every element of the first image whose start address the second lacks is reported as a deletion |
| ImageDifferenceModel.AdditionReported | lib/imagedifference.cc:95-115 | for strictly sorted images, every element of the second image whose start address the first lacks is reported as an addition |
| ImageDifferenceModel.ModificationReported | lib/imagedifference.cc:95-115 | for strictly sorted images, every pair of unequal elements at the same start address is reported as a modification with their byte changes |
| ImageDifferenceModel.ImageDifference.constructor | lib/imagedifference.cc:89-116 | the differences are those of the pairing of the two images (corrected, see ## Findings) |
| ImageDifferenceModel.ImageDifference.OnImageDeleted | lib/imagedifference.cc:128-141 | deleting either image clears both image references; any other object changes nothing |
| PatternModel.Plus | lib/pattern.cc:162-167 | combining two flags gives the one later in the declaration order, which is one of the two |
| PatternModel.PlusLaws | lib/pattern.cc:162-172 | combining flags is commutative, associative and idempotent, with None as identity |
| PatternModel.CombinedFlagsOf | lib/pattern.cc:345-351 | the loop over the children computes the combined flags of the tree |
| PatternModel.CombinedIsMaximum | lib/pattern.cc:345-351 | CombinedFlags (combinedFlags): the combined flags are the highest flag anywhere in the tree, and some pattern in it carries them |
| PatternModel.CombinedFlagsOfLeaf | lib/pattern.cc:194-197 | a pattern without children combines to its own flags |
| PatternModel.InsertionIndex | lib/pattern.cc:421-424 | the codeplug inserts before the first child whose address is not below the new one |
| PatternModel.InsertKeepsSorted | lib/pattern.cc:421-427 | inserting at that index keeps the children sorted by address |
| PatternModel.CodeplugPattern.constructor | lib/pattern.cc:357-362 | a new codeplug has no children |
| PatternModel.CodeplugPattern.AddChildPattern | lib/pattern.cc:412-438 | refused exactly when the pattern has no address; otherwise inserted at the insertion index, and the children stay sorted |
| PatternModel.CodeplugPattern.TakeChild | lib/pattern.cc:447-461 | removes and returns child n, or returns nothing and changes nothing when n is out of range |
| PatternModel.ReaddressedContiguous | lib/pattern.cc:1041-1043 | re-addressing lays the children out back to back from zero, and a contiguous layout is its own re-addressing |
| PatternModel.ElementPattern.constructor | lib/pattern.cc:904-908 | a new element pattern has no children and no size |
| PatternModel.ElementPattern.AddChildPattern | lib/pattern.cc:959-1001 | accepted exactly when the pattern is fixed and has no address or the address where the children end; it is placed there, and the size becomes the total of the children |
| PatternModel.ElementPattern.InsertChildPattern | lib/pattern.cc:1003-1046 | refused when the index is past the end or a preset address is not the one at the index; otherwise inserted there, every later child moves up by its size, and the size is the total |
| PatternModel.ElementPattern.TakeChild | lib/pattern.cc:1065-1092 | removes child n, moves every later child down, and shrinks the size to the new total; out of range nothing changes |
| PatternModel.ReflowAfter | lib/pattern.cc:1041-1043 | insertChildPattern's loop places each child after the insertion right after its predecessor |
| PatternModel.Reflow | lib/pattern.cc:1081-1085 | takeChild's loop re-addresses from the removed index on and keeps the total size |
| PatternModel.FixedRepeatPattern.constructor | lib/pattern.cc:1113-1117 | a new fixed repeat has no subpattern, repetition 0 and no size |
| PatternModel.FixedRepeatPattern.SetRepetition | lib/pattern.cc:1163-1168 | stores the repetition; with a subpattern the size becomes its size times the repetition |
| PatternModel.FixedRepeatPattern.AddChildPattern | lib/pattern.cc:1182-1203 | accepts a fixed pattern exactly when there is no subpattern yet; the size becomes its size times the repetition |
| PatternModel.FixedRepeatPattern.TakeChild | lib/pattern.cc:1222-1237 | child 0 is removed and the size set to zero; any other index or an empty slot changes nothing |
| PatternModel.SingleChildPattern.constructor | lib/pattern.cc:723-727 | a new single-slot container is empty |
| PatternModel.SingleChildPattern.AddChildPattern | lib/pattern.cc:800-819 | accepted exactly when the slot is empty and, for a block repeat, the child is fixed |
| PatternModel.SingleChildPattern.TakeChild | lib/pattern.cc:838-854 | index 0 empties the slot and returns its child; any other index changes nothing |
| PatternModel.FromBCD | lib/pattern.cc:1634-1655 | the loop reads the n nibbles, most significant first, as decimal digits, and never wraps |
| PatternModel.FromBCD4 | lib/pattern.cc:1634-1643 | fromBCD4 is the decimal value of the four nibbles |
| PatternModel.FromBCD8 | lib/pattern.cc:1646-1655 | fromBCD8 is the decimal value of the eight nibbles |
| PatternModel.BCDRoundTrip | lib/pattern.cc:1634-1655 | decoding the BCD encoding of any number below 10^n gives the number back |
| PatternModel.SubByte | lib/pattern.cc:1537-1545 | a sub-byte field exists exactly when it does not reach below bit 0, and is below 2^width |
| PatternModel.SubByteField | lib/pattern.cc:1537-1545 | the shift and mask extract exactly the value stored in those bits, whatever is above and below |
| PatternModel.DecodeInteger | lib/pattern.cc:1530-1599 | fields of at most 8 bits decode below 2^width; wider fields must be byte-aligned; fields wider than 32 bits are an error |
| PatternModel.IntegerValue | lib/pattern.cc:1602-1631 | a field that ends past the element is an error; otherwise the value is the decoded one |
| PatternModel.DecodeStored | lib/pattern.cc:1548-1595 | a byte-aligned 16- or 32-bit field decodes to the word stored there, read in the field's byte order and interpreted in its format, whatever surrounds it |
| PatternModel.DecodeUnsigned16 | lib/pattern.cc:1548-1562 | a byte-aligned 16-bit unsigned field decodes to the word stored there, in either byte order, whatever surrounds it |
| PatternModel.DecodeBCD16 | lib/pattern.cc:1563-1566 | every number below 10000, stored as 16-bit BCD in either byte order, decodes back to itself |
| PatternModel.DecodeSigned16 | lib/pattern.cc:1555-1558 | every value from -2^15 to 2^15-1, stored as 16-bit two's complement in either byte order, decodes back to itself |
| PatternModel.DecodeUnsigned32 | lib/pattern.cc:1584-1587 | a byte-aligned 32-bit unsigned field decodes to the word stored there, in either byte order |
| PatternModel.DecodeSigned32 | lib/pattern.cc:1580-1583 | every value from -2^31 to 2^31-1, stored as 32-bit two's complement in either byte order, decodes back to itself |
| PatternModel.DecodeBCD32 | lib/pattern.cc:1588-1591 | every number below 10^8, stored as 32-bit BCD in either byte order, decodes back to itself |
| PatternModel.DecodeWideField | lib/pattern.cc:1573-1595 | a field of 9 to 31 bits other than 16 decodes exactly as a 32-bit field at the same place, and is an error when the word runs past the data |
| PatternModel.WideFieldUnmasked | lib/pattern.cc:1573-1595 | a 12-bit unsigned field over four 0xff bytes decodes to 0xffffffff, which is not below 2^12 |
| PatternModel.DecodeEnum | lib/pattern.cc:1819-1840 | an enum field decodes exactly when it lies in the element, is at most 8 bits and does not cross a byte, and then is below 2^width |
| AnnotationModel.SeverityOf | lib/annotation.cc:100-111 | the worst severity is at least every issue's, and is None or some issue's severity |
| AnnotationModel.SeverityOfAppend | lib/annotation.cc:100-111 | one more issue raises the worst severity to that issue's when it is worse |
| AnnotationModel.AnnotationIssues.constructor | lib/annotation.cc:58-62 | a new issue list is empty |
| AnnotationModel.AnnotationIssues.Add | lib/annotation.cc:65-70 | an issue at an invalid address is ignored; any other is appended |
| AnnotationModel.AnnotationIssues.Has | lib/annotation.cc:82-88 | true exactly when some issue has that severity |
| AnnotationModel.AnnotationIssues.MaxSeverity | lib/annotation.cc:100-111 | the loop gives the worst severity, None for no issues |
| AnnotationModel.ContainsUnique | lib/annotation.cc:226-231 | in sorted, disjoint annotations at most one contains an address |
| AnnotationModel.AnnotationAt | lib/annotation.cc:162-190 | terminates; nothing for no annotations; any result contains the address; on sorted, disjoint annotations it finds one exactly when one contains the address |
| AnnotationModel.Resolve | lib/annotation.cc:332-338 | any result is a field or unannotated segment that contains the address; a field or unannotated segment resolves to itself exactly when it contains the address |
| AnnotationModel.StructuredAnnotation.constructor | lib/annotation.cc:318-323 | a new structured annotation is empty with size zero |
| AnnotationModel.StructuredAnnotation.AddAnnotation | lib/annotation.cc:325-330 | the child is appended and the size grows by its size |
| AnnotationModel.TilingMatch | lib/annotation.cc:401-404 | an annotation that starts at the next unannotated address is kept |
| AnnotationModel.TilingGap | lib/annotation.cc:406-411 | a gap before the next annotation becomes an unannotated segment inserted in front of it |
| AnnotationModel.TilingRest | lib/annotation.cc:414-419 | what is left after the last annotation becomes one unannotated segment |
| AnnotationModel.TilingTiles | lib/annotation.cc:396-423 | after markUnannotated the annotations tile the element without gap or overlap |
| AnnotationModel.TilingAdds | lib/annotation.cc:396-423 | markUnannotated only adds unannotated segments of positive size |
| AnnotationModel.TilingKeeps | lib/annotation.cc:396-423 | the element's own annotations keep their order |
| AnnotationModel.TilingOfTiled | lib/annotation.cc:396-423 | an element that is already tiled is unchanged |
| AnnotationModel.TilingIdempotent | lib/annotation.cc:396-423 | marking twice is marking once |
| AnnotationModel.AnnotatedElement.AddAnnotation | lib/annotation.cc:151-154 | the annotation is appended |
| AnnotationModel.AnnotatedElement.MarkUnannotated | lib/annotation.cc:398-421 | the element's annotations become their tiling, which tiles the element |
| AnnotationModel.FillGaps | lib/annotation.cc:400-421 | the loop with its running address produces exactly the tiling |
| AnnotationModel.MarkUnannotatedAll | lib/annotation.cc:396-423 | always succeeds, and every element's annotations become their tiling |
| AnnotationModel.AnnotateFixedShape | lib/annotation.cc:508-569 | a successful annotation starts at the address, is as large as the pattern, ends within the element unless it is empty, and a structured one is tiled by its children |
| AnnotationModel.AnnotateChildrenShape | lib/annotation.cc:530-553 | an element pattern's children are annotated one after another, tiling its range, and together as large as the pattern |
| AnnotationModel.AnnotateRepeatsShape | lib/annotation.cc:508-527 | a fixed repeat gets all n repetitions, each as large as the subpattern, tiling their range, each starting before the end |
| AnnotationModel.AnnotateBlockRepsCount | lib/annotation.cc:483-504 | the repetitions of a block repeat never exceed the maximum, tile their range, and are fewer than the maximum only when the end was reached after at least the minimum (corrected, see ## Findings) |
| AnnotationModel.BlockRepeatMeetsMinimum | lib/annotation.cc:483-504 | a block repeat annotation has at most the maximum number of repetitions, and fewer only when the element ended after at least the minimum |
| AnnotationModel.BlockRepeatAsWrittenStopsShort | lib/annotation.cc:488-490 | as written, a block repeat of 2 to 5 repetitions of an 8-bit field in an 8-bit element is accepted with one repetition; the corrected rule refuses it |
| AnnotationModel.ElementFailsAtEnd | lib/annotation.cc:535-539 | an element pattern with children fails when it starts at or past the end |
| AnnotationModel.AnnotateFixedPattern | lib/annotation.cc:556-569 | a field is annotated exactly when it fits before the end; any result starts at the address and is as large as the pattern |
| AnnotationModel.AnnotateElementPattern | lib/annotation.cc:530-553 | the loop gives the element pattern's annotation as AnnotateFixed specifies it |
| AnnotationModel.AnnotateFixedRepeatPattern | lib/annotation.cc:508-527 | the loop gives the fixed repeat's annotation as AnnotateFixed specifies it |
| AnnotationModel.AnnotateBlockRepeatPattern | lib/annotation.cc:483-504 | the loop gives the block repeat's annotation under the corrected minimum rule (corrected, see ## Findings) |
| AnnotationModel.AnnotateBlockPattern | lib/annotation.cc:469-480 | succeeds exactly when the block pattern annotates the element, and then appends the annotation to the element (corrected, see ## Findings) |

## Left out

- Transport and timers: the serial port, pseudo-terminal and QIODevice loops are not modelled. The AnyTone device sees the interface only as a function saying how many bytes it accepts.
- Qt signals, slots, QObject parenting and QVariant packaging are not modelled. The AnyTone start-program, end-program and image-received signals are recorded in a signal log.
- XML parsing and serialization, clone(), CodeplugPattern load and save, and every fromString parser are left out.
- hexdump() text output (lib/hexdump.cc:285-369) is left out.
- plugins/anytone/protocol.cc is not part of this model. The AnyTone device keeps the band byte that plugins/anytone/protocol.hh adds to the device-info reply, but encodes that reply with the two-field layout of lib/anytoneprotocol.cc.
- AnytoneDevice.AnyToneDevice.OnBytesAvailable: states that the leftover receive buffer is a suffix of the input with no complete request and that transmitted bytes only grow; which replies were sent is stated per request by Respond and Handle (through Reply, NextState and Emitted), not as one sequence.
- HexWriterModel.HexWriter.Write: models the release-build wrap of address + 16 at 2^32; a debug build panics instead.
- HexWriterModel.HexWriter.Write: each file write either succeeds whole or fails with nothing of its text written; a short write, which the source does not check, is not modelled.
- HexWriterModel.HexWriter.Reset: the u32 file counter is unbounded in the model, so its overflow is not modelled.
- Md32uvProtocol: the filler test compares the first byte with -1 (lib/md32uvprotocol.cc:69), which matches 0xff only where char is signed; the model assumes a signed char, as the OpenGD77 sector finding does.
- The MD-32UV getValue and readInfo tables are static data and are left out; value and read-info replies carry the payload they are given.
- Opengd77Protocol.ParseCommand, ParseRead, ParseWrite and Parse only bound what they consume in their own contracts; what they decode is stated by the lemmas on them. A read past the received bytes, undefined in the source, is decoded as zero and flagged as out of bounds.
- The Radtel write address of page 0x4000 in segment 0 equals that of page 0 in segment 1. This is recorded as an observation, not a finding: the source does not say which pages are legal.
- The 64-bit range of Address, Offset and Size inside annotations and patterns is not modelled: they are unbounded bit counts there.
- Elements are values, so ElementDifference::onElementDeleted has nothing to model.
- AnnotationCollection::severity (lib/annotation.cc:193-202) is left out, because annotations in the model carry no issue lists. FieldAnnotation's value and path, and StructuredAnnotation's pattern and path, are left out too.
- annotate(image, CodeplugPattern) and annotate(image, RepeatPattern) (lib/annotation.cc:361-393, 426-466) are left out, because they rely on Image::find, which is not part of this model.
- Patterns of an unknown kind cannot be represented, and patterns without a valid size are not represented.
- AnnotationModel.AnnotatedElement.MarkUnannotated requires the element's annotations to be sorted and disjoint within it; the source assumes this without checking.
- None as a severity: the source declares only Note, Warning and Error (lib/annotation.hh:26-36) and starts its maximum at a None value (lib/annotation.cc:101); the model makes None a severity of its own, below Note, so that the worst severity of no issues is the least one.
- PatternModel.ElementPattern.InsertChildPattern requires a fixed pattern, because the source's parameter type is FixedPattern.
- onChildResized in ElementPattern and FixedRepeatPattern is left out: children's sizes do not change in the model.
- PatternModel.FromBCD cannot wrap: the largest result, 9999 or 99999999, fits its word, and this is proved rather than assumed.
- PatternModel.DecodeInteger: an integer field of 9 to 31 bits reads a whole 32-bit word, unmasked, as the source does (PatternModel.DecodeWideField, PatternModel.WideFieldUnmasked); a word that runs past the element's data is an error in the model, where the source reads past the buffer.
- ModelRomModel.ModelRom.Write: follows the corrected overwrite check that compares the full data size; the source narrows the size to 8 bits first and can overrun the segment (see ## Findings).
- ImageModel.Image.Data, ImageModel.Image.Add, ImageModel.Image.Append: use the corrected insertion index; the source's bisection never returns when the address equals an element's start (see ## Findings).
- ImageDifferenceModel.ModifyElement, ImageDifferenceModel.ComputeDifferences, ImageDifferenceModel.ImageDifference.constructor: record a byte change as a Mod change that keeps the new byte; the source builds it typed Del (see ## Findings).
- AnnotationModel.AnnotateBlockPattern, AnnotationModel.AnnotateBlockRepeatPattern, AnnotationModel.AnnotateBlockRepsCount: stop a block repeat at the element's end only after at least the minimum number of repetitions; the source stops one repetition earlier (see ## Findings).
- Offsets.PositionStringReadsBack covers non-negative positions only; printing a negative offset is left out.
- Offsets.OffsetToString: requires a non-negative offset, for the same reason; Offset::toString of a negative offset is not modelled.
- The MD-32UV, Radtel and OpenGD77 device loops are left out; only their framers and encoders are modelled.
- ModelRom does not merge adjacent writes (ModelRomModel.AdjacentWritesNotMerged), though test/modelparsertest.cc expects merging; the model follows the code.

## Findings

| source | as written | input that shows it | evidently intended | confidence | as-written member | corrected member |
|---|---|---|---|---|---|---|
| lib/image.cc:139-145 | findInsertionIndex bisects while the range has more than one element and never stops when the address equals an element's start | one element at 0x10, address 0x10 | return the index after the element starting at the address | not executed | ImageModel.FindInsertionIndexAsWrittenDiverges, ImageModel.FindInsertionIndexAsWrittenHangs | ImageModel.FindInsertionIndex, ImageModel.FindInsertionIndexAgrees |
| lib/modelrom.cc:64-66 | the overwrite check narrows the data size to 8 bits before comparing it with the segment | 256 bytes written at 0x100 over a 16-byte segment at 0x100 | compare the full data size, so the write does not overrun the segment | not executed | ModelRomModel.CoversAsWrittenOverruns | ModelRomModel.OverwriteFits |
| lib/imagedifference.cc:58-61 | Modification::mod builds a change typed Del | element data [1] against [2] | a change typed Mod that keeps the new byte | not executed | ImageDifferenceModel.ModChangeAsWrittenIsRemoval, ImageDifferenceModel.ModifyAsWrittenLosesByte | ImageDifferenceModel.ModChange, ImageDifferenceModel.ChangesReplay |
| lib/md32uvprotocol.cc:60-68 | the write length is read from bytes 3-4, which overlap the field in bytes 2-3 | a read reply with flags 0, field 0x0100 and an empty payload, fed back to the framer | length in bytes 4-5, as the reply encoder writes it | not executed; lower, the device's own byte layout is not documented | Md32uvProtocol.WriteReplyAsWrittenWaits | Md32uvProtocol.WriteReplyRoundTrip |
| plugins/opengd77/protocol.cc:324-326 | the sector bytes are widened through char, which sign-extends bytes from 0x80 | sector bytes 00 00 80 decode as 0xffffff80 | unsigned bytes, giving 0x80 | not executed | Opengd77Protocol.SectorAsWrittenSignExtends | Opengd77Protocol.SectorRoundTrip, Opengd77Protocol.Sector |
| lib/annotation.cc:488-490 | the block repeat stops at the element's end once i + 1 repetitions reach the minimum, one before i have been made | a block repeat of 2 to 5 repetitions of an 8-bit field, at address 0 in an element ending at 8 | stop only after at least the minimum number of repetitions | not executed | AnnotationModel.BlockRepeatAsWrittenStopsShort | AnnotationModel.BlockRepeatMeetsMinimum |
